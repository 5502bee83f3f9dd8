/** Integer arithmetic as the C code performs it: `/` and `%` truncate toward
    zero, and `(int)sqrt(n)` on a small non-negative integer is its floor
    square root. */
module CArith {

  function Abs(a: int): (r: int)
    ensures r >= 0 && (r == a || r == -a)
  {
    if a < 0 then -a else a
  }

  /** C's `a / b`: the quotient rounded toward zero. */
  function TruncDiv(a: int, b: int): (q: int)
    requires b != 0
    ensures a >= 0 ==> 0 <= a - q * b < Abs(b)
    ensures a < 0 ==> -Abs(b) < a - q * b <= 0
  {
    if a >= 0 then
      (if b > 0 then a / b else -(a / -b))
    else
      (if b > 0 then -((-a) / b) else (-a) / (-b))
  }

  /** C's `a % b`: the remainder that goes with TruncDiv, carrying the sign of `a`. */
  function TruncRem(a: int, b: int): (r: int)
    requires b != 0
    ensures a == TruncDiv(a, b) * b + r
    ensures a >= 0 ==> 0 <= r < Abs(b)
    ensures a < 0 ==> -Abs(b) < r <= 0
  {
    a - TruncDiv(a, b) * b
  }

  /** Truncating division agrees with Dafny's Euclidean division on a
      non-negative dividend and a positive divisor. */
  lemma TruncDivOfNatural(a: nat, b: int)
    requires b > 0
    ensures TruncDiv(a, b) == a / b && TruncRem(a, b) == a % b
  {
  }

  /** Truncating division rounds toward zero, so it is odd in the dividend
      (Euclidean division is not). */
  lemma TruncDivNegate(a: int, b: int)
    requires b > 0
    ensures TruncDiv(-a, b) == -TruncDiv(a, b)
  {
  }

  /** `(int)sqrt(n)`: the largest r with r*r <= n. */
  function ISqrt(n: nat): (r: nat)
    ensures r * r <= n < (r + 1) * (r + 1)
  {
    if n == 0 then 0
    else
      var r := ISqrt(n - 1);
      if (r + 1) * (r + 1) <= n then r + 1 else r
  }

  /** ISqrt is exact on perfect squares: a hand along an axis, or along a
      3-4-5 diagonal, gets exactly as many steps as it is long. */
  lemma ISqrtOfSquare(k: nat)
    ensures ISqrt(k * k) == k
  {
    var r := ISqrt(k * k);
    if r < k {
      MulLe(r + 1, k);
    } else if r > k {
      MulLe(k + 1, r);
    }
  }

  lemma MulLe(a: nat, b: nat)
    requires a <= b
    ensures a * a <= b * b
  {
  }

  /** Scaling by i/s with 0 <= i <= s never leaves the interval between 0 and d:
      each interpolated hand point lies between the pivot and the tip. */
  lemma ScaledWithin(d: int, i: int, s: int)
    requires 0 <= i <= s && s > 0
    ensures d >= 0 ==> 0 <= TruncDiv(d * i, s) <= d
    ensures d < 0 ==> d <= TruncDiv(d * i, s) <= 0
  {
    if d >= 0 {
      ScaledWithinNat(d, i, s);
    } else {
      ScaledWithinNat(-d, i, s);
      assert (-d) * i == -(d * i);
      TruncDivNegate((-d) * i, s);
    }
  }

  lemma ScaledWithinNat(d: nat, i: int, s: int)
    requires 0 <= i <= s && s > 0
    ensures 0 <= TruncDiv(d * i, s) <= d
  {
    MulMono(d, i, s);
    MulMono(d, 0, i);
    BelowMultiple(d * i, TruncDiv(d * i, s), d, s);
  }

  /** If 0 <= a - q*s < s and 0 <= a <= d*s then 0 <= q <= d. */
  lemma BelowMultiple(a: int, q: int, d: int, s: int)
    requires s > 0 && 0 <= a - q * s < s && 0 <= a <= d * s
    ensures 0 <= q <= d
  {
    if q > d {
      MulMono(s, d + 1, q);
    }
    if q < 0 {
      MulMono(s, q, -1);
    }
  }

  lemma MulMono(k: nat, a: int, b: int)
    requires a <= b
    ensures k * a <= k * b
  {
  }

  /** Dividing an exact multiple gives back the factor: `d * s / s == d`. */
  lemma {:induction false} TruncDivExact(d: int, s: int)
    requires s > 0
    ensures TruncDiv(d * s, s) == d
  {
    var q := TruncDiv(d * s, s);
    assert (d - q) * s == d * s - q * s;
    if q < d {
      MulMono(s, 1, d - q);
      assert false;
    } else if q > d {
      MulMono(s, 1, q - d);
      assert false;
    }
  }
}
