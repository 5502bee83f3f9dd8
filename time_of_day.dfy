/** The clock's time of day: the range check applied to the user's input and
    the one-second tick with its seconds -> minutes -> hours carry, as the
    main loop performs them after each frame. */
module TimeOfDay {
  import opened CArith

  /** hours, minutes and seconds are plain C ints: nothing but ValidTime
      keeps them in range. */
  datatype ClockTime = ClockTime(hours: int, minutes: int, seconds: int)

  const SECONDS_PER_DAY := 86400

  predicate ValidTime(t: ClockTime)
  {
    0 <= t.hours < 24 && 0 <= t.minutes < 60 && 0 <= t.seconds < 60
  }

  /** validateTime: 1 when every field lies in its range, 0 otherwise. */
  function ValidateTime(hours: int, minutes: int, seconds: int): (r: int)
    ensures r == 0 || r == 1
    ensures r == 1 <==> ValidTime(ClockTime(hours, minutes, seconds))
  {
    if hours < 0 || hours > 23 then 0
    else if minutes < 0 || minutes > 59 then 0
    else if seconds < 0 || seconds > 59 then 0
    else 1
  }

  /** The carry chain run once per frame: bump the seconds; on reaching 60
      reset them and bump the minutes; on reaching 60 reset those and bump
      the hours; on reaching 24 reset the hours. */
  function Tick(t: ClockTime): (r: ClockTime)
    ensures ValidTime(t) ==> ValidTime(r)
  {
    var s := t.seconds + 1;
    if s < 60 then t.(seconds := s)
    else
      var m := t.minutes + 1;
      if m < 60 then ClockTime(t.hours, m, 0)
      else
        var h := t.hours + 1;
        if h < 24 then ClockTime(h, 0, 0)
        else ClockTime(0, 0, 0)
  }

  /** The same carry chain as the main loop writes it, updating its three
      counters in place one step at a time. */
  method AdvanceClock(hours: int, minutes: int, seconds: int) returns (h: int, m: int, s: int)
    ensures ClockTime(h, m, s) == Tick(ClockTime(hours, minutes, seconds))
  {
    h, m, s := hours, minutes, seconds;
    s := s + 1;
    if s >= 60 {
      s := 0;
      m := m + 1;
      if m >= 60 {
        m := 0;
        h := h + 1;
        if h >= 24 {
          h := 0;
        }
      }
    }
  }

  /** Seconds elapsed since midnight. */
  function SecondsOfDay(t: ClockTime): (n: int)
    ensures ValidTime(t) ==> 0 <= n < SECONDS_PER_DAY
  {
    t.hours * 3600 + t.minutes * 60 + t.seconds
  }

  /** The time shown `n` seconds after midnight: the inverse of SecondsOfDay. */
  function FromSecondsOfDay(n: int): (t: ClockTime)
    requires 0 <= n < SECONDS_PER_DAY
    ensures ValidTime(t) && SecondsOfDay(t) == n
  {
    ClockTime(n / 3600, (n % 3600) / 60, n % 60)
  }

  /** A valid time is determined by its seconds of the day. */
  lemma FromSecondsOfDayInverse(t: ClockTime)
    requires ValidTime(t)
    ensures FromSecondsOfDay(SecondsOfDay(t)) == t
  {
    var n := SecondsOfDay(t);
    assert n == t.hours * 3600 + (t.minutes * 60 + t.seconds);
    DivModUnique(n, 3600, t.hours, t.minutes * 60 + t.seconds);
    DivModUnique(t.minutes * 60 + t.seconds, 60, t.minutes, t.seconds);
    DivModUnique(n, 60, t.hours * 60 + t.minutes, t.seconds);
  }

  lemma DivModUnique(n: int, d: int, q: int, r: int)
    requires d > 0 && 0 <= r < d && n == q * d + r
    ensures n / d == q && n % d == r
  {
    var q', r' := n / d, n % d;
    assert (q - q') * d == q * d - q' * d;
    Cancel(q - q', d);
  }

  lemma Cancel(a: int, k: int)
    requires k > 0 && -k < a * k < k
    ensures a == 0
  {
    if a >= 1 {
      MulMono(k, 1, a);
    } else if a <= -1 {
      MulMono(k, a, -1);
    }
  }

  lemma ModSucc(a: nat)
    ensures (a % SECONDS_PER_DAY + 1) % SECONDS_PER_DAY == (a + 1) % SECONDS_PER_DAY
  {
    var q, r := a / SECONDS_PER_DAY, a % SECONDS_PER_DAY;
    if r + 1 < SECONDS_PER_DAY {
      DivModUnique(a + 1, SECONDS_PER_DAY, q, r + 1);
      DivModUnique(r + 1, SECONDS_PER_DAY, 0, r + 1);
    } else {
      DivModUnique(a + 1, SECONDS_PER_DAY, q + 1, 0);
      DivModUnique(r + 1, SECONDS_PER_DAY, 1, 0);
    }
  }

  /** One tick on a valid time adds exactly one second, modulo a day. */
  lemma TickAddsOneSecond(t: ClockTime)
    requires ValidTime(t)
    ensures ValidTime(Tick(t))
    ensures SecondsOfDay(Tick(t)) == (SecondsOfDay(t) + 1) % SECONDS_PER_DAY
  {
    var n := SecondsOfDay(t);
    if t.hours == 23 && t.minutes == 59 && t.seconds == 59 {
      assert n + 1 == SECONDS_PER_DAY;
      DivModUnique(n + 1, SECONDS_PER_DAY, 1, 0);
    } else {
      assert n + 1 < SECONDS_PER_DAY;
      DivModUnique(n + 1, SECONDS_PER_DAY, 0, n + 1);
    }
  }

  /** The time after `n` frames of the main loop. */
  function TickN(t: ClockTime, n: nat): (r: ClockTime)
    ensures ValidTime(t) ==> ValidTime(r)
  {
    if n == 0 then t else Tick(TickN(t, n - 1))
  }

  /** n ticks add n seconds, modulo a day. */
  lemma {:induction false} TickNAddsSeconds(t: ClockTime, n: nat)
    requires ValidTime(t)
    ensures SecondsOfDay(TickN(t, n)) == (SecondsOfDay(t) + n) % SECONDS_PER_DAY
  {
    if n > 0 {
      var u := TickN(t, n - 1);
      TickNAddsSeconds(t, n - 1);
      TickAddsOneSecond(u);
      assert SecondsOfDay(TickN(t, n)) == (SecondsOfDay(u) + 1) % SECONDS_PER_DAY;
      ModSucc(SecondsOfDay(t) + n - 1);
    }
  }

  /** Any whole number of days of ticks brings a valid time back to itself. */
  lemma FullDaysWrap(t: ClockTime, days: nat)
    requires ValidTime(t)
    ensures TickN(t, days * SECONDS_PER_DAY) == t
  {
    var n := days * SECONDS_PER_DAY;
    TickNAddsSeconds(t, n);
    var u := TickN(t, n);
    DivModUnique(SecondsOfDay(t) + n, SECONDS_PER_DAY, days, SecondsOfDay(t));
    assert SecondsOfDay(u) == SecondsOfDay(t);
    FromSecondsOfDayInverse(t);
    FromSecondsOfDayInverse(u);
  }

  /** Midnight, ticked 86400 times, is midnight again. */
  lemma MidnightWraps()
    ensures TickN(ClockTime(0, 0, 0), SECONDS_PER_DAY) == ClockTime(0, 0, 0)
  {
    FullDaysWrap(ClockTime(0, 0, 0), 1);
  }
}
