/** Hand angles and the choice of a directional glyph for a hand.

    Angles are integers counted in half-degrees, clockwise from twelve
    o'clock: a full turn is 720. For an integer time every hand angle is a
    whole number of half-degrees, so the comparisons against 45, 135, 225
    and 315 degrees become comparisons against 90, 270, 450 and 630. */
module HandGlyphs {
  import opened CArith
  import opened TimeOfDay

  const FULL_TURN := 720

  /** The four direction buckets of a hand, in clockwise order from twelve. */
  datatype Direction = Up | DiagA | Horiz | DiagB

  datatype HandKind = HourHand | MinuteHand | SecondHand

  /** Every glyph the face uses: a hand glyph per kind and direction, the rim
      mark and the centre pivot. */
  datatype Glyph = Hand(kind: HandKind, dir: Direction) | Rim | Pivot

  datatype Option<T> = None | Some(value: T)

  /** The character each glyph stands for on screen. */
  function GlyphChar(g: Glyph): char
  {
    match g
    case Hand(HourHand, Up) => '┃'
    case Hand(HourHand, DiagA) => '┓'
    case Hand(HourHand, Horiz) => '━'
    case Hand(HourHand, DiagB) => '┏'
    case Hand(MinuteHand, Up) => '║'
    case Hand(MinuteHand, DiagA) => '╗'
    case Hand(MinuteHand, Horiz) => '═'
    case Hand(MinuteHand, DiagB) => '╔'
    case Hand(SecondHand, Up) => '│'
    case Hand(SecondHand, DiagA) => '╱'
    case Hand(SecondHand, Horiz) => '─'
    case Hand(SecondHand, DiagB) => '╲'
    case Rim => '░'
    case Pivot => '⊕'
  }

  /** Reads a cell back as a glyph, if it holds one. */
  function GlyphOf(c: char): (r: Option<Glyph>)
    ensures r.Some? ==> GlyphChar(r.value) == c
  {
    match c
    case '┃' => Some(Hand(HourHand, Up))
    case '┓' => Some(Hand(HourHand, DiagA))
    case '━' => Some(Hand(HourHand, Horiz))
    case '┏' => Some(Hand(HourHand, DiagB))
    case '║' => Some(Hand(MinuteHand, Up))
    case '╗' => Some(Hand(MinuteHand, DiagA))
    case '═' => Some(Hand(MinuteHand, Horiz))
    case '╔' => Some(Hand(MinuteHand, DiagB))
    case '│' => Some(Hand(SecondHand, Up))
    case '╱' => Some(Hand(SecondHand, DiagA))
    case '─' => Some(Hand(SecondHand, Horiz))
    case '╲' => Some(Hand(SecondHand, DiagB))
    case '░' => Some(Rim)
    case '⊕' => Some(Pivot)
    case _ => None
  }

  /** In its Unicode spelling each glyph has its own character, and no glyph
      is a blank, a row terminator, a digit or a minus sign. */
  lemma GlyphCharDecodes(g: Glyph)
    ensures GlyphOf(GlyphChar(g)) == Some(g)
    ensures GlyphChar(g) != ' ' && GlyphChar(g) != '\0' && GlyphChar(g) != '-'
    ensures !('0' <= GlyphChar(g) <= '9')
  {
  }

  lemma GlyphCharInjective(g1: Glyph, g2: Glyph)
    requires GlyphChar(g1) == GlyphChar(g2)
    ensures g1 == g2
  {
    GlyphCharDecodes(g1);
    GlyphCharDecodes(g2);
  }

  /** What the two normalisation loops of getHandChar leave: the angle moved
      by whole turns into [0, FULL_TURN]. The second loop stops at `> 2*PI`,
      so a positive whole number of turns ends at FULL_TURN, not at 0. */
  function Normalized(a: int): (r: int)
    ensures 0 <= r <= FULL_TURN
    ensures (r - a) % FULL_TURN == 0
    ensures r == FULL_TURN ==> a > 0
    ensures r == 0 ==> a <= 0
  {
    if a > 0 && a % FULL_TURN == 0 then FULL_TURN else a % FULL_TURN
  }

  /** The bucket test of getHandChar on a normalised angle. Exactly 315
      degrees fails every test and falls through to the `up` return. */
  function Bucket(a: int): Direction
  {
    if a < 90 || a > 630 then Up
    else if a < 270 then DiagA
    else if a < 450 then Horiz
    else if a < 630 then DiagB
    else Up
  }

  /** getHandChar as a value: the hand type picks the glyph set, the
      normalised angle the direction; an unknown hand type falls back to the
      same thin vertical bar the second hand uses for `up`. */
  function HandGlyph(angle: int, handType: char): Glyph
  {
    match handType
    case 'H' => Hand(HourHand, Bucket(Normalized(angle)))
    case 'M' => Hand(MinuteHand, Bucket(Normalized(angle)))
    case 'S' => Hand(SecondHand, Bucket(Normalized(angle)))
    case _ => Hand(SecondHand, Up)
  }

  /** getHandChar, with its two normalisation loops. */
  method GetHandChar(angle: int, handType: char) returns (g: Glyph)
    ensures g == HandGlyph(angle, handType)
  {
    var a := angle;
    while a < 0
      invariant (a - angle) % FULL_TURN == 0
      invariant angle >= 0 ==> a == angle
      invariant angle < 0 ==> a < FULL_TURN
      decreases -a
    {
      a := a + FULL_TURN;
    }
    while a > FULL_TURN
      invariant (a - angle) % FULL_TURN == 0
      invariant 0 <= a
      invariant angle > 0 ==> a > 0
      invariant angle <= 0 ==> a < FULL_TURN
    {
      a := a - FULL_TURN;
    }
    SameResidue(a, angle);
    match handType {
      case 'H' => g := Hand(HourHand, Bucket(a));
      case 'M' => g := Hand(MinuteHand, Bucket(a));
      case 'S' => g := Hand(SecondHand, Bucket(a));
      case _ => g := Hand(SecondHand, Up);
    }
  }

  /** A value in [0, FULL_TURN] congruent to `angle` is its normal form,
      provided it is FULL_TURN only for a positive angle and 0 only for a
      non-positive one. */
  lemma SameResidue(a: int, angle: int)
    requires 0 <= a <= FULL_TURN && (a - angle) % FULL_TURN == 0
    requires a == FULL_TURN ==> angle > 0
    requires a == 0 ==> angle <= 0
    ensures a == Normalized(angle)
  {
    var r := Normalized(angle);
    assert (a - r) % FULL_TURN == 0;
    assert -FULL_TURN <= a - r <= FULL_TURN;
  }

  /** A whole turn more or less never changes the glyph, even though the
      normal form of 0 is 0 and that of a full turn is FULL_TURN. */
  lemma HandGlyphPeriodic(angle: int, handType: char)
    ensures HandGlyph(angle + FULL_TURN, handType) == HandGlyph(angle, handType)
  {
    var r, r' := Normalized(angle), Normalized(angle + FULL_TURN);
    assert (r' - r) % FULL_TURN == 0;
    assert r' == r || {r, r'} <= {0, FULL_TURN};
  }

  /** Hand angles in half-degrees, as drawClock computes them:
      hours % 12 at 60 half-degrees an hour plus one half-degree a minute,
      and 12 half-degrees (6 degrees) per minute or second. */
  function HourAngle(t: ClockTime): int
  {
    TruncRem(t.hours, 12) * 60 + t.minutes
  }

  function MinuteAngle(t: ClockTime): int
  {
    t.minutes * 12
  }

  function SecondAngle(t: ClockTime): int
  {
    t.seconds * 12
  }

  /** For a valid time all three hands point into [0, 360) degrees, so the
      normalisation loops leave their angles as they are. */
  lemma AnglesWithinTurn(t: ClockTime)
    requires ValidTime(t)
    ensures 0 <= HourAngle(t) < FULL_TURN && Normalized(HourAngle(t)) == HourAngle(t)
    ensures 0 <= MinuteAngle(t) < FULL_TURN && Normalized(MinuteAngle(t)) == MinuteAngle(t)
    ensures 0 <= SecondAngle(t) < FULL_TURN && Normalized(SecondAngle(t)) == SecondAngle(t)
  {
    assert 0 <= TruncRem(t.hours, 12) < 12;
    WithinTurn(HourAngle(t));
    WithinTurn(MinuteAngle(t));
    WithinTurn(SecondAngle(t));
  }

  lemma WithinTurn(a: int)
    requires 0 <= a < FULL_TURN
    ensures Normalized(a) == a
  {
    DivModUnique(a, FULL_TURN, 0, a);
  }

  /** The direction of a minute or second hand read straight off its field
      v in 0..59: up through v = 7 and from v = 53, then 8..22, 23..37 and
      38..52. */
  function FieldDirection(v: int): Direction
  {
    if v <= 7 || v >= 53 then Up
    else if v <= 22 then DiagA
    else if v <= 37 then Horiz
    else DiagB
  }

  lemma {:induction false} FieldBucket(v: int)
    requires 0 <= v < 60
    ensures Bucket(Normalized(v * 12)) == FieldDirection(v)
  {
    assert Normalized(v * 12) == v * 12;
  }

  /** The minute and second hands of a valid time get the glyph of their
      own kind in the direction their field selects. */
  lemma MinuteSecondGlyphs(t: ClockTime)
    requires ValidTime(t)
    ensures HandGlyph(MinuteAngle(t), 'M') == Hand(MinuteHand, FieldDirection(t.minutes))
    ensures HandGlyph(SecondAngle(t), 'S') == Hand(SecondHand, FieldDirection(t.seconds))
  {
    FieldBucket(t.minutes);
    FieldBucket(t.seconds);
  }

  /** At 01:05:30 the hour hand stands at 32.5 degrees and the minute hand
      at 30 degrees, both in the `up` bucket; the second hand at 180 degrees
      is horizontal. */
  lemma HandsAtOneOhFiveThirty()
    ensures HourAngle(ClockTime(1, 5, 30)) == 65
    ensures HandGlyph(HourAngle(ClockTime(1, 5, 30)), 'H') == Hand(HourHand, Up)
    ensures HandGlyph(MinuteAngle(ClockTime(1, 5, 30)), 'M') == Hand(MinuteHand, Up)
    ensures HandGlyph(SecondAngle(ClockTime(1, 5, 30)), 'S') == Hand(SecondHand, Horiz)
  {
    TruncDivOfNatural(1, 12);
  }
}
