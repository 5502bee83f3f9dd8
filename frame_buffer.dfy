/** The frame buffer of one clock face: a DISPLAY_HEIGHT x DISPLAY_WIDTH grid
    of characters that drawClock blanks and then paints with the rim, the
    hour labels, the three hands and the centre pivot.

    Each painting step is a method over the `array2<char>` and is specified
    by a function on the grid's contents (a `seq<seq<char>>`), so that the
    whole frame is a composition of those functions. Positions that the C
    code obtains from sine and cosine (rim samples, label positions, hand
    tips) are inputs here. */
module FrameBuffer {
  import opened CArith
  import opened TimeOfDay
  import opened HandGlyphs

  const DISPLAY_WIDTH := 82
  const DISPLAY_HEIGHT := 25
  const CLOCK_CENTER_X := 40
  const CLOCK_CENTER_Y := 12

  type Grid = seq<seq<char>>

  predicate IsGrid(g: Grid)
  {
    |g| == DISPLAY_HEIGHT && forall y :: 0 <= y < DISPLAY_HEIGHT ==> |g[y]| == DISPLAY_WIDTH
  }

  predicate IsDisplay(display: array2<char>)
  {
    display.Length0 == DISPLAY_HEIGHT && display.Length1 == DISPLAY_WIDTH
  }

  /** The contents of the buffer, row by row. */
  ghost function Contents(display: array2<char>): (g: Grid)
    requires IsDisplay(display)
    reads display
    ensures IsGrid(g)
    ensures forall y, x :: 0 <= y < DISPLAY_HEIGHT && 0 <= x < DISPLAY_WIDTH ==> g[y][x] == display[y, x]
  {
    seq(DISPLAY_HEIGHT, y requires 0 <= y < DISPLAY_HEIGHT reads display =>
      seq(DISPLAY_WIDTH, x requires 0 <= x < DISPLAY_WIDTH reads display => display[y, x]))
  }

  /** The clip test every drawing step applies before it writes: the last
      column is reserved for the row terminator. */
  predicate InClip(x: int, y: int)
  {
    0 <= x < DISPLAY_WIDTH - 1 && 0 <= y < DISPLAY_HEIGHT
  }

  /** The grid with one cell replaced. */
  function Put(g: Grid, y: int, x: int, c: char): (r: Grid)
    requires IsGrid(g) && 0 <= y < DISPLAY_HEIGHT && 0 <= x < DISPLAY_WIDTH
    ensures IsGrid(r)
    ensures forall yy, xx :: 0 <= yy < DISPLAY_HEIGHT && 0 <= xx < DISPLAY_WIDTH ==>
      r[yy][xx] == if yy == y && xx == x then c else g[yy][xx]
  {
    g[y := g[y][x := c]]
  }

  /** A write that is silently dropped outside the clip area. */
  function ClipPut(g: Grid, x: int, y: int, c: char): (r: Grid)
    requires IsGrid(g)
    ensures IsGrid(r)
  {
    if InClip(x, y) then Put(g, y, x, c) else g
  }

  /** One cell write to the buffer. */
  method SetCell(display: array2<char>, y: int, x: int, c: char)
    requires IsDisplay(display) && 0 <= y < DISPLAY_HEIGHT && 0 <= x < DISPLAY_WIDTH
    modifies display
    ensures Contents(display) == Put(old(Contents(display)), y, x, c)
  {
    ghost var before := Contents(display);
    display[y, x] := c;
    ghost var after := Contents(display);
    ghost var expected := Put(before, y, x, c);
    forall yy | 0 <= yy < DISPLAY_HEIGHT
      ensures after[yy] == expected[yy]
    {
      assert forall xx :: 0 <= xx < DISPLAY_WIDTH ==> after[yy][xx] == expected[yy][xx];
    }
  }

  // ---------------------------------------------------------------------
  // Blanking the buffer

  function BlankCell(x: int): char
  {
    if x == DISPLAY_WIDTH - 1 then '\0' else ' '
  }

  /** A freshly initialised frame: blanks, with a terminator closing each row. */
  function BlankGrid(): (g: Grid)
    ensures IsGrid(g)
  {
    seq(DISPLAY_HEIGHT, y => seq(DISPLAY_WIDTH, x => BlankCell(x)))
  }

  /** The nested initialisation loops of drawClock: every cell becomes a
      blank, then the last cell of each row becomes '\0'. */
  method InitDisplay(display: array2<char>)
    requires IsDisplay(display)
    modifies display
    ensures Contents(display) == BlankGrid()
  {
    var y := 0;
    while y < DISPLAY_HEIGHT
      invariant 0 <= y <= DISPLAY_HEIGHT
      invariant forall yy, xx :: 0 <= yy < y && 0 <= xx < DISPLAY_WIDTH ==> display[yy, xx] == BlankCell(xx)
    {
      var x := 0;
      while x < DISPLAY_WIDTH
        invariant 0 <= x <= DISPLAY_WIDTH
        invariant forall yy, xx :: 0 <= yy < y && 0 <= xx < DISPLAY_WIDTH ==> display[yy, xx] == BlankCell(xx)
        invariant forall xx :: 0 <= xx < x ==> display[y, xx] == ' '
      {
        display[y, x] := ' ';
        x := x + 1;
      }
      display[y, DISPLAY_WIDTH - 1] := '\0';
      y := y + 1;
    }
    ghost var g := Contents(display);
    forall yy | 0 <= yy < DISPLAY_HEIGHT
      ensures g[yy] == BlankGrid()[yy]
    {
      assert forall xx :: 0 <= xx < DISPLAY_WIDTH ==> g[yy][xx] == BlankGrid()[yy][xx];
    }
  }

  /** After initialisation every printable column is blank and the last
      column holds the terminator. */
  lemma BlankGridCells(y: int, x: int)
    requires 0 <= y < DISPLAY_HEIGHT && 0 <= x < DISPLAY_WIDTH
    ensures x < DISPLAY_WIDTH - 1 ==> BlankGrid()[y][x] == ' '
    ensures x == DISPLAY_WIDTH - 1 ==> BlankGrid()[y][x] == '\0'
  {
  }

  // ---------------------------------------------------------------------
  // Hour labels

  function DigitChar(d: int): char
    requires 0 <= d <= 9
  {
    "0123456789"[d]
  }

  function DigitValue(c: char): int
  {
    if '0' <= c <= '9' then c as int - '0' as int else -1
  }

  lemma DigitRoundTrip(d: int)
    requires 0 <= d <= 9
    ensures DigitValue(DigitChar(d)) == d
  {
  }

  /** sprintf's "%2d": right-justified in a field of two characters. The
      three-byte buffer holds exactly the numbers whose rendering is at most
      two characters long, -9 through 99. */
  function FormatNumber(n: int): (s: seq<char>)
    requires -9 <= n <= 99
    ensures |s| == 2
  {
    if n < 0 then ['-', DigitChar(-n)]
    else if n < 10 then [' ', DigitChar(n)]
    else [DigitChar(n / 10), DigitChar(n % 10)]
  }

  /** Reading the two-character field back as a number. */
  function FieldValue(s: seq<char>): int
    requires |s| == 2
  {
    if s[0] == ' ' then DigitValue(s[1])
    else if s[0] == '-' then -DigitValue(s[1])
    else DigitValue(s[0]) * 10 + DigitValue(s[1])
  }

  /** The field reads back as the number it renders. Its second character is
      always a digit; its first is a blank for 0..9, a minus sign for -9..-1
      and a digit for 10..99. */
  lemma FormatNumberRoundTrip(n: int)
    requires -9 <= n <= 99
    ensures FieldValue(FormatNumber(n)) == n
    ensures 0 <= n <= 9 <==> FormatNumber(n)[0] == ' '
    ensures n < 0 <==> FormatNumber(n)[0] == '-'
    ensures n >= 10 <==> '0' <= FormatNumber(n)[0] <= '9'
    ensures '0' <= FormatNumber(n)[1] <= '9'
  {
    if n < 0 {
      DigitRoundTrip(-n);
    } else if n < 10 {
      DigitRoundTrip(n);
    } else {
      DigitRoundTrip(n / 10);
      DigitRoundTrip(n % 10);
    }
  }

  lemma LabelTexts()
    ensures FormatNumber(3) == " 3"
    ensures FormatNumber(12) == "12"
  {
  }

  /** placeNumber on the grid: inside the clip area the two characters of
      the field go to (y, x) and (y, x + 1); outside it nothing changes, and
      the number is not formatted, so any number is accepted there. */
  function PlaceNumberOn(g: Grid, x: int, y: int, n: int): (r: Grid)
    requires IsGrid(g) && (InClip(x, y) ==> -9 <= n <= 99)
    ensures IsGrid(r)
  {
    if InClip(x, y) then
      var s := FormatNumber(n);
      Put(Put(g, y, x, s[0]), y, x + 1, s[1])
    else g
  }

  lemma PlaceNumberCells(g: Grid, x: int, y: int, n: int, yy: int, xx: int)
    requires IsGrid(g) && (InClip(x, y) ==> -9 <= n <= 99)
    requires 0 <= yy < DISPLAY_HEIGHT && 0 <= xx < DISPLAY_WIDTH
    ensures !InClip(x, y) ==> PlaceNumberOn(g, x, y, n) == g
    ensures InClip(x, y) && yy == y && xx == x ==> PlaceNumberOn(g, x, y, n)[yy][xx] == FormatNumber(n)[0]
    ensures InClip(x, y) && yy == y && xx == x + 1 ==> PlaceNumberOn(g, x, y, n)[yy][xx] == FormatNumber(n)[1]
    ensures !(yy == y && (xx == x || xx == x + 1)) ==> PlaceNumberOn(g, x, y, n)[yy][xx] == g[yy][xx]
  {
  }

  method PlaceNumber(display: array2<char>, x: int, y: int, number: int)
    requires IsDisplay(display) && (InClip(x, y) ==> -9 <= number <= 99)
    modifies display
    ensures Contents(display) == PlaceNumberOn(old(Contents(display)), x, y, number)
  {
    if x >= 0 && x < DISPLAY_WIDTH - 1 && y >= 0 && y < DISPLAY_HEIGHT {
      var numStr := FormatNumber(number);
      SetCell(display, y, x, numStr[0]);
      SetCell(display, y, x + 1, numStr[1]);
    }
  }

  /** The labels 1..n placed, in order, at the given positions. */
  function LabelsOn(g: Grid, labels: seq<(int, int)>, n: nat): (r: Grid)
    requires IsGrid(g) && n <= |labels| && n <= 12
    ensures IsGrid(r)
  {
    if n == 0 then g
    else PlaceNumberOn(LabelsOn(g, labels, n - 1), labels[n - 1].0, labels[n - 1].1, n)
  }

  /** The label loop of drawClock; `labels[hour - 1]` is where the C code's
      calculatePoint puts the label of `hour`. */
  method PlaceHourLabels(display: array2<char>, labels: seq<(int, int)>)
    requires IsDisplay(display) && |labels| == 12
    modifies display
    ensures Contents(display) == LabelsOn(old(Contents(display)), labels, 12)
  {
    ghost var g0 := Contents(display);
    var hour := 1;
    while hour <= 12
      invariant 1 <= hour <= 13
      invariant Contents(display) == LabelsOn(g0, labels, hour - 1)
    {
      PlaceNumber(display, labels[hour - 1].0, labels[hour - 1].1, hour);
      hour := hour + 1;
    }
  }

  // ---------------------------------------------------------------------
  // Rim

  /** The first n rim samples marked, each one clipped. */
  function RimOn(g: Grid, points: seq<(int, int)>, n: nat): (r: Grid)
    requires IsGrid(g) && n <= |points|
    ensures IsGrid(r)
  {
    if n == 0 then g
    else ClipPut(RimOn(g, points, n - 1), points[n - 1].0, points[n - 1].1, GlyphChar(Rim))
  }

  /** A cell is marked by the rim exactly when some sample lands on it inside
      the clip area; every other cell is left as it was. */
  lemma {:induction false} RimCells(g: Grid, points: seq<(int, int)>, n: nat, y: int, x: int)
    requires IsGrid(g) && n <= |points|
    requires 0 <= y < DISPLAY_HEIGHT && 0 <= x < DISPLAY_WIDTH
    ensures RimOn(g, points, n)[y][x] ==
      if InClip(x, y) && (x, y) in points[..n] then GlyphChar(Rim) else g[y][x]
  {
    if n > 0 {
      RimCells(g, points, n - 1, y, x);
      assert points[..n] == points[..n - 1] + [points[n - 1]];
    }
  }

  /** The rim loop of drawClock over its angle samples. */
  method DrawRim(display: array2<char>, points: seq<(int, int)>)
    requires IsDisplay(display)
    modifies display
    ensures Contents(display) == RimOn(old(Contents(display)), points, |points|)
  {
    ghost var g0 := Contents(display);
    var k := 0;
    while k < |points|
      invariant 0 <= k <= |points|
      invariant Contents(display) == RimOn(g0, points, k)
    {
      var (x, y) := points[k];
      if x >= 0 && x < DISPLAY_WIDTH - 1 && y >= 0 && y < DISPLAY_HEIGHT {
        SetCell(display, y, x, GlyphChar(Rim));
      }
      k := k + 1;
    }
  }

  // ---------------------------------------------------------------------
  // Hands

  /** `steps` of drawHand: the floor of the hand's Euclidean length. */
  function HandSteps(dx: int, dy: int): nat
  {
    ISqrt(dx * dx + dy * dy)
  }

  lemma HandStepsPositive(dx: int, dy: int)
    requires dx != 0 || dy != 0
    ensures HandSteps(dx, dy) > 0
  {
    assert dx * dx + dy * dy >= 1;
  }

  /** The i-th interpolated point `centre + d * i / steps`, with C's
      truncating division. */
  function HandPoint(cx: int, cy: int, dx: int, dy: int, steps: int, i: int): (int, int)
    requires steps > 0
  {
    (cx + TruncDiv(dx * i, steps), cy + TruncDiv(dy * i, steps))
  }

  /** The line starts at the centre, ends at the tip, and in between never
      leaves the rectangle spanned by the two. */
  lemma HandPointSpan(cx: int, cy: int, dx: int, dy: int, steps: int, i: int)
    requires steps > 0 && 0 <= i <= steps
    ensures HandPoint(cx, cy, dx, dy, steps, 0) == (cx, cy)
    ensures HandPoint(cx, cy, dx, dy, steps, steps) == (cx + dx, cy + dy)
    ensures Between(HandPoint(cx, cy, dx, dy, steps, i).0, cx, cx + dx)
    ensures Between(HandPoint(cx, cy, dx, dy, steps, i).1, cy, cy + dy)
  {
    assert dx * 0 == 0 && dy * 0 == 0;
    TruncDivExact(dx, steps);
    TruncDivExact(dy, steps);
    ScaledWithin(dx, i, steps);
    ScaledWithin(dy, i, steps);
  }

  predicate Between(v: int, a: int, b: int)
  {
    (a <= v <= b) || (b <= v <= a)
  }

  /** Some point among the first n of the line lands on (x, y). */
  ghost predicate OnLine(cx: int, cy: int, dx: int, dy: int, steps: int, n: int, x: int, y: int)
    requires steps > 0
  {
    exists i :: 0 <= i < n && HandPoint(cx, cy, dx, dy, steps, i) == (x, y)
  }

  /** The first n points of the line stamped with c, each one clipped. */
  function StampOn(g: Grid, cx: int, cy: int, dx: int, dy: int, steps: int, c: char, n: nat): (r: Grid)
    requires IsGrid(g) && steps > 0
    ensures IsGrid(r)
  {
    if n == 0 then g
    else
      var p := HandPoint(cx, cy, dx, dy, steps, n - 1);
      ClipPut(StampOn(g, cx, cy, dx, dy, steps, c, n - 1), p.0, p.1, c)
  }

  /** Stamping writes c exactly to the clipped cells some point lands on and
      leaves every other cell as it was. */
  lemma {:induction false} StampCells(g: Grid, cx: int, cy: int, dx: int, dy: int, steps: int, c: char, n: nat, y: int, x: int)
    requires IsGrid(g) && steps > 0
    requires 0 <= y < DISPLAY_HEIGHT && 0 <= x < DISPLAY_WIDTH
    ensures StampOn(g, cx, cy, dx, dy, steps, c, n)[y][x] ==
      if InClip(x, y) && OnLine(cx, cy, dx, dy, steps, n, x, y) then c else g[y][x]
  {
    if n > 0 {
      StampCells(g, cx, cy, dx, dy, steps, c, n - 1, y, x);
      var p := HandPoint(cx, cy, dx, dy, steps, n - 1);
      if p == (x, y) {
        assert OnLine(cx, cy, dx, dy, steps, n, x, y);
      } else if OnLine(cx, cy, dx, dy, steps, n, x, y) {
        var i :| 0 <= i < n && HandPoint(cx, cy, dx, dy, steps, i) == (x, y);
        assert OnLine(cx, cy, dx, dy, steps, n - 1, x, y);
      }
    }
  }

  /** drawHand on the grid, given the tip that calculatePoint would return. */
  function DrawHandOn(g: Grid, cx: int, cy: int, angle: int, handType: char, endX: int, endY: int): (r: Grid)
    requires IsGrid(g) && (endX, endY) != (cx, cy)
    ensures IsGrid(r)
  {
    HandStepsPositive(endX - cx, endY - cy);
    var steps := HandSteps(endX - cx, endY - cy);
    StampOn(g, cx, cy, endX - cx, endY - cy, steps, GlyphChar(HandGlyph(angle, handType)), steps + 1)
  }

  /** A hand paints only clipped cells of its line, all with the one glyph
      its angle and kind select; in particular the centre and the tip each
      carry that glyph when they pass the clip test. */
  lemma DrawHandCells(g: Grid, cx: int, cy: int, angle: int, handType: char, endX: int, endY: int, y: int, x: int)
    requires IsGrid(g) && (endX, endY) != (cx, cy)
    requires 0 <= y < DISPLAY_HEIGHT && 0 <= x < DISPLAY_WIDTH
    ensures var steps := HandSteps(endX - cx, endY - cy);
      steps > 0 &&
      DrawHandOn(g, cx, cy, angle, handType, endX, endY)[y][x] ==
      if InClip(x, y) && OnLine(cx, cy, endX - cx, endY - cy, steps, steps + 1, x, y)
      then GlyphChar(HandGlyph(angle, handType)) else g[y][x]
    ensures InClip(cx, cy) ==>
      DrawHandOn(g, cx, cy, angle, handType, endX, endY)[cy][cx] == GlyphChar(HandGlyph(angle, handType))
    ensures InClip(endX, endY) ==>
      DrawHandOn(g, cx, cy, angle, handType, endX, endY)[endY][endX] == GlyphChar(HandGlyph(angle, handType))
  {
    var dx, dy := endX - cx, endY - cy;
    HandStepsPositive(dx, dy);
    var steps := HandSteps(dx, dy);
    var c := GlyphChar(HandGlyph(angle, handType));
    StampCells(g, cx, cy, dx, dy, steps, c, steps + 1, y, x);
    HandPointSpan(cx, cy, dx, dy, steps, 0);
    if InClip(cx, cy) {
      StampCells(g, cx, cy, dx, dy, steps, c, steps + 1, cy, cx);
      assert OnLine(cx, cy, dx, dy, steps, steps + 1, cx, cy);
    }
    if InClip(endX, endY) {
      StampCells(g, cx, cy, dx, dy, steps, c, steps + 1, endY, endX);
      assert HandPoint(cx, cy, dx, dy, steps, steps) == (endX, endY);
      assert OnLine(cx, cy, dx, dy, steps, steps + 1, endX, endY);
    }
  }

  /** drawHand: walk i = 0..steps from the centre toward the tip and stamp
      the hand's glyph on each clipped point. `(endX, endY)` stands for the
      result of calculatePoint; it differs from the centre, since with no
      length `steps` would be 0 and the C code would divide by zero. */
  method DrawHand(display: array2<char>, centerX: int, centerY: int, angle: int, handType: char, endX: int, endY: int)
    requires IsDisplay(display) && (endX, endY) != (centerX, centerY)
    modifies display
    ensures Contents(display) == DrawHandOn(old(Contents(display)), centerX, centerY, angle, handType, endX, endY)
  {
    ghost var g0 := Contents(display);
    var dx := endX - centerX;
    var dy := endY - centerY;
    var steps := ISqrt(dx * dx + dy * dy);
    HandStepsPositive(dx, dy);
    ghost var c := GlyphChar(HandGlyph(angle, handType));
    var i := 0;
    while i <= steps
      invariant 0 <= i <= steps + 1
      invariant Contents(display) == StampOn(g0, centerX, centerY, dx, dy, steps, c, i)
    {
      var x := centerX + TruncDiv(dx * i, steps);
      var y := centerY + TruncDiv(dy * i, steps);
      if x >= 0 && x < DISPLAY_WIDTH - 1 && y >= 0 && y < DISPLAY_HEIGHT {
        var glyph := GetHandChar(angle, handType);
        SetCell(display, y, x, GlyphChar(glyph));
      }
      i := i + 1;
    }
  }

  // ---------------------------------------------------------------------
  // The whole face

  /** The frame drawClock builds: blank, rim, labels, hour hand, minute
      hand, second hand, and finally the pivot at the centre. */
  function ClockFace(t: ClockTime, rim: seq<(int, int)>, labels: seq<(int, int)>,
                     hourEnd: (int, int), minuteEnd: (int, int), secondEnd: (int, int)): (r: Grid)
    requires |labels| == 12
    requires hourEnd != (CLOCK_CENTER_X, CLOCK_CENTER_Y)
    requires minuteEnd != (CLOCK_CENTER_X, CLOCK_CENTER_Y)
    requires secondEnd != (CLOCK_CENTER_X, CLOCK_CENTER_Y)
    ensures IsGrid(r)
  {
    var g0 := BlankGrid();
    var g1 := RimOn(g0, rim, |rim|);
    var g2 := LabelsOn(g1, labels, 12);
    var g3 := DrawHandOn(g2, CLOCK_CENTER_X, CLOCK_CENTER_Y, HourAngle(t), 'H', hourEnd.0, hourEnd.1);
    var g4 := DrawHandOn(g3, CLOCK_CENTER_X, CLOCK_CENTER_Y, MinuteAngle(t), 'M', minuteEnd.0, minuteEnd.1);
    var g5 := DrawHandOn(g4, CLOCK_CENTER_X, CLOCK_CENTER_Y, SecondAngle(t), 'S', secondEnd.0, secondEnd.1);
    Put(g5, CLOCK_CENTER_Y, CLOCK_CENTER_X, GlyphChar(Pivot))
  }

  /** Whatever the hands, the centre of the finished face is the pivot. */
  lemma PivotAtCentre(t: ClockTime, rim: seq<(int, int)>, labels: seq<(int, int)>,
                      hourEnd: (int, int), minuteEnd: (int, int), secondEnd: (int, int))
    requires |labels| == 12
    requires hourEnd != (CLOCK_CENTER_X, CLOCK_CENTER_Y)
    requires minuteEnd != (CLOCK_CENTER_X, CLOCK_CENTER_Y)
    requires secondEnd != (CLOCK_CENTER_X, CLOCK_CENTER_Y)
    ensures ClockFace(t, rim, labels, hourEnd, minuteEnd, secondEnd)[CLOCK_CENTER_Y][CLOCK_CENTER_X] == GlyphChar(Pivot)
    ensures GlyphOf(ClockFace(t, rim, labels, hourEnd, minuteEnd, secondEnd)[CLOCK_CENTER_Y][CLOCK_CENTER_X]) == Some(Pivot)
  {
  }

  /** The second hand is drawn last, so every clipped cell of its line other
      than the centre shows the second hand, over the labels, the rim and
      the other two hands. */
  lemma SecondHandOnTop(t: ClockTime, rim: seq<(int, int)>, labels: seq<(int, int)>,
                        hourEnd: (int, int), minuteEnd: (int, int), secondEnd: (int, int))
    requires |labels| == 12
    requires hourEnd != (CLOCK_CENTER_X, CLOCK_CENTER_Y)
    requires minuteEnd != (CLOCK_CENTER_X, CLOCK_CENTER_Y)
    requires secondEnd != (CLOCK_CENTER_X, CLOCK_CENTER_Y)
    ensures var dx, dy := secondEnd.0 - CLOCK_CENTER_X, secondEnd.1 - CLOCK_CENTER_Y;
      var steps := HandSteps(dx, dy);
      steps > 0 &&
      forall i :: 0 <= i <= steps ==>
        var p := HandPoint(CLOCK_CENTER_X, CLOCK_CENTER_Y, dx, dy, steps, i);
        InClip(p.0, p.1) && p != (CLOCK_CENTER_X, CLOCK_CENTER_Y) ==>
          ClockFace(t, rim, labels, hourEnd, minuteEnd, secondEnd)[p.1][p.0] ==
          GlyphChar(HandGlyph(SecondAngle(t), 'S'))
  {
    var dx, dy := secondEnd.0 - CLOCK_CENTER_X, secondEnd.1 - CLOCK_CENTER_Y;
    HandStepsPositive(dx, dy);
    var steps := HandSteps(dx, dy);
    var g0 := BlankGrid();
    var g1 := RimOn(g0, rim, |rim|);
    var g2 := LabelsOn(g1, labels, 12);
    var g3 := DrawHandOn(g2, CLOCK_CENTER_X, CLOCK_CENTER_Y, HourAngle(t), 'H', hourEnd.0, hourEnd.1);
    var g4 := DrawHandOn(g3, CLOCK_CENTER_X, CLOCK_CENTER_Y, MinuteAngle(t), 'M', minuteEnd.0, minuteEnd.1);
    forall i | 0 <= i <= steps
      ensures var p := HandPoint(CLOCK_CENTER_X, CLOCK_CENTER_Y, dx, dy, steps, i);
        InClip(p.0, p.1) && p != (CLOCK_CENTER_X, CLOCK_CENTER_Y) ==>
          ClockFace(t, rim, labels, hourEnd, minuteEnd, secondEnd)[p.1][p.0] ==
          GlyphChar(HandGlyph(SecondAngle(t), 'S'))
    {
      var p := HandPoint(CLOCK_CENTER_X, CLOCK_CENTER_Y, dx, dy, steps, i);
      if InClip(p.0, p.1) {
        DrawHandCells(g4, CLOCK_CENTER_X, CLOCK_CENTER_Y, SecondAngle(t), 'S', secondEnd.0, secondEnd.1, p.1, p.0);
        assert OnLine(CLOCK_CENTER_X, CLOCK_CENTER_Y, dx, dy, steps, steps + 1, p.0, p.1);
      }
    }
  }

  /** Labels leave a row's terminator alone unless one of them starts in
      the second-to-last column, where its second character lands on it. */
  lemma {:induction false} LabelsKeepTerminator(g: Grid, labels: seq<(int, int)>, n: nat, y: int)
    requires IsGrid(g) && n <= |labels| && n <= 12 && 0 <= y < DISPLAY_HEIGHT
    requires forall k :: 0 <= k < n ==> labels[k].0 != DISPLAY_WIDTH - 2
    ensures LabelsOn(g, labels, n)[y][DISPLAY_WIDTH - 1] == g[y][DISPLAY_WIDTH - 1]
  {
    if n > 0 {
      LabelsKeepTerminator(g, labels, n - 1, y);
      PlaceNumberCells(LabelsOn(g, labels, n - 1), labels[n - 1].0, labels[n - 1].1, n, y, DISPLAY_WIDTH - 1);
    }
  }

  /** The rim, the hands and the pivot never reach the last column, so as
      long as no label starts in the column before it, every row of the
      finished face still ends in '\0'. */
  lemma TerminatorsSurvive(t: ClockTime, rim: seq<(int, int)>, labels: seq<(int, int)>,
                           hourEnd: (int, int), minuteEnd: (int, int), secondEnd: (int, int), y: int)
    requires |labels| == 12
    requires hourEnd != (CLOCK_CENTER_X, CLOCK_CENTER_Y)
    requires minuteEnd != (CLOCK_CENTER_X, CLOCK_CENTER_Y)
    requires secondEnd != (CLOCK_CENTER_X, CLOCK_CENTER_Y)
    requires forall k :: 0 <= k < 12 ==> labels[k].0 != DISPLAY_WIDTH - 2
    requires 0 <= y < DISPLAY_HEIGHT
    ensures ClockFace(t, rim, labels, hourEnd, minuteEnd, secondEnd)[y][DISPLAY_WIDTH - 1] == '\0'
  {
    var x := DISPLAY_WIDTH - 1;
    var g0 := BlankGrid();
    var g1 := RimOn(g0, rim, |rim|);
    var g2 := LabelsOn(g1, labels, 12);
    var g3 := DrawHandOn(g2, CLOCK_CENTER_X, CLOCK_CENTER_Y, HourAngle(t), 'H', hourEnd.0, hourEnd.1);
    var g4 := DrawHandOn(g3, CLOCK_CENTER_X, CLOCK_CENTER_Y, MinuteAngle(t), 'M', minuteEnd.0, minuteEnd.1);
    RimCells(g0, rim, |rim|, y, x);
    LabelsKeepTerminator(g1, labels, 12, y);
    DrawHandCells(g2, CLOCK_CENTER_X, CLOCK_CENTER_Y, HourAngle(t), 'H', hourEnd.0, hourEnd.1, y, x);
    DrawHandCells(g3, CLOCK_CENTER_X, CLOCK_CENTER_Y, MinuteAngle(t), 'M', minuteEnd.0, minuteEnd.1, y, x);
    DrawHandCells(g4, CLOCK_CENTER_X, CLOCK_CENTER_Y, SecondAngle(t), 'S', secondEnd.0, secondEnd.1, y, x);
  }

  /** drawClock up to the point where the frame is printed. */
  method DrawClock(t: ClockTime, rim: seq<(int, int)>, labels: seq<(int, int)>,
                   hourEnd: (int, int), minuteEnd: (int, int), secondEnd: (int, int))
    returns (display: array2<char>)
    requires |labels| == 12
    requires hourEnd != (CLOCK_CENTER_X, CLOCK_CENTER_Y)
    requires minuteEnd != (CLOCK_CENTER_X, CLOCK_CENTER_Y)
    requires secondEnd != (CLOCK_CENTER_X, CLOCK_CENTER_Y)
    ensures fresh(display) && IsDisplay(display)
    ensures Contents(display) == ClockFace(t, rim, labels, hourEnd, minuteEnd, secondEnd)
  {
    display := new char[DISPLAY_HEIGHT, DISPLAY_WIDTH];
    InitDisplay(display);
    DrawRim(display, rim);
    PlaceHourLabels(display, labels);
    var hourAngle := HourAngle(t);
    var minuteAngle := MinuteAngle(t);
    var secondAngle := SecondAngle(t);
    DrawHand(display, CLOCK_CENTER_X, CLOCK_CENTER_Y, hourAngle, 'H', hourEnd.0, hourEnd.1);
    DrawHand(display, CLOCK_CENTER_X, CLOCK_CENTER_Y, minuteAngle, 'M', minuteEnd.0, minuteEnd.1);
    DrawHand(display, CLOCK_CENTER_X, CLOCK_CENTER_Y, secondAngle, 'S', secondEnd.0, secondEnd.1);
    SetCell(display, CLOCK_CENTER_Y, CLOCK_CENTER_X, GlyphChar(Pivot));
  }
}
