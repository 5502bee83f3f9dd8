# Analog clock face: a verified model

This project models the integer core of a terminal analog clock written in
C (`AnalogClock.c`). The program reads a start time, then for ever draws a
clock face into a 25 x 82 character buffer and prints it, advances the time
by one second, then sleeps a second.

The model covers:

- the time: the range check on the user's input and the one-second tick
  with its seconds -> minutes -> hours carry (module `TimeOfDay`);
- the hands' angles and the choice of a directional glyph for each hand
  (module `HandGlyphs`);
- the frame buffer and every step that paints it: blanking, the rim, the
  hour labels, the three hands and the centre pivot (module `FrameBuffer`);
- C's truncating `/` and `%` and `(int)sqrt` on small integers (module
  `CArith`).

Angles are integers counted in half-degrees clockwise from twelve o'clock,
so a full turn is 720. For an integer time every hand angle is a whole
number of half-degrees:

- hour hand: `(hours % 12) * 60 + minutes`;
- minute hand: `12 * minutes`;
- second hand: `12 * seconds`.

The bucket bounds 45, 135, 225 and 315 degrees become 90, 270, 450 and 630.

Glyphs are an enumeration (`Glyph`): a hand glyph for each kind and
direction, the rim mark and the pivot. `GlyphChar` maps each one to the
Unicode character the C literal spells.

The buffer is an `array2<char>`. Each painting method is specified by a
function on the buffer's contents, a `seq<seq<char>>`. So the whole frame
is the composition `ClockFace`: blank, rim, labels, hour hand, minute hand,
second hand, then the pivot.

The C code takes some positions from `sin` and `cos`: the rim samples, the
label positions and the hand tips. These positions are inputs to the model.

Three points where the code's integer behaviour is easy to misread:

- At 01:05:30 the hour hand (32.5 degrees) and the minute hand (30
  degrees) are below 45 degrees, so both get the `up` glyph. The second
  hand (180 degrees) gets the horizontal glyph. See
  `HandsAtOneOhFiveThirty`.
- The second normalisation loop tests `angle > 2 * PI`, so a positive whole
  number of turns stays at 2*PI rather than 0. That angle still gets the
  `up` glyph. See `Normalized` and `HandGlyphPeriodic`.
- `(int)sqrt(...)` truncates: `steps` is the floor square root of the
  squared distance (`ISqrt`), not the rounded distance.

## Model

| member | source | states |
|---|---|---|
| `TimeOfDay.ValidateTime` | AnalogClock.c:15-20 | Returns 0 or 1. It returns 1 exactly when 0 <= hours <= 23, 0 <= minutes <= 59 and 0 <= seconds <= 59. |
| `TimeOfDay.Tick` | AnalogClock.c:202-213 | The carry chain as a value, for any ints. A valid time ticks to a valid time. |
| `TimeOfDay.AdvanceClock` | AnalogClock.c:202-213 | The carry chain written step by step on three counters, as `main` does. The result is the time `Tick` gives. |
| `TimeOfDay.TickAddsOneSecond` | AnalogClock.c:202-213 | On a valid time, one tick keeps the time valid. Its seconds since midnight become (h*3600 + m*60 + s + 1) mod 86400. |
| `TimeOfDay.FromSecondsOfDay` | AnalogClock.c:202-213 | For each second of the day there is a valid time that has it: the inverse of seconds since midnight. |
| `TimeOfDay.FromSecondsOfDayInverse` | AnalogClock.c:202-213 | A valid time is determined by its seconds since midnight. |
| `TimeOfDay.TickN` | AnalogClock.c:198-216 | The time after n frames of the main loop. It stays valid when it starts valid. |
| `TimeOfDay.TickNAddsSeconds` | AnalogClock.c:198-213 | n ticks from a valid time add n seconds, modulo 86400. |
| `TimeOfDay.FullDaysWrap` | AnalogClock.c:198-213 | Ticking a valid time any whole number of days (86400 ticks each) returns that time. |
| `TimeOfDay.MidnightWraps` | AnalogClock.c:198-213 | 86400 ticks from 00:00:00 return to 00:00:00. |
| `HandGlyphs.Normalized` | AnalogClock.c:28-29 | The normal form the two loops reach. It lies in [0, 720] and differs from the angle by whole turns. It is 720 only for a positive angle and 0 only for a non-positive one. |
| `HandGlyphs.GetHandChar` | AnalogClock.c:27-54 | getHandChar with its two normalisation loops. It returns the glyph of the hand type's set for the bucket of the normalised angle. An unknown hand type returns the thin vertical bar. |
| `HandGlyphs.HandGlyphPeriodic` | AnalogClock.c:27-54 | Adding a full turn to the angle never changes the glyph of any hand type. |
| `HandGlyphs.GlyphCharDecodes` | AnalogClock.c:31-53 | Every glyph decodes back from its character. No glyph is a blank, a terminator, a digit or a minus sign. |
| `HandGlyphs.GlyphCharInjective` | AnalogClock.c:31-53 | Distinct glyphs (kind, direction, rim, pivot) have distinct Unicode spellings. |
| `HandGlyphs.AnglesWithinTurn` | AnalogClock.c:116-118 | For a valid time, the hour, minute and second angles lie in [0, 720) half-degrees. The normalisation loops leave them unchanged. |
| `HandGlyphs.FieldBucket` | AnalogClock.c:40-51 | For v in 0..59 the bucket of 12*v depends only on v. v <= 7 or v >= 53 gives up, 8..22 the second bucket, 23..37 horizontal, 38..52 the fourth bucket. |
| `HandGlyphs.MinuteSecondGlyphs` | AnalogClock.c:39-51 | For a valid time, the minute hand gets the minute glyph set and the second hand the second glyph set. Each takes the direction its field selects. |
| `HandGlyphs.HandsAtOneOhFiveThirty` | AnalogClock.c:116-118 | At 01:05:30 the hour angle is 65 half-degrees (32.5 degrees) with the hour `up` glyph. The minute hand gets `up` and the second hand gets horizontal. |
| `CArith.TruncDiv` | AnalogClock.c:66-67 | C division: the remainder left over has the dividend's sign and is smaller than the divisor in magnitude. |
| `CArith.TruncRem` | AnalogClock.c:116 | C `%`: dividend = quotient * divisor + remainder, and the remainder has the dividend's sign. |
| `CArith.TruncDivNegate` | AnalogClock.c:66-67 | Truncating division is odd in the dividend: a hand pointing left or up is the mirror of one pointing right or down. |
| `CArith.ISqrt` | AnalogClock.c:63 | `(int)sqrt(n)`: the r with r*r <= n < (r+1)*(r+1). |
| `CArith.ISqrtOfSquare` | AnalogClock.c:63 | On a perfect square k*k, steps is exactly k. |
| `CArith.ScaledWithin` | AnalogClock.c:66-67 | For 0 <= i <= steps, `d * i / steps` lies between 0 and d. |
| `CArith.TruncDivExact` | AnalogClock.c:66-67 | `d * steps / steps == d`, for negative d as well. |
| `FrameBuffer.InitDisplay` | AnalogClock.c:91-96 | The nested loops leave the buffer equal to the blank grid: blanks, with '\0' in the last column. |
| `FrameBuffer.BlankGridCells` | AnalogClock.c:91-96 | In the blank grid, columns 0..80 hold ' ' and column 81 holds '\0'. |
| `FrameBuffer.FormatNumber` | AnalogClock.c:80-81 | "%2d" renders -9..99 (the numbers that fit the three-byte buffer) in exactly two characters. |
| `FrameBuffer.FormatNumberRoundTrip` | AnalogClock.c:80-83 | The two characters read back as the number. The second is always a digit. The first is a blank exactly for 0..9, a minus sign exactly for -9..-1 and a digit exactly for 10..99. |
| `FrameBuffer.LabelTexts` | AnalogClock.c:81 | Hour 3 renders as " 3" and hour 12 as "12". |
| `FrameBuffer.PlaceNumberCells` | AnalogClock.c:78-85 | When (x, y) passes the clip test, cell (y, x) gets the first character and (y, x+1) the second. No other cell changes. When it fails, the grid is unchanged, whatever the number. |
| `FrameBuffer.PlaceNumber` | AnalogClock.c:78-85 | The buffer afterwards equals the grid placeNumber produces from its contents before. |
| `FrameBuffer.PlaceHourLabels` | AnalogClock.c:108-113 | Labels 1..12 are placed in order at their positions, each with placeNumber's clipping. |
| `FrameBuffer.LabelsKeepTerminator` | AnalogClock.c:79-83 | A row's last cell survives the labels unless a label starts in column 80. |
| `FrameBuffer.RimCells` | AnalogClock.c:99-105 | A cell holds the rim mark exactly when some sample lands on it inside the clip area. Every other cell keeps its value. |
| `FrameBuffer.DrawRim` | AnalogClock.c:99-105 | The buffer afterwards is its contents before with every clipped sample marked. |
| `FrameBuffer.HandStepsPositive` | AnalogClock.c:61-63 | A hand whose tip differs from the centre has at least one step. |
| `FrameBuffer.HandPointSpan` | AnalogClock.c:61-67 | Point 0 is the centre and point `steps` is the tip. Every point lies in the rectangle spanned by the two. |
| `FrameBuffer.StampCells` | AnalogClock.c:65-71 | After the first n points, a cell holds the glyph exactly when one of them lands on it inside the clip area. Every other cell keeps its value. |
| `FrameBuffer.DrawHandCells` | AnalogClock.c:56-72 | drawHand writes only clipped cells on its points i = 0..steps, all with the one glyph getHandChar gives. The centre and the tip each get it when they pass the clip test. |
| `FrameBuffer.DrawHand` | AnalogClock.c:56-72 | The loop over i = 0..steps leaves the buffer equal to the drawHand grid of its contents before. |
| `FrameBuffer.PivotAtCentre` | AnalogClock.c:131 | Whatever the time and the hand tips, the centre cell of the finished face holds the pivot. |
| `FrameBuffer.SecondHandOnTop` | AnalogClock.c:122-131 | Every point i = 0..steps of the second hand that passes the clip test and is not the centre shows the second-hand glyph on the finished face. The second hand is drawn last and overwrites labels, rim and the other hands. |
| `FrameBuffer.TerminatorsSurvive` | AnalogClock.c:91-131 | If no label starts in column 80, every row of the finished face still ends in '\0'. Rim, hands and pivot never reach the last column. |
| `FrameBuffer.DrawClock` | AnalogClock.c:87-131 | Allocates the buffer and returns it equal to `ClockFace`: blank, rim, labels, hour hand, minute hand, second hand, pivot. The frame depends only on its inputs, so two calls with equal inputs give equal grids. |

## Left out

- `calculatePoint` (AnalogClock.c:22-25) uses `sin` and `cos` on doubles. The hand tips, the rim samples and the label positions are inputs.
- The rim loop steps a double angle by 0.1 (AnalogClock.c:99). How many samples it takes is floating-point behaviour, so the samples are a sequence given to `DrawRim`.
- GetHandChar: compares exact half-degrees. The C code compares doubles, such as `45*PI/180` against `PI/4`. For the hour hand at h:30 with h % 12 in {1, 4, 7, 10} the angle sits exactly on a bucket bound. There the compiled program's choice depends on rounding, so no lemma claims a glyph for those four instants. The minute and second angles are never on a bound.
- GlyphChar: gives the Unicode character each literal spells. In C, `'┃'` and the other glyphs are multi-character constants, and their `char` values are implementation-defined.
- GlyphCharInjective: holds for the Unicode spellings only. GCC and MinGW reduce a multi-character constant to its last byte when it is stored in a `char`. '░' (E2 96 91) and '║' (E2 95 91) both end in 0x91, so on the real face the rim mark and the minute hand's `up` glyph are the same char.
- DrawHand: takes the hand's tip in place of its radius. The tip replaces `calculatePoint`'s use of the angle and the radius. The angle is still a parameter and still picks the glyph through `GetHandChar`.
- DrawHand: requires a tip different from the centre. Otherwise `steps` is 0 and the C code divides by zero. With the radii 4, 7 and 9 that `drawClock` uses, the tip always differs from the centre.
- PlaceNumber: requires -9 <= number <= 99 only when (x, y) passes the clip test. There any other number overflows `numStr[3]`. A clipped call accepts any number and changes nothing. `drawClock` passes 1..12.
- TickN: ints are unbounded, so `seconds++` never wraps. On valid times no counter exceeds 60.
- Printing is not modelled: the border, the rows, the legend and `printf("\033[H")` (AnalogClock.c:134-157).
- `clearScreen` and `system("cls")` (AnalogClock.c:74-76) are not modelled.
- The input prompts and `scanf` re-prompting loop (AnalogClock.c:166-194) are not modelled. Only `ValidateTime` is modelled.
- `SetConsoleOutputCP` and the cursor escape codes are not modelled.
- `Sleep(1000)` is not modelled. The non-terminating `while (1)` loop appears only as `TickN`, a count of frames.
