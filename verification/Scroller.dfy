/**
  The scroller widget: which part of a text that is too long shows at a tick.
 */
module Scroller {
  import opened Common

  // ----- the wave ---------------------------------------------------------------------------------------

  /** Division and remainder of C. */
  function Quotient(a: int, b: int): int
    requires b != 0
  {
    if a >= 0 then (if b > 0 then a / b else -(a / -b)) else if b > 0 then -(-a / b) else -a / -b
  }

  function Remainder(a: int, b: int): int
    requires b != 0
  {
    a - b * Quotient(a, b)
  }

  /** The position as the renderer computes it, for speed ticks a position. */
  function Position(timer: nat, extent: nat, speed: nat): int
    requires extent > 0 && speed > 0
  {
    if Remainder(Quotient(timer, extent * speed), 2) == 0 then
      Quotient(Remainder(timer, extent * speed), speed)
    else
      Quotient(Remainder(timer, extent * speed) - extent * speed + 1, speed) * -1
  }

  /** The same for a negative speed, in positions a tick. */
  function FastPosition(timer: nat, extent: nat, pace: nat): int
    requires 0 < pace <= extent
  {
    if Remainder(Quotient(timer, Quotient(extent, pace)), 2) == 0 then
      Remainder(timer, Quotient(extent, pace)) * pace
    else
      (Remainder(timer, Quotient(extent, pace)) * pace - extent + 1) * -1
  }

  /** There and back again over positions 0 to extent - 1, staying two steps at either end. */
  function Triangle(step: nat, extent: nat): nat
    requires extent > 0
  {
    var k := step % (2 * extent);
    if k < extent then k else 2 * extent - 1 - k
  }

  /** Splitting a tick into passes, steps and ticks in a step. */
  lemma TickParts(timer: nat, extent: nat, speed: nat)
    requires extent > 0 && speed > 0
    ensures extent * speed > 0
    ensures var p := timer / (extent * speed);
      var r := timer % (extent * speed);
      && timer / speed == p * extent + r / speed && 0 <= r / speed < extent
      && (extent * speed - 1 - r) / speed == extent - 1 - r / speed
  {
    var n := extent * speed;
    assert n > 0 by { PositiveProduct(extent, speed); }
    var p, r := timer / n, timer % n;
    var k, t := r / speed, r % speed;
    assert timer == p * n + r;
    assert r == k * speed + t;
    assert timer == (p * extent + k) * speed + t by {
      calc {
        timer;
        p * (extent * speed) + k * speed + t;
        == { Distribute(p, extent, k, speed); }
        (p * extent + k) * speed + t;
      }
    }
    QuotientIs(timer, speed, p * extent + k, t);
    assert k < extent by {
      if k >= extent {
        Monotone(extent, k, speed);
        assert false;
      }
    }
    assert n - 1 - r == (extent - 1 - k) * speed + (speed - 1 - t) by {
      Distribute(1, extent - 1 - k, 0, speed);
      assert (extent - 1 - k) * speed == extent * speed - speed - k * speed;
    }
    QuotientIs(n - 1 - r, speed, extent - 1 - k, speed - 1 - t);
  }

  lemma PositiveProduct(a: nat, b: nat)
    requires a > 0 && b > 0
    ensures a * b > 0
  {
  }

  lemma Distribute(p: int, a: int, k: int, b: int)
    ensures p * (a * b) + k * b == (p * a + k) * b
  {
  }

  lemma Monotone(a: int, b: int, c: nat)
    requires a <= b
    ensures a * c <= b * c
  {
  }

  lemma QuotientIs(x: nat, d: nat, q: int, r: nat)
    requires d > 0 && x == q * d + r && r < d
    ensures x / d == q && x % d == r
  {
    var q1, r1 := x / d, x % d;
    assert x == q1 * d + r1;
    if q1 > q {
      Monotone(q + 1, q1, d);
    } else if q1 < q {
      Monotone(q1 + 1, q, d);
    }
  }

  lemma DivisionOfNats(a: int, b: int)
    requires a >= 0 && b > 0
    ensures Quotient(a, b) == a / b && Remainder(a, b) == a % b && Quotient(-a, b) == -(a / b)
  {
    assert a == b * (a / b) + a % b;
    if a == 0 {
      QuotientIs(0, b, 0, 0);
    }
  }

  /** The computed position is the triangle wave of the steps done. */
  lemma PositionIsTriangle(timer: nat, extent: nat, speed: nat)
    requires extent > 0 && speed > 0
    ensures Position(timer, extent, speed) == Triangle(timer / speed, extent)
  {
    hide Quotient;
    hide Remainder;
    hide Triangle;
    TickParts(timer, extent, speed);
    var n := extent * speed;
    var p, r := timer / n, timer % n;
    PassIs(p, r / speed, extent);
    DivisionOfNats(timer, n);
    DivisionOfNats(p, 2);
    DivisionOfNats(r, speed);
    DivisionOfNats(n - 1 - r, speed);
    assert r - n + 1 == -(n - 1 - r);
  }

  lemma PassIs(p: nat, k: nat, extent: nat)
    requires k < extent
    ensures Triangle(p * extent + k, extent) == if p % 2 == 0 then k else extent - 1 - k
  {
    var step := p * extent + k;
    var h := p / 2;
    if p % 2 == 0 {
      assert step == h * (2 * extent) + k by { Halves(p, h, 0, extent); }
      QuotientIs(step, 2 * extent, h, k);
    } else {
      assert step == h * (2 * extent) + (extent + k) by { Halves(p, h, 1, extent); }
      QuotientIs(step, 2 * extent, h, extent + k);
    }
  }

  lemma Halves(p: nat, h: nat, b: nat, extent: nat)
    requires p == 2 * h + b
    ensures p * extent == h * (2 * extent) + b * extent
  {
  }

  // ----- what the wave does -------------------------------------------------------------------------------

  lemma LaterTick(timer: nat, speed: nat, steps: nat)
    requires speed > 0
    ensures (timer + steps * speed) / speed == timer / speed + steps
  {
    var q, t := timer / speed, timer % speed;
    assert timer + steps * speed == (q + steps) * speed + t;
    QuotientIs(timer + steps * speed, speed, q + steps, t);
  }

  lemma NextTick(timer: nat, speed: nat)
    requires speed > 0
    ensures (timer + 1) / speed == timer / speed || (timer + 1) / speed == timer / speed + 1
  {
    var step, t := timer / speed, timer % speed;
    if t + 1 < speed {
      QuotientIs(timer + 1, speed, step, t + 1);
    } else {
      QuotientIs(timer + 1, speed, step + 1, 0);
    }
  }

  /** The position stays in range, moves by at most one a tick, and repeats after two passes. */
  lemma PositionIsWave(timer: nat, extent: nat, speed: nat)
    requires extent > 0 && speed > 0
    ensures 0 <= Position(timer, extent, speed) < extent
    ensures -1 <= Position(timer + 1, extent, speed) - Position(timer, extent, speed) <= 1
    ensures Position(timer + 2 * extent * speed, extent, speed) == Position(timer, extent, speed)
  {
    hide Position;
    hide Triangle;
    PositionIsTriangle(timer, extent, speed);
    PositionIsTriangle(timer + 1, extent, speed);
    NextTick(timer, speed);
    TriangleStep(timer / speed, extent);
    TriangleInRange(timer / speed, extent);
    PositionRepeats(timer, extent, speed, 2 * extent);
  }

  lemma PositionRepeats(timer: nat, extent: nat, speed: nat, period: nat)
    requires extent > 0 && speed > 0 && period == 2 * extent
    ensures period * speed >= 0 && Position(timer + period * speed, extent, speed) == Position(timer, extent, speed)
  {
    hide Position;
    hide Triangle;
    PositiveProduct(period, speed);
    PositionIsTriangle(timer, extent, speed);
    PositionIsTriangle(timer + period * speed, extent, speed);
    LaterTick(timer, speed, period);
    TrianglePeriod(timer / speed, extent);
  }

  lemma TriangleInRange(step: nat, extent: nat)
    requires extent > 0
    ensures Triangle(step, extent) < extent
  {
  }

  lemma TriangleStep(step: nat, extent: nat)
    requires extent > 0
    ensures -1 <= Triangle(step + 1, extent) - Triangle(step, extent) <= 1
  {
    var m := 2 * extent;
    var k := step % m;
    if k + 1 < m {
      QuotientIs(step + 1, m, step / m, k + 1);
    } else {
      QuotientIs(step + 1, m, step / m + 1, 0);
    }
  }

  lemma TrianglePeriod(step: nat, extent: nat)
    requires extent > 0
    ensures Triangle(step + 2 * extent, extent) == Triangle(step, extent)
  {
    var m := 2 * extent;
    QuotientIs(step + m, m, step / m + 1, step % m);
  }

  /** The steps from one step to the next at which the wave is at a position. */
  function Ahead(step: nat, extent: nat, wanted: nat): nat
    requires wanted < extent
  {
    var k := step % (2 * extent);
    if wanted >= k then wanted - k else 2 * extent + wanted - k
  }

  lemma TriangleReaches(step: nat, extent: nat, wanted: nat)
    requires wanted < extent
    ensures Ahead(step, extent, wanted) < 2 * extent
    ensures Triangle(step + Ahead(step, extent, wanted), extent) == wanted
  {
    var m := 2 * extent;
    if wanted >= step % m {
      QuotientIs(step + Ahead(step, extent, wanted), m, step / m, wanted);
    } else {
      QuotientIs(step + Ahead(step, extent, wanted), m, step / m + 1, wanted);
    }
  }

  /** Within one period from any tick on, every position shows. */
  lemma EveryPositionShows(timer: nat, extent: nat, speed: nat, wanted: nat) returns (tick: nat)
    requires extent > 0 && speed > 0 && wanted < extent
    ensures timer <= tick < timer + 2 * extent * speed
    ensures Position(tick, extent, speed) == wanted
  {
    var ahead := Ahead(timer / speed, extent, wanted);
    TriangleReaches(timer / speed, extent, wanted);
    ProductGrows(ahead, 2 * extent, speed);
    tick := timer + ahead * speed;
    LaterTick(timer, speed, ahead);
    PositionIsTriangle(tick, extent, speed);
  }

  lemma ProductGrows(a: nat, b: nat, c: nat)
    requires a < b && c > 0
    ensures 0 <= a * c < b * c
  {
    Monotone(a + 1, b, c);
    assert (a + 1) * c == a * c + c;
  }

  /** With a negative speed the position stays in range too. */
  lemma FastPositionInRange(timer: nat, extent: nat, pace: nat)
    requires 0 < pace <= extent
    ensures 0 <= FastPosition(timer, extent, pace) < extent
  {
    var passes := extent / pace;
    PassesFit(extent, pace);
    var r := timer % passes;
    assert Remainder(timer, passes) == r;
    ProductGrows(r, passes, pace);
  }

  lemma PassesFit(extent: nat, pace: nat)
    requires 0 < pace <= extent
    ensures extent / pace >= 1 && (extent / pace) * pace <= extent
  {
    assert extent == (extent / pace) * pace + extent % pace;
  }

  // ----- drawing --------------------------------------------------------------------------------------------

  const BUFSIZE := 1024

  /** A string sent to the driver, with the place of its first character. */
  datatype Drawn = Drawn(x: int, y: int, text: string)

  datatype Direction = Marquee | Horizontal | Vertical

  function Width(left: int, right: int): (w: nat)
    requires left <= right
    ensures 0 < w < BUFSIZE
  {
    if right - left + 1 < BUFSIZE then right - left + 1 else BUFSIZE - 1
  }

  /** The position of a scroller over extent positions; a negative speed must leave at least one tick a pass. */
  function Offset(timer: nat, extent: nat, speed: int): (o: nat)
    requires extent > 0 && -speed <= extent
    ensures o < extent
  {
    if speed > 0 then (PositionIsWave(timer, extent, speed); Position(timer, extent, speed))
    else if speed < 0 then (FastPositionInRange(timer, extent, -speed); FastPosition(timer, extent, -speed))
    else 0
  }

  function MarqueeOffset(timer: nat, length: nat, speed: int): (o: nat)
    requires length > 0 && -speed <= length
    ensures o < length
  {
    if speed > 0 then
      TickParts(timer, length, speed);
      (timer % (length * speed)) / speed
    else if speed < 0 then
      PassesFit(length, -speed);
      ProductGrows(timer % (length / -speed), length / -speed, -speed);
      (timer % (length / -speed)) * -speed
    else 0
  }

  function Lines(length: nat, width: nat): nat
    requires width > 0
  {
    length / width + if length % width != 0 then 1 else 0
  }

  /** Row i of a text broken at the width. */
  function Row(text: string, width: nat, i: nat): string
    requires i * width <= |text|
  {
    Prefix(text[i * width..], width)
  }

  /** What a scroller shows. */
  function Shown(text: string, dir: Direction, left: int, top: int, right: int, bottom: int, speed: int, timer: nat)
    : seq<Drawn>
    requires left <= right && Runs(text, dir, left, top, right, bottom, speed)
  {
    var width := Width(left, right);
    match dir
    case Marquee => [Drawn(left, top, MarqueeText(text, width, speed, timer))]
    case Horizontal => [Drawn(left, top, HorizontalText(text, width, speed, timer))]
    case Vertical =>
      if |text| <= width then [Drawn(left, top, text)]
      else VerticalRows(text, width, left, top, bottom - top + 1, speed, timer)
  }

  /** A window on the text written twice. */
  function MarqueeText(text: string, width: nat, speed: int, timer: nat): string
    requires |text| > width ==> -speed <= |text|
  {
    if |text| <= width then text
    else
      var o := MarqueeOffset(timer, |text|, speed);
      (text + text)[o..o + width]
  }

  function HorizontalText(text: string, width: nat, speed: int, timer: nat): string
    requires |text| + 1 > width ==> -speed <= |text| + 1 - width
  {
    if |text| + 1 <= width then text
    else
      var o := Offset(timer, |text| + 1 - width, speed);
      text[o..o + width]
  }

  function VerticalRows(text: string, width: nat, left: int, top: int, rows: int, speed: int, timer: nat): seq<Drawn>
    requires width > 0
    requires Lines(|text|, width) > rows ==> -speed <= Lines(|text|, width) - rows + 1
  {
    var lines := Lines(|text|, width);
    if lines <= rows then Rows(text, width, left, top, 0, lines)
    else if rows <= 0 then []
    else Rows(text, width, left, top, Offset(timer, lines - rows + 1, speed), rows)
  }

  /** A negative speed is at most the extent: the program divides by the ticks of a pass. */
  predicate Runs(text: string, dir: Direction, left: int, top: int, right: int, bottom: int, speed: int)
    requires left <= right
  {
    var width := Width(left, right);
    match dir
    case Marquee => |text| > width ==> -speed <= |text|
    case Horizontal => |text| + 1 > width ==> -speed <= |text| + 1 - width
    case Vertical => -speed <= Lines(|text|, width) - (bottom - top + 1) + 1 || Lines(|text|, width) <= bottom - top + 1
  }

  /** n rows from row o on, one below the other. */
  function Rows(text: string, width: nat, left: int, top: int, o: nat, n: nat): seq<Drawn>
    requires width > 0 && o + n <= Lines(|text|, width)
  {
    if n == 0 then []
    else
      RowStarts(text, width, o + n - 1);
      Rows(text, width, left, top, o, n - 1) + [Drawn(left, top + n - 1, Row(text, width, o + n - 1))]
  }

  lemma RowStarts(text: string, width: nat, i: nat)
    requires width > 0 && i < Lines(|text|, width)
    ensures i * width < |text|
  {
    var q, r := |text| / width, |text| % width;
    assert |text| == q * width + r;
    Monotone(i, q, width);
    if r == 0 {
      ProductGrows(i, q, width);
    }
  }

  /** The rows one after the other are the text. */
  function Joined(text: string, width: nat, n: nat): string
    requires width > 0 && n <= Lines(|text|, width)
  {
    if n == 0 then ""
    else
      RowStarts(text, width, n - 1);
      Joined(text, width, n - 1) + Row(text, width, n - 1)
  }

  lemma {:induction false} JoinedIsPrefix(text: string, width: nat, n: nat)
    requires width > 0 && n <= Lines(|text|, width)
    ensures Joined(text, width, n) == Prefix(text, n * width)
  {
    if n > 0 {
      RowStarts(text, width, n - 1);
      JoinedIsPrefix(text, width, n - 1);
      assert n * width == (n - 1) * width + width;
      PrefixGrows(text, (n - 1) * width, width);
    }
  }

  lemma PrefixGrows(text: string, a: nat, b: nat)
    requires a <= |text|
    ensures Prefix(text, a) + Prefix(text[a..], b) == Prefix(text, a + b)
  {
  }

  lemma RowsAreText(text: string, width: nat)
    requires width > 0
    ensures Joined(text, width, Lines(|text|, width)) == text
  {
    hide Joined;
    hide Lines;
    JoinedIsPrefix(text, width, Lines(|text|, width));
    LinesCover(|text|, width);
  }

  lemma LinesCover(length: nat, width: nat)
    requires width > 0
    ensures Lines(length, width) * width >= length
  {
    var q, r := length / width, length % width;
    assert length == q * width + r;
    assert (q + 1) * width == q * width + width;
  }

  /** The renderer's own way of cutting: strncpy from the offset, and for a marquee strncat from the start. */
  method DrawScroller(text: string, dir: Direction, left: int, top: int, right: int, bottom: int, speed: int,
    timer: nat)
    returns (drawn: seq<Drawn>)
    requires left <= right && Runs(text, dir, left, top, right, bottom, speed)
    ensures drawn == Shown(text, dir, left, top, right, bottom, speed, timer)
  {
    hide MarqueeText;
    hide HorizontalText;
    hide VerticalRows;
    hide Lines;
    var width := Width(left, right);
    match dir
    case Marquee =>
      var str := DrawMarquee(text, width, speed, timer);
      drawn := [Drawn(left, top, str)];
    case Horizontal =>
      var str := DrawHorizontal(text, width, speed, timer);
      drawn := [Drawn(left, top, str)];
    case Vertical =>
      if |text| <= width {
        drawn := [Drawn(left, top, text)];
      } else {
        drawn := DrawVertical(text, width, left, top, bottom - top + 1, speed, timer);
      }
  }

  method DrawMarquee(text: string, width: nat, speed: int, timer: nat) returns (str: string)
    requires |text| > width ==> -speed <= |text|
    ensures str == MarqueeText(text, width, speed, timer)
  {
    if |text| <= width {
      return text;
    }
    var offset := MarqueeOffset(timer, |text|, speed);
    var room := width - (|text| - offset);
    str := Prefix(text[offset..], width);
    if room > 0 {
      str := str + Prefix(text, room);
    }
    WindowIs(text, offset, width);
  }

  method DrawHorizontal(text: string, width: nat, speed: int, timer: nat) returns (str: string)
    requires |text| + 1 > width ==> -speed <= |text| + 1 - width
    ensures str == HorizontalText(text, width, speed, timer)
  {
    if |text| + 1 <= width {
      return text;
    }
    var offset := Offset(timer, |text| + 1 - width, speed);
    str := Prefix(text[offset..], width);
    assert text[offset..][..width] == text[offset..offset + width];
  }

  method DrawVertical(text: string, width: nat, left: int, top: int, rows: int, speed: int, timer: nat)
    returns (drawn: seq<Drawn>)
    requires width > 0
    requires Lines(|text|, width) > rows ==> -speed <= Lines(|text|, width) - rows + 1
    ensures drawn == VerticalRows(text, width, left, top, rows, speed, timer)
  {
    var lines := Lines(|text|, width);
    if lines <= rows {
      drawn := DrawRows(text, width, left, top, 0, lines);
    } else {
      var begin := Offset(timer, lines - rows + 1, speed);
      drawn := DrawRows(text, width, left, top, begin, begin + rows);
    }
  }

  method DrawRows(text: string, width: nat, left: int, top: int, begin: nat, end: int) returns (drawn: seq<Drawn>)
    requires width > 0 && (begin < end ==> end <= Lines(|text|, width))
    ensures begin >= end ==> drawn == []
    ensures begin < end ==> drawn == Rows(text, width, left, top, begin, end - begin)
  {
    hide Lines;
    hide Rows;
    drawn := [];
    var i := begin;
    if begin < end {
      NoRows(text, width, left, top, begin);
    }
    while i < end
      invariant begin <= i && (i <= end || i == begin)
      invariant begin < end ==> drawn == Rows(text, width, left, top, begin, i - begin)
      invariant begin >= end ==> drawn == []
    {
      NextRow(text, width, left, top, begin, i - begin);
      drawn := drawn + [Drawn(left, top + (i - begin), Prefix(text[i * width..], width))];
      i := i + 1;
    }
  }

  lemma NoRows(text: string, width: nat, left: int, top: int, o: nat)
    requires width > 0 && o <= Lines(|text|, width)
    ensures Rows(text, width, left, top, o, 0) == []
  {
  }

  lemma NextRow(text: string, width: nat, left: int, top: int, o: nat, n: nat)
    requires width > 0 && o + n + 1 <= Lines(|text|, width)
    ensures (o + n) * width <= |text|
    ensures Rows(text, width, left, top, o, n + 1) ==
      Rows(text, width, left, top, o, n) + [Drawn(left, top + n, Prefix(text[(o + n) * width..], width))]
  {
    hide Lines;
    RowStarts(text, width, o + n);
  }

  /** Cutting and wrapping gives the window of the text written twice. */
  lemma WindowIs(text: string, o: nat, width: nat)
    requires o < |text| && width < |text|
    ensures (text + text)[o..o + width] ==
      Prefix(text[o..], width) + if o + width > |text| then Prefix(text, o + width - |text|) else ""
  {
  }

  // ----- what a scroller shows at a tick --------------------------------------------------------------------

  /** The steps of a marquee: one every speed ticks, or with a negative speed so many a tick until it starts afresh. */
  function MarqueeSteps(timer: nat, length: nat, speed: int): nat
    requires length > 0 && -speed <= length
  {
    if speed > 0 then timer / speed
    else if speed < 0 then PassesFit(length, -speed); timer % (length / -speed) * -speed
    else 0
  }

  /** A marquee shows, width characters long, the text that goes round and round. */
  lemma MarqueeGoesRound(text: string, left: int, top: int, right: int, bottom: int, speed: int, timer: nat, k: nat)
    requires left <= right && |text| > Width(left, right) && -speed <= |text| && k < Width(left, right)
    ensures var shown := Shown(text, Marquee, left, top, right, bottom, speed, timer);
      && |shown| == 1 && shown[0].x == left && shown[0].y == top && |shown[0].text| == Width(left, right)
      && shown[0].text[k] == text[(MarqueeSteps(timer, |text|, speed) + k) % |text|]
  {
    hide MarqueeOffset;
    var n, o := |text|, MarqueeOffset(timer, |text|, speed);
    MarqueeStep(timer, n, speed);
    assert (text + text)[o..o + Width(left, right)][k] == (text + text)[o + k];
    RoundTheText(MarqueeSteps(timer, n, speed), k, n);
  }

  lemma MarqueeStep(timer: nat, length: nat, speed: int)
    requires length > 0 && -speed <= length
    ensures MarqueeOffset(timer, length, speed) == MarqueeSteps(timer, length, speed) % length
  {
    if speed > 0 {
      TickParts(timer, length, speed);
      QuotientIs(timer / speed, length, timer / (length * speed), (timer % (length * speed)) / speed);
    } else {
      var o := MarqueeOffset(timer, length, speed);
      QuotientIs(o, length, 0, o);
    }
  }

  lemma RoundTheText(a: nat, k: nat, n: nat)
    requires k < n
    ensures (a + k) % n == if a % n + k < n then a % n + k else a % n + k - n
  {
    var q, r := a / n, a % n;
    assert a == q * n + r;
    if r + k < n {
      QuotientIs(a + k, n, q, r + k);
    } else {
      assert (q + 1) * n == q * n + n;
      QuotientIs(a + k, n, q + 1, r + k - n);
    }
  }

  /** There and back, a step every speed ticks; with a negative speed so many steps a tick; with none at rest. */
  function Swing(timer: nat, extent: nat, speed: int): int
    requires extent > 0 && -speed <= extent
  {
    if speed > 0 then Triangle(timer / speed, extent)
    else if speed < 0 then FastPosition(timer, extent, -speed) else 0
  }

  lemma OffsetSwings(timer: nat, extent: nat, speed: int)
    requires extent > 0 && -speed <= extent
    ensures Offset(timer, extent, speed) == Swing(timer, extent, speed)
    ensures 0 <= Swing(timer, extent, speed) < extent
  {
    hide Position;
    hide Triangle;
    hide FastPosition;
    if speed > 0 {
      PositionIsTriangle(timer, extent, speed);
    }
  }

  /** A horizontal scroller shows a part of the text that swings. */
  lemma HorizontalGoesBack(text: string, left: int, top: int, right: int, bottom: int, speed: int, timer: nat)
    requires left <= right && |text| >= Width(left, right) && -speed <= |text| + 1 - Width(left, right)
    ensures var width := Width(left, right);
      var o := Swing(timer, |text| + 1 - width, speed);
      0 <= o <= o + width <= |text| &&
      Shown(text, Horizontal, left, top, right, bottom, speed, timer) == [Drawn(left, top, text[o..o + width])]
  {
    hide Swing;
    hide Offset;
    OffsetSwings(timer, |text| + 1 - Width(left, right), speed);
  }

  /** A vertical scroller breaks the text into rows and shows as many as fit, swinging over the rest. */
  lemma VerticalGoesBack(
      text: string, left: int, top: int, right: int, bottom: int, speed: int, timer: nat, k: nat)
    requires left <= right && |text| > Width(left, right) && k < Lines(|text|, Width(left, right))
    requires top + k <= bottom && Runs(text, Vertical, left, top, right, bottom, speed)
    ensures var width, rows := Width(left, right), bottom - top + 1;
      var lines := Lines(|text|, width);
      var o := if lines <= rows then 0 else Swing(timer, lines - rows + 1, speed);
      var shown := Shown(text, Vertical, left, top, right, bottom, speed, timer);
      && |shown| == Min(lines, rows) && 0 <= (o + k) * width <= |text|
      && shown[k] == Drawn(left, top + k, Prefix(text[(o + k) * width..], width))
  {
    hide Swing;
    hide Offset;
    hide Rows;
    hide Lines;
    var width, rows := Width(left, right), bottom - top + 1;
    var lines := Lines(|text|, width);
    if lines <= rows {
      RowsAt(text, width, left, top, 0, lines, k);
    } else {
      var extent := lines - rows + 1;
      OffsetSwings(timer, extent, speed);
      RowsAt(text, width, left, top, Swing(timer, extent, speed), rows, k);
    }
  }

  /** A text that fits is shown as it is, and with speed 0 a longer one stands still on its beginning. */
  lemma ScrollerStands(text: string, dir: Direction, left: int, top: int, right: int, bottom: int, speed: int,
    timer: nat)
    requires left <= right && Runs(text, dir, left, top, right, bottom, speed)
    ensures Width(left, right) == if right - left + 1 <= 1023 then right - left + 1 else 1023
    ensures |text| < Width(left, right) ==>
      Shown(text, dir, left, top, right, bottom, speed, timer) == [Drawn(left, top, text)]
    ensures |text| > Width(left, right) && speed == 0 && dir != Vertical ==>
      Shown(text, dir, left, top, right, bottom, speed, timer) == [Drawn(left, top, text[..Width(left, right)])]
  {
    var width := Width(left, right);
    assert |text| > width ==> (text + text)[0..width] == text[..width];
  }

  lemma FastPositionIs(timer: nat, extent: nat, pace: nat)
    requires 0 < pace <= extent
    ensures var n := extent / pace;
      n > 0 && FastPosition(timer, extent, pace) ==
        if (timer / n) % 2 == 0 then timer % n * pace else extent - 1 - timer % n * pace
  {
    hide Quotient;
    hide Remainder;
    PassesFit(extent, pace);
    var n := extent / pace;
    DivisionOfNats(extent, pace);
    DivisionOfNats(timer, n);
    DivisionOfNats(timer / n, 2);
    Negated(timer % n * pace, extent);
  }

  lemma Negated(a: int, extent: int)
    ensures (a - extent + 1) * -1 == extent - 1 - a
  {
  }

  /** With a negative speed a pass takes extent / pace ticks, and the next one is its mirror image. */
  lemma FastPassIsMirrored(timer: nat, extent: nat, pace: nat)
    requires 0 < pace <= extent
    ensures var n := extent / pace;
      && n > 0 && (timer < n ==> FastPosition(timer, extent, pace) == timer * pace)
      && FastPosition(timer + n, extent, pace) == extent - 1 - FastPosition(timer, extent, pace)
  {
    hide FastPosition;
    PassesFit(extent, pace);
    var n := extent / pace;
    FastPositionIs(timer, extent, pace);
    FastPositionIs(timer + n, extent, pace);
    QuotientIs(timer + n, n, timer / n + 1, timer % n);
    if timer < n {
      QuotientIs(timer, n, 0, timer);
    }
    OddIsNext(timer / n);
  }

  lemma OddIsNext(k: nat)
    ensures (k + 1) % 2 == 0 <==> k % 2 != 0
  {
  }

  // ----- nothing stays hidden -----------------------------------------------------------------------------

  /** Every character of a horizontal scroller shows at some tick of every period. */
  lemma EveryCharacterShows(text: string, width: nat, speed: nat, timer: nat, i: nat) returns (tick: nat, o: nat)
    requires 0 < width < |text| + 1 && speed > 0 && i < |text|
    ensures timer <= tick < timer + 2 * (|text| + 1 - width) * speed
    ensures o <= i < o + width <= |text| && HorizontalText(text, width, speed, tick) == text[o..o + width]
  {
    var extent := |text| + 1 - width;
    o := if i < extent then i else extent - 1;
    tick := EveryPositionShows(timer, extent, speed, o);
  }

  lemma {:induction false} RowsAt(text: string, width: nat, left: int, top: int, o: nat, n: nat, k: nat)
    requires width > 0 && o + n <= Lines(|text|, width) && k < n
    ensures (o + k) * width <= |text| && |Rows(text, width, left, top, o, n)| == n
    ensures Rows(text, width, left, top, o, n)[k] == Drawn(left, top + k, Row(text, width, o + k))
  {
    hide Row;
    hide Lines;
    RowStarts(text, width, o + k);
    RowStarts(text, width, o + n - 1);
    if k < n - 1 {
      RowsAt(text, width, left, top, o, n - 1, k);
    } else if n > 1 {
      RowsAt(text, width, left, top, o, n - 1, 0);
    }
  }

  /** Every row of a vertical scroller shows at some tick of every period, inside the widget. */
  lemma EveryRowShows(text: string, width: nat, left: int, top: int, rows: nat, speed: nat, timer: nat, i: nat)
    returns (tick: nat, k: nat)
    requires 0 < width && 0 < rows < Lines(|text|, width) && speed > 0 && i < Lines(|text|, width)
    ensures i * width <= |text| && k < rows
    ensures timer <= tick < timer + 2 * (Lines(|text|, width) - rows + 1) * speed
    ensures Drawn(left, top + k, Row(text, width, i)) in VerticalRows(text, width, left, top, rows, speed, tick)
  {
    hide Lines;
    hide Rows;
    hide Row;
    hide Position;
    var extent := Lines(|text|, width) - rows + 1;
    var o := if i < extent then i else extent - 1;
    k := i - o;
    tick := EveryPositionShows(timer, extent, speed, o);
    RowsAt(text, width, left, top, o, rows, k);
    assert VerticalRows(text, width, left, top, rows, speed, tick) == Rows(text, width, left, top, o, rows);
  }
}
