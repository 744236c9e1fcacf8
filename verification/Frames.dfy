/**
  Frames of widgets inside frames: what the renderer draws of their strings, and where.
 */
module Frames {
  import opened Common
  import opened Scroller

  datatype Item =
    | Text(x: int, y: int, text: Option<string>)
    | Frame(left: int, top: int, right: int, bottom: int, height: int, vertical: bool, speed: int, items: seq<Item>)

  /** The columns after left up to right, and the rows after top down to bottom. */
  datatype Area = Area(left: int, top: int, right: int, bottom: int) {
    function Columns(): int { right - left }
    function Rows(): int { bottom - top }
    predicate Visible() { left < right && top < bottom }
  }

  /** The first row of a scrolling frame that does not show: rows from the next one on do. */
  function ScrolledRows(vertical: bool, speed: int, height: int, rows: int, timer: nat): (fy: nat)
  {
    if vertical && speed != 0 && height > rows then
      var fy := if speed > 0 then Remainder(Quotient(timer, speed), height - rows + 1)
        else Remainder(-speed * timer, height - rows + 1);
      if fy > 0 then fy else 0
    else 0
  }

  /** Where a frame is inside an area, before it is clipped to the area. */
  function Placed(f: Item, a: Area): Area
    requires f.Frame?
  {
    Area(a.left + f.left - 1, a.top + f.top - 1, a.left + f.right, a.top + f.bottom)
  }

  function Clipped(f: Item, a: Area): Area
    requires f.Frame?
  {
    var p := Placed(f, a);
    p.(right := Min(p.right, a.right), bottom := Min(p.bottom, a.bottom))
  }

  predicate Shows(f: Item, a: Area)
    requires f.Frame?
  {
    Placed(f, a).left < a.right && Placed(f, a).top < a.bottom
  }

  /** A string shows when its row does. */
  predicate ShowsText(w: Item, a: Area, fy: nat)
    requires w.Text?
  {
    w.x > 0 && w.y > 0 && w.text.Some? && fy < w.y <= a.Rows() + fy
  }

  function DrawText(w: Item, a: Area, fy: nat): seq<Drawn>
    requires w.Text?
  {
    if ShowsText(w, a, fy) then
      var x := Min(w.x, a.Columns());
      var n := Min(a.Columns() - x + 1, BUFSIZE - 1);
      [Drawn(x + a.left, w.y + a.top - fy, Prefix(w.text.value, n))]
    else []
  }

  function DrawItem(w: Item, a: Area, fy: nat, timer: nat): seq<Drawn>
    decreases w, 1
  {
    match w
    case Text(_, _, _) => DrawText(w, a, fy)
    case Frame(_, _, _, _, _, _, _, _) => DrawFrame(w, a, timer)
  }

  function DrawFrame(f: Item, a: Area, timer: nat): seq<Drawn>
    requires f.Frame?
    decreases f, 0
  {
    if Shows(f, a) && f.height > 0 then
      var b := Clipped(f, a);
      DrawItems(f.items, b, ScrolledRows(f.vertical, f.speed, f.height, b.Rows(), timer), timer)
    else []
  }

  function DrawItems(items: seq<Item>, a: Area, fy: nat, timer: nat): seq<Drawn>
    decreases items, 1
  {
    if items == [] then [] else DrawItem(items[0], a, fy, timer) + DrawItems(items[1..], a, fy, timer)
  }

  // ----- the order of drawing -----------------------------------------------------------------------------

  /** Items are drawn one after the other, each on its own. */
  lemma {:induction false} ItemsAreDrawnInTurn(s: seq<Item>, t: seq<Item>, a: Area, fy: nat, timer: nat)
    ensures DrawItems(s + t, a, fy, timer) == DrawItems(s, a, fy, timer) + DrawItems(t, a, fy, timer)
    decreases |s|
  {
    hide DrawItem;
    if s == [] {
      assert s + t == t && [] + DrawItems(t, a, fy, timer) == DrawItems(t, a, fy, timer);
    } else {
      ItemsAreDrawnInTurn(s[1..], t, a, fy, timer);
      assert (s + t)[1..] == s[1..] + t;
    }
  }

  /**
    A text among the items is drawn exactly when its row shows, and a frame draws its items in its
    part of the area.
   */
  lemma ItemIsDrawn(w: Item, a: Area, fy: nat, timer: nat)
    ensures w.Text? ==> DrawItems([w], a, fy, timer) == DrawText(w, a, fy)
    ensures w.Frame? ==>
      var p := Area(a.left + w.left - 1, a.top + w.top - 1, a.left + w.right, a.top + w.bottom);
      var b := Area(p.left, p.top, Min(p.right, a.right), Min(p.bottom, a.bottom));
      DrawItems([w], a, fy, timer) ==
        if p.left < a.right && p.top < a.bottom && w.height > 0
        then DrawItems(w.items, b, ScrolledRows(w.vertical, w.speed, w.height, b.Rows(), timer), timer) else []
  {
    hide ScrolledRows;
    assert DrawItem(w, a, fy, timer) + [] == DrawItem(w, a, fy, timer);
    assert [w][1..] == [];
    if w.Frame? {
      assert DrawItem(w, a, fy, timer) == DrawFrame(w, a, timer);
      var p := Placed(w, a);
      assert Clipped(w, a) == Area(p.left, p.top, Min(p.right, a.right), Min(p.bottom, a.bottom));
    }
  }

  // ----- clipping -----------------------------------------------------------------------------------------

  predicate WellPlaced(items: seq<Item>)
    decreases items
  {
    forall i :: 0 <= i < |items| && items[i].Frame? ==> FramePlaced(items[i])
  }

  predicate FramePlaced(f: Item)
    requires f.Frame?
    decreases f
  {
    1 <= f.left <= f.right && 1 <= f.top <= f.bottom && WellPlaced(f.items)
  }

  /** All characters are in the area; an empty string is where its first character would be. */
  predicate Inside(d: Drawn, a: Area) {
    a.left < d.x <= a.right && d.x + |d.text| - 1 <= a.right && a.top < d.y <= a.bottom
  }

  predicate Contains(a: Area, b: Area) {
    a.left <= b.left && b.right <= a.right && a.top <= b.top && b.bottom <= a.bottom
  }

  /** A frame that shows is clipped to its intersection with the area around it, which is not empty. */
  lemma ClippedIsIntersection(f: Item, a: Area)
    requires f.Frame? && FramePlaced(f) && a.Visible() && Shows(f, a)
    ensures var b := Clipped(f, a);
      && b.Visible() && Contains(a, b) && Contains(Placed(f, a), b)
      && forall c: Area :: Contains(a, c) && Contains(Placed(f, a), c) ==> Contains(b, c)
  {
  }

  lemma TextIsInside(w: Item, a: Area, fy: nat)
    requires w.Text? && a.Visible()
    ensures forall d :: d in DrawText(w, a, fy) ==> Inside(d, a)
  {
  }

  /** What is drawn, each string with the display and all the frames around it. */
  function Enclosed(items: seq<Item>, a: Area, fy: nat, timer: nat, around: seq<Area>): seq<(Drawn, seq<Area>)>
    decreases items, 1
  {
    if items == [] then []
    else EnclosedItem(items[0], a, fy, timer, around) + Enclosed(items[1..], a, fy, timer, around)
  }

  function EnclosedItem(w: Item, a: Area, fy: nat, timer: nat, around: seq<Area>): seq<(Drawn, seq<Area>)>
    decreases w, 1
  {
    match w
    case Text(_, _, _) => (var d := DrawText(w, a, fy); seq(|d|, i requires 0 <= i < |d| => (d[i], around)))
    case Frame(_, _, _, _, _, _, _, _) => EnclosedFrame(w, a, timer, around)
  }

  function EnclosedFrame(f: Item, a: Area, timer: nat, around: seq<Area>): seq<(Drawn, seq<Area>)>
    requires f.Frame?
    decreases f, 0
  {
    if Shows(f, a) && f.height > 0 then
      var b := Clipped(f, a);
      var fy := ScrolledRows(f.vertical, f.speed, f.height, b.Rows(), timer);
      Enclosed(f.items, b, fy, timer, around + [Placed(f, a)])
    else []
  }

  function Strings(s: seq<(Drawn, seq<Area>)>): seq<Drawn> {
    seq(|s|, i requires 0 <= i < |s| => s[i].0)
  }

  lemma StringsOfBoth(s: seq<(Drawn, seq<Area>)>, t: seq<(Drawn, seq<Area>)>)
    ensures Strings(s + t) == Strings(s) + Strings(t)
  {
  }

  /** The enclosed strings are the drawn ones. */
  lemma {:induction false} EnclosedIsDrawing(items: seq<Item>, a: Area, fy: nat, timer: nat, around: seq<Area>)
    ensures Strings(Enclosed(items, a, fy, timer, around)) == DrawItems(items, a, fy, timer)
    decreases items
  {
    if items != [] {
      var w := items[0];
      assert Strings(EnclosedItem(w, a, fy, timer, around)) == DrawItem(w, a, fy, timer) by {
        if w.Frame? && Shows(w, a) && w.height > 0 {
          var b := Clipped(w, a);
          var fy := ScrolledRows(w.vertical, w.speed, w.height, b.Rows(), timer);
          EnclosedIsDrawing(w.items, b, fy, timer, around + [Placed(w, a)]);
        }
      }
      EnclosedIsDrawing(items[1..], a, fy, timer, around);
      StringsOfBoth(EnclosedItem(w, a, fy, timer, around), Enclosed(items[1..], a, fy, timer, around));
    }
  }

  predicate InsideAll(e: (Drawn, seq<Area>)) {
    forall i :: 0 <= i < |e.1| ==> Inside(e.0, e.1[i])
  }

  predicate AllContain(around: seq<Area>, a: Area) {
    forall i :: 0 <= i < |around| ==> Contains(around[i], a)
  }

  /** Every string at any depth is drawn inside the display and inside all the frames around it. */
  lemma {:induction false} StringsStayInFrames(items: seq<Item>, a: Area, fy: nat, timer: nat, around: seq<Area>)
    requires WellPlaced(items) && a.Visible() && AllContain(around, a)
    ensures forall e :: e in Enclosed(items, a, fy, timer, around) ==> InsideAll(e)
    decreases items, 1
  {
    if items != [] {
      var w := items[0];
      ItemStaysInFrames(w, a, fy, timer, around);
      assert WellPlaced(items[1..]);
      StringsStayInFrames(items[1..], a, fy, timer, around);
    }
  }

  lemma ItemStaysInFrames(w: Item, a: Area, fy: nat, timer: nat, around: seq<Area>)
    requires (w.Frame? ==> FramePlaced(w)) && a.Visible() && AllContain(around, a)
    ensures forall e :: e in EnclosedItem(w, a, fy, timer, around) ==> InsideAll(e)
    decreases w, 0
  {
    if w.Text? {
      TextIsInside(w, a, fy);
      forall e | e in EnclosedItem(w, a, fy, timer, around) ensures InsideAll(e) {
        assert e.0 in DrawText(w, a, fy);
        forall i | 0 <= i < |around| ensures Inside(e.0, around[i]) {
          InsideLarger(e.0, a, around[i]);
        }
      }
    } else if Shows(w, a) && w.height > 0 {
      var b := Clipped(w, a);
      ClippedIsIntersection(w, a);
      ContainLarger(around, a, b);
      var rows := ScrolledRows(w.vertical, w.speed, w.height, b.Rows(), timer);
      StringsStayInFrames(w.items, b, rows, timer, around + [Placed(w, a)]);
    }
  }

  lemma InsideLarger(d: Drawn, a: Area, b: Area)
    requires Inside(d, a) && Contains(b, a)
    ensures Inside(d, b)
  {
  }

  lemma ContainLarger(around: seq<Area>, a: Area, b: Area)
    requires AllContain(around, a) && Contains(a, b)
    ensures AllContain(around, b)
  {
  }

  // ----- scrolling ------------------------------------------------------------------------------------------

  /**
    A string in row y of the frame is drawn in display row y - fy of the area, for the area's number
    of consecutive rows from fy + 1 on and no others; when scrolled they are within the frame's height.
   */
  lemma RowsThatShow(w: Item, vertical: bool, speed: int, height: int, a: Area, timer: nat)
    requires w.Text? && a.Rows() >= 1
    ensures var fy := ScrolledRows(vertical, speed, height, a.Rows(), timer);
      && (fy > 0 ==> vertical && speed != 0 && fy + a.Rows() <= height)
      && (DrawText(w, a, fy) != [] <==> w.x > 0 && w.text.Some? && fy + 1 <= w.y <= fy + a.Rows())
      && |DrawText(w, a, fy)| <= 1
      && forall d :: d in DrawText(w, a, fy) ==> d.y == a.top + (w.y - fy)
  {
    if vertical && speed != 0 && height > a.Rows() {
      RemainderSmall(Quotient(timer, speed), height - a.Rows() + 1);
      RemainderSmall(-speed * timer, height - a.Rows() + 1);
    }
  }

  /** A string begins in its column, or the last one of the area, and is cut at the right edge. */
  lemma ColumnsThatShow(w: Item, a: Area, fy: nat)
    requires w.Text? && a.Visible() && a.Columns() < BUFSIZE
    ensures forall d :: d in DrawText(w, a, fy) ==>
      && w.text.Some? && d.text <= w.text.value && d.x == a.left + (if w.x < a.Columns() then w.x else a.Columns())
      && (if d.text == w.text.value then d.x + |d.text| - 1 <= a.right else d.x + |d.text| - 1 == a.right)
  {
  }

  lemma RemainderSmall(x: int, m: int)
    requires m > 0
    ensures Remainder(x, m) < m
  {
    if x >= 0 {
      DivisionOfNats(x, m);
    } else {
      DivisionOfNats(-x, m);
    }
  }

  /** Every row of a scrolling frame shows at some tick of every round. */
  lemma EveryRowOfFrameShows(speed: nat, height: nat, rows: nat, timer: nat, y: nat) returns (tick: nat)
    requires speed > 0 && 1 <= rows < height && 1 <= y <= height
    ensures timer <= tick < timer + (height - rows + 1) * speed
    ensures var fy := ScrolledRows(true, speed, height, rows, tick);
      fy < y <= fy + rows
  {
    hide ScrolledRows;
    var m := height - rows + 1;
    var wanted := if y <= m then y - 1 else m - 1;
    var ahead := StepsUntil(timer / speed, m, wanted);
    ProductGrows(ahead, m, speed);
    tick := timer + ahead * speed;
    LaterTick(timer, speed, ahead);
    ScrolledIs(speed, height, rows, tick);
  }

  lemma ScrolledIs(speed: nat, height: nat, rows: nat, timer: nat)
    requires speed > 0 && 1 <= rows < height
    ensures ScrolledRows(true, speed, height, rows, timer) == (timer / speed) % (height - rows + 1)
  {
    hide Quotient;
    hide Remainder;
    DivisionOfNats(timer, speed);
    DivisionOfNats(timer / speed, height - rows + 1);
  }

  /** A negative speed moves that many rows a tick. */
  lemma FastRows(pace: nat, height: nat, rows: nat, timer: nat)
    requires pace > 0 && 1 <= rows < height
    ensures ScrolledRows(true, 0 - pace, height, rows, timer) == (pace * timer) % (height - rows + 1)
  {
    hide Quotient;
    hide Remainder;
    PositiveOrNothing(pace, timer);
    DivisionOfNats(pace * timer, height - rows + 1);
    assert -(0 - pace) * timer == pace * timer;
  }

  lemma PositiveOrNothing(a: nat, b: nat)
    ensures a * b >= 0
  {
  }

  lemma StepsUntil(step: nat, m: nat, wanted: nat) returns (ahead: nat)
    requires wanted < m
    ensures ahead < m && (step + ahead) % m == wanted
  {
    var k := step % m;
    if wanted >= k {
      ahead := wanted - k;
      QuotientIs(step + ahead, m, step / m, wanted);
    } else {
      ahead := m + wanted - k;
      QuotientIs(step + ahead, m, step / m + 1, wanted);
    }
  }

  // ----- the clamp ------------------------------------------------------------------------------------------

  /** The renderer moves a string that shows too far right into its frame, for good. */
  function ClampItem(w: Item, a: Area, fy: nat, timer: nat): Item
    decreases w, 1
  {
    match w
    case Text(_, _, _) => if ShowsText(w, a, fy) then w.(x := Min(w.x, a.Columns())) else w
    case Frame(_, _, _, _, _, _, _, _) => ClampFrame(w, a, timer)
  }

  function ClampFrame(f: Item, a: Area, timer: nat): Item
    requires f.Frame?
    decreases f, 0
  {
    if Shows(f, a) && f.height > 0 then
      var b := Clipped(f, a);
      f.(items := ClampItems(f.items, b, ScrolledRows(f.vertical, f.speed, f.height, b.Rows(), timer), timer))
    else f
  }

  function ClampItems(items: seq<Item>, a: Area, fy: nat, timer: nat): seq<Item>
    decreases items, 1
  {
    if items == [] then [] else [ClampItem(items[0], a, fy, timer)] + ClampItems(items[1..], a, fy, timer)
  }

  /** Moving strings at one tick changes nothing that is drawn at this or any other tick. */
  lemma {:induction false} ClampIsInvisible(items: seq<Item>, a: Area, fy: nat, timer: nat, fy1: nat, timer1: nat)
    requires WellPlaced(items) && a.Visible()
    ensures DrawItems(ClampItems(items, a, fy, timer), a, fy1, timer1) == DrawItems(items, a, fy1, timer1)
    decreases items, 1
  {
    if items != [] {
      var c := ClampItems(items, a, fy, timer);
      assert c[0] == ClampItem(items[0], a, fy, timer) && c[1..] == ClampItems(items[1..], a, fy, timer);
      ClampItemIsInvisible(items[0], a, fy, timer, fy1, timer1);
      assert WellPlaced(items[1..]);
      ClampIsInvisible(items[1..], a, fy, timer, fy1, timer1);
    }
  }

  lemma ClampItemIsInvisible(w: Item, a: Area, fy: nat, timer: nat, fy1: nat, timer1: nat)
    requires (w.Frame? ==> FramePlaced(w)) && a.Visible()
    ensures DrawItem(ClampItem(w, a, fy, timer), a, fy1, timer1) == DrawItem(w, a, fy1, timer1)
    decreases w, 0
  {
    if w.Frame? && Shows(w, a) && w.height > 0 {
      var b := Clipped(w, a);
      ClippedIsIntersection(w, a);
      var f0 := ScrolledRows(w.vertical, w.speed, w.height, b.Rows(), timer);
      var f1 := ScrolledRows(w.vertical, w.speed, w.height, b.Rows(), timer1);
      ClampIsInvisible(w.items, b, f0, timer, f1, timer1);
    }
  }
}
