/**
  The renderer's walk over the widgets of a screen: it draws their strings and moves those that are too
  far right, as Frames says.
 */
module FrameRenderer {
  import opened Common
  import opened Scroller
  import opened Frames

  /** A string, or a frame of more widgets.  Only x ever changes. */
  class Widget {
    const isFrame: bool
    var x: int
    const y: int
    const text: Option<string>
    const left: int
    const top: int
    const right: int
    const bottom: int
    const height: int
    const vertical: bool
    const speed: int
    const children: seq<Widget>
    /** The widget and all widgets in it. */
    ghost const repr: set<Widget>

    constructor String(x: int, y: int, text: Option<string>)
      ensures Tree(this) && fresh(repr) && ItemOf(this) == Text(x, y, text)
    {
      this.isFrame, this.x, this.y, this.text := false, x, y, text;
      this.children := [];
      this.repr := {this};
    }

    constructor FrameOf(
      left: int, top: int, right: int, bottom: int, height: int, vertical: bool, speed: int, children: seq<Widget>)
      requires Forest(children)
      ensures Tree(this) && repr == {this} + Reprs(children)
      ensures ItemOf(this) == Frame(left, top, right, bottom, height, vertical, speed, ItemsOf(children))
    {
      ghost var inside := Reprs(children);
      ReprsAreAllocated(children);
      this.isFrame, this.left, this.top, this.right, this.bottom := true, left, top, right, bottom;
      this.height, this.vertical, this.speed, this.children := height, vertical, speed, children;
      this.repr := {this} + inside;
    }
  }

  // ----- trees of widgets -----------------------------------------------------------------------------------

  ghost function Reprs(ws: seq<Widget>): set<Widget> {
    if ws == [] then {} else ws[0].repr + Reprs(ws[1..])
  }

  lemma {:induction false} ReprsAreAllocated(ws: seq<Widget>)
    ensures forall w :: w in Reprs(ws) ==> allocated(w)
    decreases |ws|
  {
    if ws != [] {
      ReprsAreAllocated(ws[1..]);
    }
  }

  /** Every widget is in one place only. */
  ghost predicate Tree(w: Widget)
    decreases w.repr, 0
  {
    w in w.repr && Reprs(w.children) < w.repr && w !in Reprs(w.children) && Forest(w.children)
  }

  ghost predicate Forest(ws: seq<Widget>)
    decreases Reprs(ws), |ws| + 1
  {
    ws == [] ||
    (FirstRepr(ws);
     Tree(ws[0]) && ws[0].repr !! Reprs(ws[1..]) && Forest(ws[1..]))
  }

  lemma FirstRepr(ws: seq<Widget>)
    requires ws != []
    ensures ws[0].repr < Reprs(ws) || ws[0].repr == Reprs(ws)
    ensures Reprs(ws[1..]) < Reprs(ws) || Reprs(ws[1..]) == Reprs(ws)
  {
  }

  /** The widget as the value that the drawing is about. */
  ghost function ItemOf(w: Widget): Item
    requires Tree(w)
    reads w.repr
    decreases w.repr, 0
  {
    if w.isFrame then Frame(w.left, w.top, w.right, w.bottom, w.height, w.vertical, w.speed, ItemsOf(w.children))
    else Text(w.x, w.y, w.text)
  }

  ghost function ItemsOf(ws: seq<Widget>): (r: seq<Item>)
    requires Forest(ws)
    reads Reprs(ws)
    ensures |r| == |ws|
    decreases Reprs(ws), |ws| + 1
  {
    if ws == [] then []
    else
      FirstRepr(ws);
      [ItemOf(ws[0])] + ItemsOf(ws[1..])
  }

  /** A forest around one of its trees. */
  lemma {:induction false} ForestAround(ws: seq<Widget>, i: nat)
    requires Forest(ws) && i < |ws|
    ensures Tree(ws[i]) && Forest(ws[..i]) && Forest(ws[i + 1..])
    ensures Reprs(ws) == Reprs(ws[..i]) + ws[i].repr + Reprs(ws[i + 1..])
    ensures Reprs(ws[..i]) !! ws[i].repr !! Reprs(ws[i + 1..])
    ensures ItemsOf(ws) == ItemsOf(ws[..i]) + [ItemOf(ws[i])] + ItemsOf(ws[i + 1..])
    decreases |ws|
  {
    if i == 0 {
      assert ws[..0] == [];
    } else {
      hide Tree;
      hide ItemOf;
      ForestAround(ws[1..], i - 1);
      assert ws[1..][i - 1] == ws[i] && ws[1..][..i - 1] == ws[..i][1..] && ws[1..][i..] == ws[i + 1..];
      assert ws[..i][0] == ws[0];
    }
  }

  lemma {:induction false} ForestCut(ws: seq<Widget>, n: nat)
    requires Forest(ws) && n <= |ws|
    ensures Forest(ws[..n]) && Forest(ws[n..])
    ensures Reprs(ws) == Reprs(ws[..n]) + Reprs(ws[n..]) && Reprs(ws[..n]) !! Reprs(ws[n..])
    decreases |ws|
  {
    if n == 0 {
      assert ws[..0] == [] && ws[0..] == ws;
    } else {
      ForestCut(ws[1..], n - 1);
      assert ws[1..][..n - 1] == ws[..n][1..] && ws[1..][n - 1..] == ws[n..];
      assert ws[..n][0] == ws[0];
    }
  }

  /** The widget behind the first i ones. */
  lemma {:induction false} NextWidget(ws: seq<Widget>, i: nat)
    requires Forest(ws) && i < |ws|
    ensures Forest(ws[..i]) && Tree(ws[i]) && Forest(ws[i + 1..]) && Forest(ws[..i + 1]) && Forest(ws[i..])
    ensures Reprs(ws[..i]) !! ws[i].repr && ws[i].repr !! Reprs(ws[i + 1..])
    ensures ws[i].repr < Reprs(ws) || ws[i].repr == Reprs(ws)
    ensures ItemsOf(ws[..i + 1]) == ItemsOf(ws[..i]) + [ItemOf(ws[i])]
    ensures ItemsOf(ws[i..]) == [ItemOf(ws[i])] + ItemsOf(ws[i + 1..])
  {
    ForestAround(ws, i);
    ForestCut(ws, i);
    ForestCut(ws, i + 1);
    ForestAround(ws[..i + 1], i);
    assert ws[..i + 1][..i] == ws[..i] && ws[..i + 1][i + 1..] == [];
    assert ws[i..][1..] == ws[i + 1..];
  }

  lemma ItemsUpTo(ws: seq<Widget>, i: nat)
    requires Forest(ws) && i < |ws| && Forest(ws[..i]) && Forest(ws[..i + 1]) && Tree(ws[i])
    ensures ItemsOf(ws[..i + 1]) == ItemsOf(ws[..i]) + [ItemOf(ws[i])]
  {
    NextWidget(ws, i);
  }

  lemma NextWidgetIs(ws: seq<Widget>, i: nat)
    requires Forest(ws) && i < |ws|
    ensures Forest(ws[..i]) && Tree(ws[i]) && Forest(ws[i + 1..]) && Forest(ws[..i + 1]) && Forest(ws[i..])
    ensures ws[i].repr < Reprs(ws) || ws[i].repr == Reprs(ws)
    ensures ItemsOf(ws[i..]) == [ItemOf(ws[i])] + ItemsOf(ws[i + 1..])
  {
    NextWidget(ws, i);
  }

  lemma {:induction false} DrawNext(items: seq<Item>, i: nat, a: Area, fy: nat, timer: nat)
    requires i < |items|
    ensures DrawItems(items[..i + 1], a, fy, timer) ==
      DrawItems(items[..i], a, fy, timer) + DrawItem(items[i], a, fy, timer)
    ensures ClampItems(items[..i + 1], a, fy, timer) ==
      ClampItems(items[..i], a, fy, timer) + [ClampItem(items[i], a, fy, timer)]
    decreases i
  {
    hide DrawItem;
    hide ClampItem;
    if i == 0 {
      assert items[..1][1..] == [];
    } else {
      DrawNext(items[1..], i - 1, a, fy, timer);
      assert items[1..][..i] == items[..i + 1][1..] && items[1..][..i - 1] == items[..i][1..];
    }
  }

  lemma FirstItem(items: seq<Item>, i: nat, w: Item, rest: seq<Item>)
    requires i < |items| && items[i..] == [w] + rest
    ensures w == items[i] && rest == items[i + 1..]
  {
    assert items[i] == items[i..][0];
    assert rest == items[i..][1..];
  }

  lemma NoWidgets(ws: seq<Widget>, items: seq<Item>, a: Area, fy: nat, timer: nat)
    requires Forest(ws)
    ensures Forest(ws[..0]) && ItemsOf(ws[..0]) == [] && ws[0..] == ws && items[0..] == items && items[..0] == []
    ensures DrawItems([], a, fy, timer) == [] && ClampItems([], a, fy, timer) == []
  {
  }

  lemma DrawnAfter(a: seq<Drawn>, b: seq<Drawn>, c: seq<Drawn>)
    ensures (a + b) + c == a + (b + c)
  {
  }

  lemma AllWidgets(ws: seq<Widget>, items: seq<Item>)
    requires |items| == |ws|
    ensures ws[..|ws|] == ws && items[..|ws|] == items
  {
  }

  // ----- rendering --------------------------------------------------------------------------------------------

  class Renderer {
    /** The strings sent to the driver. */
    var drawn: seq<Drawn>

    /** Draw the widgets of a frame in its area. */
    method RenderFrame(list: seq<Widget>, vertical: bool, a: Area, height: int, speed: int, timer: nat)
      returns (result: int)
      requires Forest(list)
      modifies this, Reprs(list)
      ensures result == if list == [] || height <= 0 then -1 else 0
      ensures var fy := ScrolledRows(vertical, speed, height, a.Rows(), timer);
        if height <= 0 then drawn == old(drawn) && ItemsOf(list) == old(ItemsOf(list))
        else
          && drawn == old(drawn) + DrawItems(old(ItemsOf(list)), a, fy, timer)
          && ItemsOf(list) == ClampItems(old(ItemsOf(list)), a, fy, timer)
      decreases Reprs(list), |list| + 3
    {
      if height <= 0 || list == [] {
        return -1;
      }
      var fy := ScrolledRows(vertical, speed, height, a.Rows(), timer);
      ghost var items, before := ItemsOf(list), drawn;
      NoWidgets(list, items, a, fy, timer);
      hide *;
      for i := 0 to |list|
        invariant Forest(list[..i]) && Forest(list[i..])
        invariant ItemsOf(list[..i]) == ClampItems(items[..i], a, fy, timer) && ItemsOf(list[i..]) == items[i..]
        invariant drawn == before + DrawItems(items[..i], a, fy, timer)
      {
        NextWidgetIs(list, i);
        FirstItem(items, i, ItemOf(list[i]), ItemsOf(list[i + 1..]));
        RenderNext(list, i, a, fy, timer);
        DrawNext(items, i, a, fy, timer);
        DrawnAfter(before, DrawItems(items[..i], a, fy, timer), DrawItem(items[i], a, fy, timer));
      }
      AllWidgets(list, items);
      return 0;
    }

    /** Draw one widget of a list; the others stay as they are. */
    method RenderNext(list: seq<Widget>, i: nat, a: Area, fy: nat, timer: nat)
      requires Forest(list) && i < |list| && Tree(list[i])
      requires Forest(list[..i]) && Forest(list[i + 1..]) && Forest(list[..i + 1])
      modifies this, list[i].repr
      ensures drawn == old(drawn) + DrawItem(old(ItemOf(list[i])), a, fy, timer)
      ensures ItemsOf(list[..i + 1]) == old(ItemsOf(list[..i])) + [ClampItem(old(ItemOf(list[i])), a, fy, timer)]
      ensures ItemsOf(list[i + 1..]) == old(ItemsOf(list[i + 1..]))
      decreases list[i].repr, 2
    {
      hide *;
      NextWidget(list, i);
      ReprsAreAllocated(list[..i]);
      ReprsAreAllocated(list[i + 1..]);
      RenderWidget(list[i], a, fy, timer);
      ItemsUpTo(list, i);
    }

    method RenderWidget(w: Widget, a: Area, fy: nat, timer: nat)
      requires Tree(w)
      modifies this, w.repr
      ensures drawn == old(drawn) + DrawItem(old(ItemOf(w)), a, fy, timer)
      ensures ItemOf(w) == ClampItem(old(ItemOf(w)), a, fy, timer)
      decreases w.repr, 1
    {
      if w.isFrame {
        var b := Area(a.left + w.left - 1, a.top + w.top - 1, Min(a.left + w.right, a.right),
          Min(a.top + w.bottom, a.bottom));
        if b.left < a.right && b.top < a.bottom {
          var _ := RenderFrame(w.children, w.vertical, b, w.height, w.speed, timer);
        }
      } else if w.x > 0 && w.y > 0 && w.text.Some? && w.y <= a.Rows() + fy && w.y > fy {
        w.x := Min(w.x, a.Columns());
        var n := Min(a.Columns() - w.x + 1, BUFSIZE - 1);
        drawn := drawn + [Drawn(w.x + a.left, w.y + a.top - fy, Prefix(w.text.value, n))];
      }
    }
  }
}
