/** The scheduler's program state, refining the state machine of module Schedule. */
module ScreenLists {
  import opened Common
  import opened Sorting
  import opened LinkedLists
  import opened Schedule

  class Screen {
    const id: string
    const client: bool        // belongs to a client, as opposed to the server
    var priority: int
    var duration: int
    var timeout: int          // frames left to live as the current screen, -1 for ever

    constructor (id: string, client: bool)
      ensures this.id == id && this.client == client
      ensures priority == PRI_INFO && timeout == -1
    {
      this.id, this.client := id, client;
      priority, duration, timeout := PRI_INFO, 0, -1;
    }

    function Attributes(): Info
      reads this
    {
      Info(priority, duration, timeout, client)
    }
  }

  function Wrapped<S>(s: seq<S>): (r: seq<Option<S>>)
    ensures |r| == |s|
  {
    seq(|s|, i requires 0 <= i < |s| => Some(s[i]))
  }

  function Unwrapped<S>(s: seq<Option<S>>): (r: seq<S>)
    requires forall x :: x in s ==> x.Some?
    ensures |r| == |s|
  {
    seq(|s|, i requires 0 <= i < |s| => s[i].value)
  }

  /** Sorting list entries is sorting the screens in them. */
  lemma {:induction false} WrappedBest<S>(s: seq<S>, cmp: (S, S) -> int, w: (Option<S>, Option<S>) -> int, last: nat,
    j: nat)
    requires j <= last < |s|
    requires forall x, y :: x in s && y in s ==> w(Some(x), Some(y)) == cmp(x, y)
    ensures Best(Wrapped(s), last, j, w) == Best(s, last, j, cmp)
  {
    if j > 0 {
      WrappedBest(s, cmp, w, last, j - 1);
      var b := Best(s, last, j - 1, cmp);
      assert s[j - 1] in s && s[b] in s;
    }
  }

  lemma {:induction false} WrappedSortFrom<S>(s: seq<S>, cmp: (S, S) -> int, w: (Option<S>, Option<S>) -> int, i: nat)
    requires i < |s|
    requires forall x, y :: x in s && y in s ==> w(Some(x), Some(y)) == cmp(x, y)
    ensures SortFrom(Wrapped(s), i, w) == Wrapped(SortFrom(s, i, cmp))
    decreases i
  {
    hide Best;
    if i > 0 {
      WrappedBest(s, cmp, w, i, i);
      var b := Best(s, i, i, cmp);
      assert SwapAt(Wrapped(s), i, b) == Wrapped(SwapAt(s, i, b));
      SwapAtPermutes(s, i, b);
      SameElements(s, SwapAt(s, i, b));
      WrappedSortFrom(SwapAt(s, i, b), cmp, w, i - 1);
    }
  }

  lemma WrappedSort<S>(s: seq<S>, cmp: (S, S) -> int, w: (Option<S>, Option<S>) -> int)
    requires forall x, y :: x in s && y in s ==> w(Some(x), Some(y)) == cmp(x, y)
    ensures SelectionSort(Wrapped(s), w) == Wrapped(SelectionSort(s, cmp))
  {
    if s != [] {
      WrappedSortFrom(s, cmp, w, |s| - 1);
    }
  }

  /** The compare function handed to the list: NULL entries compare equal to everything. */
  function ComparePriorities<S(==)>(priorities: map<S, int>): (Option<S>, Option<S>) -> int {
    (one: Option<S>, two: Option<S>) =>
      if one.None? || two.None? then 0
      else if one.value in priorities && two.value in priorities then priorities[two.value] - priorities[one.value]
      else 0
  }

  class ScreenList {
    const list: LinkedList<Screen>
    var current: Screen?
    var startTime: int
    var autorotate: bool
    var sent: seq<Message<Screen>>     // what the clients were sent
    var screens: set<Screen>           // every screen created so far

    ghost predicate Valid()
      reads this, list, list.spine
    {
      && list.Valid()
      && (forall x :: x in list.Items() ==> x.Some? && x.value in screens)
      && (current != null ==> current in screens)
    }

    ghost function View(): State<Screen>
      requires Valid()
      reads this, list, list.spine, screens
    {
      State(
        Unwrapped(list.Items()),
        if current == null then None else Some(current),
        startTime,
        sent,
        Infos())
    }

    ghost function Infos(): map<Screen, Info>
      reads this`screens, screens
    {
      map s | s in screens :: s.Attributes()
    }

    constructor ()
      ensures Valid() && fresh(list) && fresh(list.Nodes()) && autorotate
      ensures View() == State([], None, 0, [], map[])
    {
      var l := new LinkedList<Screen>();
      list := l;
      current, startTime, autorotate, sent, screens := null, 0, true, [], {};
    }

    /** Switch to another screen and tell the clients concerned. */
    method Switch(s: Option<Screen>, now: int)
      requires Valid() && (s.Some? ==> s.value in screens)
      modifies this`current, this`startTime, this`sent
      ensures Valid() && View() == Schedule.Switch(old(View()), s, now)
    {
      hide Infos;
      hide InfoOf;
      hide LinkedList.Formed;
      hide Schedule.Switch;
      AttributesInView();
      SwitchIs(View(), s, now);
      if s.None? || s.value == current {
        return;
      }
      if current != null {
        if current.client {
          sent := sent + [Ignore(current)];
        }
      }
      if s.value.client {
        sent := sent + [Listen(s.value)];
      }
      current := s.value;
      startTime := now;
    }

    ghost function Listed(): seq<Screen>
      requires Valid()
      reads this, list, list.spine
    {
      Unwrapped(list.Items())
    }

    lemma ListedItems()
      requires Valid()
      ensures Listed() == View().listed && |Listed()| == |list.Items()|
      ensures forall k :: 0 <= k < |Listed()| ==> list.Items()[k] == Some(Listed()[k]) && Listed()[k] in screens
    {
      assert forall k :: 0 <= k < |list.Items()| ==> list.Items()[k] in list.Items();
    }

    lemma AttributesInView()
      requires Valid()
      ensures View().current == if current == null then None else Some(current)
      ensures View().start == startTime && (current != null ==> current in screens)
      ensures forall x :: x in View().listed ==> x in screens
      ensures forall x :: x in screens ==> x in View().info
      ensures forall x :: x in screens ==> Pri(View(), x) == x.priority && InfoOf(View(), x) == x.Attributes()
    {
      ListedItems();
    }

    // The cursor moves of the list, in terms of screens.

    method FirstListed() returns (s: Option<Screen>)
      requires Valid()
      modifies list`current, list`cursor
      ensures Valid() && View() == old(View())
      ensures s == First(View()) && list.cursor == Some(if s.None? then 0 else 1)
    {
      hide LinkedList.Formed;
      ListedItems();
      s := list.GetFirst();
    }

    method NextListed() returns (s: Option<Screen>)
      requires Valid() && list.cursor.Some?
      modifies list`current, list`cursor
      ensures Valid() && View() == old(View())
      ensures var p, listed := old(list.cursor.value), View().listed;
        && s == (if p < |listed| then Some(listed[p]) else None)
        && (p <= |listed| ==> list.cursor == Some(if p < |listed| then p + 1 else p))
    {
      hide LinkedList.Formed;
      ListedItems();
      s := list.GetNext();
    }

    method PrevListed() returns (s: Option<Screen>)
      requires Valid() && list.cursor.Some?
      modifies list`current, list`cursor
      ensures Valid() && View() == old(View())
      ensures var p, listed := old(list.cursor.value), View().listed;
        s == if 1 < p <= |listed| + 1 then Some(listed[p - 2]) else None
    {
      hide LinkedList.Formed;
      ListedItems();
      s := list.GetPrev();
    }

    /** Walk from the first screen to the current one; the cursor stops there, or on the last node. */
    method FindCurrent()
      requires Valid() && current != null
      modifies list`current, list`cursor
      ensures Valid() && View() == old(View())
      ensures var n := |View().listed|; var k := FirstIndex(View().listed, current);
        list.cursor == Some(if n == 0 then 0 else if k < n then k + 1 else n)
    {
      hide *;
      ghost var listed := View().listed;
      var s := FirstListed();
      FirstOf(View());
      ghost var k := 0;
      while s.Some? && s.value != current
        invariant Valid() && View() == old(View())
        invariant 0 <= k <= |listed| && forall j :: 0 <= j < k ==> listed[j] != current
        invariant s == if k < |listed| then Some(listed[k]) else None
        invariant list.cursor == Some(if |listed| == 0 then 0 else if k < |listed| then k + 1 else |listed|)
        decreases |listed| - k
      {
        s := NextListed();
        k := k + 1;
      }
      FirstIndexAt(listed, current, k);
    }

    method NextOrFirst() returns (s: Option<Screen>)
      requires Valid() && current != null
      modifies list`current, list`cursor
      ensures Valid() && View() == old(View())
      ensures s == NextScreen(View(), current) && (s.Some? ==> s.value in screens)
    {
      hide Valid;
      hide View;
      hide Pri;
      hide FirstIndex;
      hide NextScreen;
      hide First;
      ghost var st := View();
      FindCurrent();
      AttributesInView();
      NextScreenIs(st, current);
      FirstOf(st);
      s := NextListed();
      assert s.Some? ==> s.value in st.listed;
      if s.None? || s.value.priority < current.priority {
        s := FirstListed();
      }
      assert s.Some? ==> s.value in st.listed;
    }

    method GotoNext(now: int) returns (ok: bool)
      requires Valid()
      modifies this`current, this`startTime, this`sent, list`current, list`cursor
      ensures Valid() && View() == Schedule.GotoNext(old(View()), now)
      ensures ok == old(current != null)
    {
      hide LinkedList.Formed;
      hide Schedule.NextScreen;
      hide Schedule.Switch;
      if current == null {
        return false;
      }
      var s := NextOrFirst();
      Switch(s, now);
      return true;
    }

    /** The last screen of the first one's priority, reached from the front. */
    method LastOfClass() returns (s: Option<Screen>)
      requires Valid()
      modifies list`current, list`cursor
      ensures Valid() && View() == old(View())
      ensures s == if View().listed == [] then None else Some(View().listed[LastOfFirstClass(View(), 0)])
    {
      hide *;
      ghost var st := View();
      ghost var listed := st.listed;
      AttributesInView();
      var f := FirstListed();
      FirstOf(st);
      s := f;
      var n := NextListed();
      ghost var r := 0;
      while n.Some? && n.value.priority == f.value.priority
        invariant Valid() && View() == st
        invariant if listed == [] then s == f == n == None else
          && f == Some(listed[0]) && 0 <= r < |listed| && s == Some(listed[r])
          && n == (if r + 1 < |listed| then Some(listed[r + 1]) else None)
          && list.cursor == Some(if n.Some? then r + 2 else r + 1)
          && LastOfFirstClass(st, r) == LastOfFirstClass(st, 0)
        decreases |listed| - r
      {
        LastClassStep(st, r);
        assert n.value in listed && listed[0] in listed;
        s := n;
        n := NextListed();
        r := r + 1;
      }
      if listed != [] {
        LastClassStep(st, r);
        assert listed[0] in listed && (n.Some? ==> n.value in listed);
      }
    }

    method PrevOrLast() returns (s: Option<Screen>)
      requires Valid() && current != null
      modifies list`current, list`cursor
      ensures Valid() && View() == old(View())
      ensures s == PrevScreen(View(), current) && (s.Some? ==> s.value in screens)
    {
      hide Valid;
      hide View;
      hide Pri;
      hide FirstIndex;
      FindCurrent();
      AttributesInView();
      s := PrevListed();
      if s.None? {
        s := LastOfClass();
      }
      assert s.Some? ==> s.value in View().listed;
    }

    method GotoPrev(now: int) returns (ok: bool)
      requires Valid()
      modifies this`current, this`startTime, this`sent, list`current, list`cursor
      ensures Valid() && View() == Schedule.GotoPrev(old(View()), now)
      ensures ok == old(current != null)
    {
      hide LinkedList.Formed;
      hide Schedule.PrevScreen;
      hide Schedule.Switch;
      if current == null {
        return false;
      }
      var s := PrevOrLast();
      Switch(s, now);
      return true;
    }

    method Add(s: Screen) returns (ok: bool)
      requires Valid() && s in screens
      modifies list, list.Nodes()
      ensures Valid() && fresh(list.Nodes() - old(list.Nodes()))
      ensures ok && View() == Schedule.Add(old(View()), s)
    {
      hide LinkedList.Formed;
      ghost var items := list.Items();
      ok := list.Push(Some(s));
      assert Listed() == Unwrapped(items) + [s];
    }

    /** Take a screen off the list, if it is on it. */
    method Unlist(s: Screen) returns (found: bool)
      requires Valid()
      modifies list, list.Nodes()
      ensures Valid() && fresh(list.Nodes() - old(list.Nodes()))
      ensures View() == old(View()).(listed := Without(old(View()).listed, s)) && found == (s in old(View()).listed)
    {
      hide LinkedList.Formed;
      hide Infos;
      hide FirstIndex;
      ListedItems();
      ghost var items, listed := list.Items(), Listed();
      ghost var k := FirstIndex(items, Some(s));
      FirstIndexAt(listed, s, k);
      var res := list.Remove(Some(s));
      return res != None;
    }

    /** Remove a screen, after leaving it if it is the current one. */
    method Remove(s: Screen, now: int) returns (ok: bool)
      requires Valid()
      modifies this`current, this`startTime, this`sent, list, list.Nodes()
      ensures Valid() && fresh(list.Nodes() - old(list.Nodes()))
      ensures View() == Schedule.Remove(old(View()), s, now)
    {
      hide Valid;
      hide View;
      hide Schedule.GotoNext;
      hide Without;
      AttributesInView();
      if s == current {
        var moved := GotoNext(now);
        AttributesInView();
        if s == current {
          ok := Unlist(s);
          moved := GotoNext(now);
          return;
        }
      }
      ok := Unlist(s);
    }

    /** Sort the list by priority. */
    method Sort()
      requires Valid()
      modifies list, list.Nodes()
      ensures Valid() && list.Nodes() == old(list.Nodes())
      ensures View() == Schedule.Sort(old(View()))
    {
      hide LinkedList.Formed;
      hide SelectionSort;
      hide Infos;
      hide InfoOf;
      var priorities := map s | s in screens :: s.priority;
      ghost var st := View();
      ListedItems();
      AttributesInView();
      var compare := ComparePriorities(priorities);
      WrappedSort(st.listed, ComparePriority(st), compare);
      ghost var sorted := SelectionSort(st.listed, ComparePriority(st));
      assert list.Items() == Wrapped(st.listed);
      SortedElements(st);
      list.Sort(compare);
      assert list.Items() == Wrapped(sorted);
      WrappedElements(sorted);
    }

    method CountDown(s: Screen)
      requires Valid() && s in screens
      modifies s`timeout
      ensures Valid() && s.timeout == old(s.timeout) - 1
      ensures var st, i := old(View()), old(s.Attributes());
        View() == st.(info := st.info[s := i.(timeout := i.timeout - 1)])
    {
      s.timeout := s.timeout - 1;
    }

    /** Count a frame off the current screen's life; destroy it when that is over. */
    method Expire(s: Screen, now: int)
      requires Valid() && s in screens
      modifies this`current, this`startTime, this`sent, s`timeout, list, list.Nodes()
      ensures Valid() && fresh(list.Nodes() - old(list.Nodes()))
      ensures View() == Schedule.Expire(old(View()), s, now)
    {
      hide Valid;
      hide View;
      hide Schedule.Remove;
      AttributesInView();
      if s.timeout != -1 {
        CountDown(s);
        if s.timeout <= 0 {
          if s.client {
            var removed := Remove(s, now);    // client_remove_screen
          }
          var removed := Remove(s, now);      // screen_destroy
        }
      }
    }

    /** One frame of the display. */
    method Process(now: int)
      requires Valid() && View().listed != []
      modifies this`current, this`startTime, this`sent, screens, list, list.Nodes()
      ensures Valid() && fresh(list.Nodes() - old(list.Nodes()))
      ensures View() == Schedule.Process(old(View()), autorotate, now)
    {
      hide Valid;
      hide View;
      hide Schedule.Sort;
      hide Schedule.Expire;
      hide Schedule.GotoNext;
      hide Schedule.Switch;
      Sort();
      AttributesInView();
      SortNotEmpty(old(View()));
      var f := FirstListed();
      var s := current;
      if s == null {
        Switch(f, now);
        return;
      }
      Expire(s, now);
      AttributesInView();
      if f.value.priority > s.priority {
        Switch(f, now);
        return;
      }
      if autorotate && now - startTime >= s.duration && s.priority > PRI_BACKGROUND && s.priority <= PRI_FOREGROUND {
        var moved := GotoNext(now);
      }
    }
  }

  lemma UnwrappedIs<S>(w: seq<Option<S>>, s: seq<S>)
    requires |w| == |s| && forall i :: 0 <= i < |s| ==> w[i] == Some(s[i])
    ensures (forall x :: x in w ==> x.Some?) && Unwrapped(w) == s
  {
  }

  lemma WrappedElements<S>(s: seq<S>)
    ensures forall x :: x in Wrapped(s) ==> x.Some? && x.value in s
    ensures Unwrapped(Wrapped(s)) == s
  {
    var w := Wrapped(s);
    forall x | x in w ensures x.Some? && x.value in s {
      var i :| 0 <= i < |w| && w[i] == x;
    }
    UnwrappedIs(w, s);
  }

  lemma SortedElements<S>(st: State<S>)
    ensures forall x :: x in Schedule.Sort(st).listed ==> x in st.listed
  {
    hide SelectionSort;
    var t := SelectionSort(st.listed, ComparePriority(st));
    PriorityIsOrder(st, st.listed);
    SelectionSortIsSort(st.listed, ComparePriority(st));
    assert Schedule.Sort(st).listed == t;
    forall x | x in t ensures x in st.listed {
      assert multiset(t)[x] > 0;
      assert x in multiset(st.listed);
    }
  }

  lemma SortNotEmpty<S>(st: State<S>)
    requires st.listed != []
    ensures Schedule.Sort(st).listed != []
    ensures Schedule.Sort(st).current == st.current
  {
  }

  /** A switch field by field. */
  lemma SwitchIs<S>(st: State<S>, s: Option<S>, now: int)
    ensures s.None? || s == st.current ==> Schedule.Switch(st, s, now) == st
    ensures s.Some? && s != st.current ==>
      var told := if st.current.Some? && InfoOf(st, st.current.value).client then [Ignore(st.current.value)] else [];
      var told' := if InfoOf(st, s.value).client then st.trace + told + [Listen(s.value)] else st.trace + told;
      Schedule.Switch(st, s, now) == State(st.listed, s, now, told', st.info)
  {
    assert st.trace + [] == st.trace;
  }

  lemma FirstOf<S>(st: State<S>)
    ensures First(st) == if st.listed == [] then None else Some(st.listed[0])
  {
  }

  /** Where the next screen is found. */
  lemma NextScreenIs<S>(st: State<S>, s: S)
    ensures var n, k := |st.listed|, FirstIndex(st.listed, s);
      NextScreen(st, s) ==
        if k + 1 < n && Pri(st, st.listed[k + 1]) >= Pri(st, s) then Some(st.listed[k + 1]) else First(st)
  {
  }

  lemma LastClassStep<S>(st: State<S>, k: nat)
    requires k < |st.listed|
    ensures LastOfFirstClass(st, k) ==
      if k + 1 < |st.listed| && Pri(st, st.listed[k + 1]) == Pri(st, st.listed[0]) then LastOfFirstClass(st, k + 1)
        else k
  {
  }

  lemma FirstIndexAt<S>(s: seq<S>, x: S, k: nat)
    requires k <= |s| && (forall j :: 0 <= j < k ==> s[j] != x) && (k < |s| ==> s[k] == x)
    ensures FirstIndex(s, x) == k
  {
    var t := s[..FirstIndex(s, x)];
    assert forall j :: 0 <= j < |t| ==> t[j] == s[j] && t[j] in t;
  }
}
