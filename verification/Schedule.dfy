/**
  The screen scheduler as a state machine on plain values, and what holds over its runs.
  The messages sent to clients are appended to a trace.
 */
module Schedule {
  import opened Common
  import opened Sorting

  const PRI_BACKGROUND := 1
  const PRI_INFO := 2
  const PRI_FOREGROUND := 3

  datatype Message<S> = Listen(screen: S) | Ignore(screen: S)

  /** client is false for server screens, which are never told anything. */
  datatype Info = Info(priority: int, duration: int, timeout: int, client: bool)

  /** info also covers screens that are no longer listed. */
  datatype State<S> = State(listed: seq<S>, current: Option<S>, start: int, trace: seq<Message<S>>, info: map<S, Info>)

  // ----- operations --------------------------------------------------------------------------

  function InfoOf<S(==)>(st: State<S>, s: S): Info {
    if s in st.info then st.info[s] else Info(PRI_INFO, 0, -1, false)
  }

  function Pri<S(==)>(st: State<S>, s: S): int {
    InfoOf(st, s).priority
  }

  function First<S>(st: State<S>): Option<S> {
    if st.listed == [] then None else Some(st.listed[0])
  }

  function Tell<S(==)>(st: State<S>, s: S, m: Message<S>): State<S> {
    if InfoOf(st, s).client then st.(trace := st.trace + [m]) else st
  }

  function Switch<S(==)>(st: State<S>, s: Option<S>, now: int): State<S> {
    if s.None? || s == st.current then st
    else
      var told := if st.current.Some? then Tell(st, st.current.value, Ignore(st.current.value)) else st;
      Tell(told, s.value, Listen(s.value)).(current := s, start := now)
  }

  /** The screen after the current one, or the first when that one has lower priority or there is none. */
  function NextScreen<S(==)>(st: State<S>, current: S): Option<S> {
    var k := FirstIndex(st.listed, current) + 1;
    if k < |st.listed| && Pri(st, st.listed[k]) >= Pri(st, current) then Some(st.listed[k]) else First(st)
  }

  /** The last of the screens at the front that share the first one's priority, beyond position k. */
  function LastOfFirstClass<S(==)>(st: State<S>, k: nat): (r: nat)
    requires k < |st.listed|
    ensures k <= r < |st.listed|
    decreases |st.listed| - k
  {
    if k + 1 < |st.listed| && Pri(st, st.listed[k + 1]) == Pri(st, st.listed[0]) then LastOfFirstClass(st, k + 1) else k
  }

  function PrevScreen<S(==)>(st: State<S>, current: S): Option<S> {
    var n := |st.listed|;
    var k := FirstIndex(st.listed, current);
    var at := if k < n then k else n - 1;    // the cursor stays on the last node when current is not listed
    if at > 0 then Some(st.listed[at - 1])
    else if n == 0 then None
    else Some(st.listed[LastOfFirstClass(st, 0)])
  }

  function GotoNext<S(==)>(st: State<S>, now: int): State<S> {
    if st.current.None? then st else Switch(st, NextScreen(st, st.current.value), now)
  }

  function GotoPrev<S(==)>(st: State<S>, now: int): State<S> {
    if st.current.None? then st else Switch(st, PrevScreen(st, st.current.value), now)
  }

  function Without<S(==)>(s: seq<S>, x: S): seq<S> {
    var k := FirstIndex(s, x);
    if k < |s| then s[..k] + s[k + 1..] else s
  }

  function Add<S>(st: State<S>, s: S): State<S> {
    st.(listed := st.listed + [s])
  }

  /** Leave the screen first if it is current; if there was nowhere to go, leave it once it is gone. */
  function Remove<S(==)>(st: State<S>, s: S, now: int): State<S> {
    if st.current == Some(s) then
      var moved := GotoNext(st, now);
      var removed := moved.(listed := Without(moved.listed, s));
      if moved.current == Some(s) then GotoNext(removed, now) else removed
    else st.(listed := Without(st.listed, s))
  }

  function ComparePriority<S(==)>(st: State<S>): (S, S) -> int {
    (a, b) => Pri(st, b) - Pri(st, a)
  }

  function Sort<S(==)>(st: State<S>): State<S> {
    st.(listed := SelectionSort(st.listed, ComparePriority(st)))
  }

  /** Count the current screen's timeout down; when it runs out the screen is removed, for a client's screen twice. */
  function Expire<S(==)>(st: State<S>, s: S, now: int): State<S> {
    var i := InfoOf(st, s);
    if i.timeout == -1 || s !in st.info then st
    else
      var counted := st.(info := st.info[s := i.(timeout := i.timeout - 1)]);
      if i.timeout - 1 > 0 then counted
      else if i.client then Remove(Remove(counted, s, now), s, now)
      else Remove(counted, s, now)
  }

  predicate Rotates<S(==)>(st: State<S>, s: S, autorotate: bool, now: int) {
    && autorotate && now - st.start >= InfoOf(st, s).duration
    && PRI_BACKGROUND < Pri(st, s) <= PRI_FOREGROUND
  }

  /** One frame.  s, the screen that was current, is still consulted after it has expired. */
  function Process<S(==)>(st: State<S>, autorotate: bool, now: int): State<S>
    requires st.listed != []
  {
    var sorted := Sort(st);
    var f := sorted.listed[0];
    if st.current.None? then Switch(sorted, Some(f), now)
    else
      var s := st.current.value;
      var st' := Expire(sorted, s, now);
      if Pri(st', f) > Pri(st', s) then Switch(st', Some(f), now)
      else if Rotates(st', s, autorotate, now) then GotoNext(st', now)
      else st'
  }

  // ----- the invariant of every run ------------------------------------------------------------

  /** The messages about one screen. */
  function About<S(==)>(trace: seq<Message<S>>, s: S): seq<Message<S>> {
    if trace == [] then []
    else About(trace[..|trace| - 1], s) + (if trace[|trace| - 1].screen == s then [trace[|trace| - 1]] else [])
  }

  /** Listen, ignore, listen, .. */
  ghost predicate Alternates<S>(messages: seq<Message<S>>) {
    forall i :: 0 <= i < |messages| ==> (messages[i].Listen? <==> i % 2 == 0)
  }

  /** The messages about s alternate, and the last one is a listen exactly when s is current. */
  ghost predicate Informed<S>(st: State<S>, s: S) {
    && Alternates(About(st.trace, s))
    && (|About(st.trace, s)| % 2 == 1 <==> InfoOf(st, s).client && st.current == Some(s))
  }

  ghost predicate AllInformed<S>(st: State<S>) {
    && (st.current.Some? ==> st.current.value in st.info)
    && forall s :: s in st.info ==> Informed(st, s)
  }

  /** The menu screen is always listed and never expires, and the current screen is always listed. */
  ghost predicate Inv<S>(st: State<S>, menu: S) {
    && Distinct(st.listed)
    && menu in st.listed && InfoOf(st, menu).timeout == -1
    && (st.current.Some? ==> st.current.value in st.listed)
    && (forall s :: s in st.listed ==> s in st.info)
    && AllInformed(st)
  }

  lemma AboutAppend<S>(trace: seq<Message<S>>, m: Message<S>, s: S)
    ensures About(trace + [m], s) == About(trace, s) + if m.screen == s then [m] else []
  {
    assert (trace + [m])[..|trace|] == trace;
  }

  lemma TellInforms<S>(st: State<S>, x: S, m: Message<S>, s: S)
    requires m.screen == x
    ensures About(Tell(st, x, m).trace, s) == About(st.trace, s) + if x == s && InfoOf(st, s).client then [m] else []
  {
    AboutAppend(st.trace, m, s);
  }

  lemma SwitchInforms<S>(st: State<S>, to: Option<S>, now: int, s: S)
    requires Informed(st, s)
    ensures Informed(Switch(st, to, now), s)
  {
    hide About;
    if to.Some? && to != st.current {
      var told := if st.current.Some? then Tell(st, st.current.value, Ignore(st.current.value)) else st;
      if st.current.Some? {
        TellInforms(st, st.current.value, Ignore(st.current.value), s);
      }
      TellInforms(told, to.value, Listen(to.value), s);
    }
  }

  lemma SwitchKeeps<S>(st: State<S>, to: Option<S>, now: int)
    requires AllInformed(st) && (to.Some? ==> to.value in st.info)
    ensures var st' := Switch(st, to, now);
      && AllInformed(st') && st'.listed == st.listed && st'.info == st.info
      && st'.current == if to.Some? then to else st.current
  {
    forall s | s in st.info ensures Informed(Switch(st, to, now), s) {
      SwitchInforms(st, to, now, s);
    }
  }

  lemma WithoutIs<S>(s: seq<S>, x: S)
    requires Distinct(s)
    ensures Distinct(Without(s, x)) && forall y :: y in Without(s, x) <==> y in s && y != x
  {
    var k, t := FirstIndex(s, x), Without(s, x);
    if k < |s| {
      assert forall i :: 0 <= i < |t| ==> t[i] == s[if i < k then i else i + 1];
      forall y ensures y in t <==> y in s && y != x {
        if y in s && y != x {
          var i :| 0 <= i < |s| && s[i] == y;
          assert t[if i < k then i else i - 1] == y;
        }
      }
    }
  }

  lemma GotoNextKeeps<S>(st: State<S>, now: int)
    requires AllInformed(st) && forall s :: s in st.listed ==> s in st.info
    ensures var st' := GotoNext(st, now);
      && AllInformed(st') && st'.listed == st.listed && st'.info == st.info
      && (st.current.Some? && st.listed != [] ==> st'.current.Some? && st'.current.value in st.listed)
  {
    if st.current.Some? {
      SwitchKeeps(st, NextScreen(st, st.current.value), now);
    }
  }

  lemma GotoPrevKeeps<S>(st: State<S>, now: int)
    requires AllInformed(st) && forall s :: s in st.listed ==> s in st.info
    ensures var st' := GotoPrev(st, now);
      && AllInformed(st') && st'.listed == st.listed && st'.info == st.info
      && (st.current.Some? && st.listed != [] ==> st'.current.Some? && st'.current.value in st.listed)
  {
    if st.current.Some? {
      SwitchKeeps(st, PrevScreen(st, st.current.value), now);
    }
  }

  lemma RemoveKeeps<S>(st: State<S>, s: S, now: int, menu: S)
    requires Inv(st, menu) && s != menu
    ensures var st' := Remove(st, s, now);
      Inv(st', menu) && st'.listed == Without(st.listed, s) && st'.info == st.info && s !in st'.listed
    ensures st.current.Some? ==> Remove(st, s, now).current.Some?
  {
    hide Informed;
    WithoutIs(st.listed, s);
    if st.current == Some(s) {
      GotoNextKeeps(st, now);
      var moved := GotoNext(st, now);
      var removed := moved.(listed := Without(moved.listed, s));
      Unlisted(moved, removed.listed);
      GotoNextKeeps(removed, now);
    } else {
      Unlisted(st, Without(st.listed, s));
    }
  }

  /** Who is informed of what does not depend on the list. */
  lemma Unlisted<S>(st: State<S>, listed: seq<S>)
    requires AllInformed(st)
    ensures AllInformed(st.(listed := listed))
  {
    forall s | s in st.info ensures Informed(st.(listed := listed), s) {
      assert Informed(st, s);
    }
  }

  lemma PriorityIsOrder<S>(st: State<S>, s: seq<S>)
    ensures StrictOrder(s, ComparePriority(st))
  {
  }

  ghost predicate Descending<S>(st: State<S>) {
    forall i, j :: 0 <= i < j < |st.listed| ==> Pri(st, st.listed[i]) >= Pri(st, st.listed[j])
  }

  lemma DistinctCounts<S>(s: seq<S>)
    ensures Distinct(s) <==> forall x :: x in s ==> multiset(s)[x] == 1
  {
    if s == [] {
    } else {
      var n := |s| - 1;
      DistinctCounts(s[..n]);
      assert s == s[..n] + [s[n]];
      assert multiset(s) == multiset(s[..n]) + multiset{s[n]};
      if !Distinct(s) {
        var x := if Distinct(s[..n]) then s[n] else var x :| x in s[..n] && multiset(s[..n])[x] != 1; x;
        assert Distinct(s[..n]) ==> x in s[..n];
        assert x in s && multiset(s)[x] > 1;
      }
    }
  }

  lemma SortedIsDescending<S>(st: State<S>, listed: seq<S>)
    ensures Sorted(listed, ComparePriority(st)) <==> Descending(st.(listed := listed))
  {
    var cmp, st' := ComparePriority(st), st.(listed := listed);
    if Sorted(listed, cmp) {
      forall i, j | 0 <= i < j < |listed| ensures Pri(st', listed[i]) >= Pri(st', listed[j]) {
        assert cmp(listed[i], listed[j]) <= 0;
      }
    } else {
      var i, j :| 0 <= i < j < |listed| && cmp(listed[i], listed[j]) > 0;
      assert Pri(st', listed[i]) < Pri(st', listed[j]);
    }
  }

  lemma SortIs<S>(st: State<S>)
    ensures Sort(st) == st.(listed := SelectionSort(st.listed, ComparePriority(st)))
  {
  }

  lemma SortOrders<S>(st: State<S>)
    ensures Descending(Sort(st)) && multiset(Sort(st).listed) == multiset(st.listed)
    ensures Sort(st) == st <==> Descending(st)
    ensures Sort(st) == st.(listed := Sort(st).listed)
  {
    hide *;
    SortIs(st);
    PriorityIsOrder(st, st.listed);
    SelectionSortIsSort(st.listed, ComparePriority(st));
    SortedIsDescending(st, Sort(st).listed);
    SortedIsDescending(st, st.listed);
    assert st == st.(listed := st.listed);
  }

  /** A list with the same screens in another order. */
  lemma ReorderedKeeps<S>(st: State<S>, listed: seq<S>, menu: S)
    requires multiset(listed) == multiset(st.listed) && Inv(st, menu)
    ensures Inv(st.(listed := listed), menu)
  {
    hide AllInformed;
    hide Distinct;
    SameElements(st.listed, listed);
    DistinctCounts(st.listed);
    DistinctCounts(listed);
    Unlisted(st, listed);
  }

  lemma SortKeeps<S>(st: State<S>, menu: S)
    ensures Descending(Sort(st)) && multiset(Sort(st).listed) == multiset(st.listed)
    ensures Sort(st) == st <==> Descending(st)
    ensures Inv(st, menu) ==> Inv(Sort(st), menu)
    ensures Sort(st).current == st.current && Sort(st).info == st.info && (st.listed != [] ==> Sort(st).listed != [])
  {
    hide *;
    SortOrders(st);
    SameElements(st.listed, Sort(st).listed);
    if Inv(st, menu) {
      ReorderedKeeps(st, Sort(st).listed, menu);
    }
  }

  /** Changing other attributes than client tells nobody anything. */
  lemma Reconfigured<S>(st: State<S>, s: S, i: Info)
    requires AllInformed(st) && (if s in st.info then i.client == st.info[s].client else About(st.trace, s) == [])
    requires st.current == Some(s) ==> s in st.info
    ensures AllInformed(st.(info := st.info[s := i]))
  {
    var st' := st.(info := st.info[s := i]);
    forall x | x in st'.info ensures Informed(st', x) {
      assert x in st.info ==> Informed(st, x);
    }
  }

  /** The timeout of the screen runs out with this frame. */
  predicate TimesOut<S(==)>(st: State<S>, s: S) {
    InfoOf(st, s).timeout != -1 && InfoOf(st, s).timeout <= 1
  }

  /**
    Exactly the screen whose timeout runs out leaves the list, and another one becomes current; any
    other timeout drops by one.
   */
  lemma ExpireKeeps<S>(st: State<S>, s: S, now: int, menu: S)
    requires Inv(st, menu) && st.current == Some(s)
    ensures var st' := Expire(st, s, now);
      && Inv(st', menu) && st'.current.Some?
      && st'.listed == (if TimesOut(st, s) then Without(st.listed, s) else st.listed)
      && (if TimesOut(st, s) then s != menu && st'.current != Some(s) else st'.current == st.current)
      && (var t := InfoOf(st, s).timeout; InfoOf(st', s).timeout == if t == -1 then -1 else t - 1)
      && forall x :: Pri(st', x) == Pri(st, x)
  {
    hide AllInformed;
    hide Remove;
    hide Without;
    hide Distinct;
    var i := InfoOf(st, s);
    if i.timeout != -1 {
      var counted := st.(info := st.info[s := i.(timeout := i.timeout - 1)]);
      Reconfigured(st, s, i.(timeout := i.timeout - 1));
      if i.timeout - 1 <= 0 {
        RemoveKeeps(counted, s, now, menu);
        if i.client {
          RemoveKeeps(Remove(counted, s, now), s, now, menu);
          WithoutAbsent(Remove(counted, s, now).listed, s);
        }
      }
    }
  }

  lemma WithoutAbsent<S>(s: seq<S>, x: S)
    requires x !in s
    ensures Without(s, x) == s
  {
  }

  lemma ProcessKeeps<S>(st: State<S>, autorotate: bool, now: int, menu: S)
    requires Inv(st, menu)
    ensures Inv(Process(st, autorotate, now), menu)
    ensures Process(st, autorotate, now).current.Some?
  {
    hide AllInformed;
    hide Descending;
    hide Distinct;
    hide Expire;
    hide GotoNext;
    hide Switch;
    hide Sort;
    SortKeeps(st, menu);
    var sorted := Sort(st);
    var f := sorted.listed[0];
    if st.current.None? {
      SwitchKeeps(sorted, Some(f), now);
    } else {
      var s := st.current.value;
      ExpireKeeps(sorted, s, now, menu);
      var st' := Expire(sorted, s, now);
      if Pri(st', f) > Pri(st', s) {
        WithoutIs(sorted.listed, s);
        SwitchKeeps(st', Some(f), now);
      } else {
        GotoNextKeeps(st', now);
      }
    }
  }

  // ----- runs -----------------------------------------------------------------------------------

  /** What clients, keys, the menu and the clock do.  Configure sets the attributes of a screen, new or old. */
  datatype Op<S> = AddOp(s: S) | RemoveOp(s: S, t: int) | ProcessOp(autorotate: bool, t: int)
    | NextOp(t: int) | PrevOp(t: int) | Configure(s: S, info: Info)

  function Step<S(==)>(st: State<S>, op: Op<S>): State<S>
    requires op.ProcessOp? ==> st.listed != []
  {
    match op
    case AddOp(s) => Add(st, s)
    case RemoveOp(s, t) => Remove(st, s, t)
    case ProcessOp(autorotate, t) => Process(st, autorotate, t)
    case NextOp(t) => GotoNext(st, t)
    case PrevOp(t) => GotoPrev(st, t)
    case Configure(s, info) => st.(info := st.info[s := info])
  }

  /** A screen is created before it is added and is not added twice; the menu screen is never removed or timed. */
  predicate Allowed<S(==)>(st: State<S>, op: Op<S>, menu: S) {
    match op
    case AddOp(s) => s in st.info && s !in st.listed
    case RemoveOp(s, _) => s != menu
    case Configure(s, info) =>
      && (s == menu ==> info.timeout == -1)
      && (if s in st.info then info.client == st.info[s].client else About(st.trace, s) == [])
    case _ => true
  }

  /** A screen is added behind all others. */
  lemma AddGoesLast<S>(st: State<S>, s: S)
    ensures var r := Add(st, s).listed;
      |r| == |st.listed| + 1 && r[|st.listed|] == s && forall i :: 0 <= i < |st.listed| ==> r[i] == st.listed[i]
  {
  }

  lemma AddedIsDistinct<S>(s: seq<S>, x: S)
    requires Distinct(s) && x !in s
    ensures Distinct(s + [x])
  {
  }

  lemma StepKeeps<S>(st: State<S>, op: Op<S>, menu: S)
    requires Inv(st, menu) && Allowed(st, op, menu)
    ensures Inv(Step(st, op), menu)
    ensures st.current.Some? ==> Step(st, op).current.Some?
  {
    hide AllInformed;
    hide Distinct;
    hide Remove;
    hide Process;
    hide Switch;
    hide NextScreen;
    hide PrevScreen;
    match op
    case AddOp(s) =>
      Unlisted(st, st.listed + [s]);
      AddedIsDistinct(st.listed, s);
    case RemoveOp(s, t) => RemoveKeeps(st, s, t, menu);
    case ProcessOp(autorotate, t) => ProcessKeeps(st, autorotate, t, menu);
    case NextOp(t) => GotoNextKeeps(st, t);
    case PrevOp(t) => GotoPrevKeeps(st, t);
    case Configure(s, info) => Reconfigured(st, s, info);
  }

  /** states is a run of ops. */
  ghost predicate IsRun<S>(states: seq<State<S>>, ops: seq<Op<S>>, menu: S) {
    && |states| == |ops| + 1
    && forall i :: 0 <= i < |ops| ==>
      && (ops[i].ProcessOp? ==> states[i].listed != [])
      && Allowed(states[i], ops[i], menu) && states[i + 1] == Step(states[i], ops[i])
  }

  lemma RunStep<S>(states: seq<State<S>>, ops: seq<Op<S>>, menu: S, n: nat)
    requires IsRun(states, ops, menu) && 0 < n < |states|
    ensures n - 1 < |ops| && (ops[n - 1].ProcessOp? ==> states[n - 1].listed != [])
    ensures Allowed(states[n - 1], ops[n - 1], menu) && states[n] == Step(states[n - 1], ops[n - 1])
  {
  }

  /** At every point of every run the current screen is listed and every screen has been told exactly the truth. */
  lemma {:induction false} RunKeepsInvariant<S>(states: seq<State<S>>, ops: seq<Op<S>>, menu: S, n: nat)
    requires IsRun(states, ops, menu) && Inv(states[0], menu) && n < |states|
    ensures Inv(states[n], menu)
    ensures states[0].current.Some? ==> states[n].current.Some?
  {
    hide *;
    if n > 0 {
      RunKeepsInvariant(states, ops, menu, n - 1);
      RunStep(states, ops, menu, n);
      StepKeeps(states[n - 1], ops[n - 1], menu);
    }
  }
}
