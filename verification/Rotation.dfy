/** What the scheduler shows, and how it rotates among the screens of the highest priority. */
module Rotation {
  import opened Common
  import opened Schedule
  import opened Sorting

  ghost predicate Top<S>(st: State<S>, s: S) {
    forall x :: x in st.listed ==> Pri(st, x) <= Pri(st, s)
  }

  // ----- the highest priority is always shown ------------------------------------------------

  lemma FirstIsTop<S>(st: State<S>)
    requires Descending(st) && st.listed != []
    ensures Top(st, st.listed[0])
  {
    forall x | x in st.listed ensures Pri(st, x) <= Pri(st, st.listed[0]) {
      var i :| 0 <= i < |st.listed| && st.listed[i] == x;
    }
  }

  lemma NextIsTop<S>(st: State<S>, now: int)
    requires Descending(st) && st.listed != [] && st.current.Some? && Top(st, st.current.value)
    ensures var st' := GotoNext(st, now);
      st'.current.Some? && Top(st', st'.current.value) && st'.listed == st.listed && st'.info == st.info
  {
    FirstIsTop(st);
  }

  lemma WithoutDescends<S>(st: State<S>, s: S)
    requires Descending(st) && Distinct(st.listed)
    ensures Descending(st.(listed := Without(st.listed, s)))
  {
    hide FirstIndex;
    var k, t := FirstIndex(st.listed, s), Without(st.listed, s);
    FirstIndexFacts(st.listed, s);
    if k < |st.listed| {
      assert forall i :: 0 <= i < |t| ==> t[i] == st.listed[if i < k then i else i + 1];
    }
  }

  lemma RemoveShowsTop<S>(st: State<S>, s: S, now: int, menu: S)
    requires Inv(st, menu) && Descending(st) && s != menu && st.current == Some(s) && Top(st, s)
    ensures var st' := Remove(st, s, now); st'.current.Some? && Top(st', st'.current.value) && Descending(st')
  {
    hide AllInformed;
    hide Without;
    RemoveKeeps(st, s, now, menu);
    NextIsTop(st, now);
    WithoutIs(st.listed, s);
    WithoutDescends(st, s);
    var moved := GotoNext(st, now);
    var removed := moved.(listed := Without(moved.listed, s));
    if moved.current == Some(s) {
      NextIsTop(removed, now);
    }
  }

  lemma RemoveTwice<S>(st: State<S>, s: S, now: int, menu: S)
    requires Inv(st, menu) && s != menu
    ensures Remove(Remove(st, s, now), s, now) == Remove(st, s, now)
  {
    hide AllInformed;
    RemoveKeeps(st, s, now, menu);
    WithoutAbsent(Remove(st, s, now).listed, s);
  }

  lemma RemoveDescends<S>(st: State<S>, s: S, now: int, menu: S)
    requires Inv(st, menu) && Descending(st) && s != menu && st.current == Some(s)
    ensures var st' := Remove(st, s, now);
      && Descending(st') && (Top(st, s) ==> Top(st', st'.current.value))
      && forall x :: x in st'.listed ==> x in st.listed
  {
    hide AllInformed;
    RemoveKeeps(st, s, now, menu);
    WithoutIs(st.listed, s);
    WithoutDescends(st, s);
    if Top(st, s) {
      RemoveShowsTop(st, s, now, menu);
    }
  }

  function Counted<S(==)>(st: State<S>, s: S): (r: State<S>) {
    var i := InfoOf(st, s);
    st.(info := st.info[s := i.(timeout := i.timeout - 1)])
  }

  lemma CountedSame<S>(st: State<S>, s: S, menu: S)
    requires Inv(st, menu) && s in st.info && s != menu
    ensures var st' := Counted(st, s);
      && Inv(st', menu) && forall x :: Pri(st', x) == Pri(st, x)
  {
    var i := InfoOf(st, s);
    Reconfigured(st, s, i.(timeout := i.timeout - 1));
  }

  lemma ExpireCases<S>(st: State<S>, s: S, now: int, menu: S)
    requires Inv(st, menu) && st.current == Some(s)
    ensures var st' := Expire(st, s, now);
      st' == st || (s != menu && (st' == Counted(st, s) || st' == Remove(Counted(st, s), s, now)))
  {
    hide AllInformed;
    hide Remove;
    if InfoOf(st, s).timeout != -1 {
      CountedSame(st, s, menu);
      RemoveTwice(Counted(st, s), s, now, menu);
    }
  }

  lemma SamePriorities<S>(st: State<S>, st': State<S>)
    requires st.listed == st'.listed && forall x :: Pri(st', x) == Pri(st, x)
    ensures Descending(st') == Descending(st) && forall x :: Top(st', x) == Top(st, x)
  {
  }

  lemma ExpireShowsTop<S>(st: State<S>, s: S, now: int, menu: S)
    requires Inv(st, menu) && Descending(st) && st.current == Some(s)
    ensures var st' := Expire(st, s, now);
      && st'.listed != [] && st'.current.Some? && Descending(st')
      && (Top(st, s) ==> Top(st', st'.current.value))
      && (forall x :: x in st'.listed ==> x in st.listed)
      && (forall x :: Pri(st', x) == Pri(st, x))
  {
    hide AllInformed;
    hide Remove;
    hide Expire;
    hide Descending;
    hide Top;
    ExpireKeeps(st, s, now, menu);
    ExpireCases(st, s, now, menu);
    if s != menu {
      var counted := Counted(st, s);
      CountedSame(st, s, menu);
      SamePriorities(st, counted);
      RemoveDescends(counted, s, now, menu);
    }
  }

  /** After every frame a listed screen of the highest priority is current, also when one has just expired. */
  lemma ProcessShowsTop<S>(st: State<S>, autorotate: bool, now: int, menu: S)
    requires Inv(st, menu)
    ensures var st' := Process(st, autorotate, now);
      st'.current.Some? && st'.current.value in st'.listed && Top(st', st'.current.value)
  {
    hide AllInformed;
    hide Sort;
    hide Expire;
    hide GotoNext;
    hide Descending;
    ProcessKeeps(st, autorotate, now, menu);
    SortKeeps(st, menu);
    var sorted := Sort(st);
    var f := sorted.listed[0];
    FirstIsTop(sorted);
    if st.current.Some? {
      var s := st.current.value;
      ExpireShowsTop(sorted, s, now, menu);
      var st' := Expire(sorted, s, now);
      if Pri(st', f) <= Pri(st', s) {
        NextIsTop(st', now);
      }
    }
  }

  // ----- next and previous --------------------------------------------------------------------

  lemma {:induction false} FirstIndexOfDistinct<S>(s: seq<S>, i: nat)
    requires Distinct(s) && i < |s|
    ensures FirstIndex(s, s[i]) == i
  {
    var k := FirstIndex(s, s[i]);
    assert k == i;
  }

  /** The number of screens sharing the highest priority. */
  function ClassSize<S(==)>(st: State<S>): (k: nat)
    requires st.listed != []
    ensures 1 <= k <= |st.listed|
  {
    LastOfFirstClass(st, 0) + 1
  }

  lemma {:induction false} ClassFrom<S>(st: State<S>, k: nat)
    requires Descending(st) && k < |st.listed|
    requires forall j :: 0 <= j <= k ==> Pri(st, st.listed[j]) == Pri(st, st.listed[0])
    ensures var r := LastOfFirstClass(st, k);
      && (forall j :: 0 <= j <= r ==> Pri(st, st.listed[j]) == Pri(st, st.listed[0]))
      && (forall j :: r < j < |st.listed| ==> Pri(st, st.listed[j]) < Pri(st, st.listed[0]))
    decreases |st.listed| - k
  {
    if k + 1 < |st.listed| && Pri(st, st.listed[k + 1]) == Pri(st, st.listed[0]) {
      ClassFrom(st, k + 1);
    }
  }

  /** The first ClassSize screens are exactly those of the highest priority. */
  lemma ClassIsTop<S>(st: State<S>, j: nat)
    requires Descending(st) && j < |st.listed|
    ensures j < ClassSize(st) <==> Pri(st, st.listed[j]) == Pri(st, st.listed[0])
    ensures j >= ClassSize(st) ==> Pri(st, st.listed[j]) < Pri(st, st.listed[0])
  {
    ClassFrom(st, 0);
  }

  /** Where the next key leads from position i: on within the class, else back to the front. */
  function NextIndex<S(==)>(st: State<S>, i: nat): (j: nat)
    requires i < |st.listed|
    ensures j < |st.listed|
  {
    if i + 1 < |st.listed| && Pri(st, st.listed[i + 1]) == Pri(st, st.listed[i]) then i + 1 else 0
  }

  function PrevIndex<S(==)>(st: State<S>, i: nat): (j: nat)
    requires i < |st.listed|
    ensures j < |st.listed|
  {
    if i > 0 then i - 1 else ClassSize(st) - 1
  }

  lemma GotoByIndex<S>(st: State<S>, i: nat, now: int)
    requires Distinct(st.listed) && Descending(st) && i < |st.listed| && st.current == Some(st.listed[i])
    ensures GotoNext(st, now) == Switch(st, Some(st.listed[NextIndex(st, i)]), now)
    ensures GotoPrev(st, now) == Switch(st, Some(st.listed[PrevIndex(st, i)]), now)
  {
    FirstIndexOfDistinct(st.listed, i);
  }

  lemma PrevOfNextIndex<S>(st: State<S>, i: nat)
    requires Descending(st) && i < |st.listed|
    ensures PrevIndex(st, NextIndex(st, i)) == i <==>
      i < ClassSize(st) || (i + 1 < |st.listed| && Pri(st, st.listed[i + 1]) == Pri(st, st.listed[i]))
  {
    hide ClassSize;
    hide InfoOf;
    ClassIsTop(st, i);
    ClassIsTop(st, ClassSize(st) - 1);
    if i + 1 < |st.listed| {
      ClassIsTop(st, i + 1);
    }
  }

  lemma NextOfPrevIndex<S>(st: State<S>, i: nat)
    requires Descending(st) && i < |st.listed|
    ensures NextIndex(st, PrevIndex(st, i)) == i <==> i == 0 || Pri(st, st.listed[i - 1]) == Pri(st, st.listed[i])
  {
    hide ClassSize;
    hide InfoOf;
    ClassIsTop(st, ClassSize(st) - 1);
    if ClassSize(st) < |st.listed| {
      ClassIsTop(st, ClassSize(st));
    }
  }

  lemma SwitchTo<S>(st: State<S>, s: S, now: int)
    ensures var st' := Switch(st, Some(s), now);
      st'.listed == st.listed && st'.info == st.info && st'.current == Some(s)
    ensures st.current == Some(s) ==> Switch(st, Some(s), now) == st
    ensures st.current != Some(s) ==> Switch(st, Some(s), now).start == now
  {
  }

  lemma SameElement<S>(s: seq<S>, i: nat, j: nat)
    requires Distinct(s) && i < |s| && j < |s|
    ensures s[i] == s[j] <==> i == j
  {
  }

  /**
    On a sorted list the previous key undoes the next key exactly when the current screen is of the
    highest priority or is followed by one of its own; otherwise next goes to the front and previous
    comes back to the end of the first class.
   */
  lemma PrevUndoesNext<S>(st: State<S>, i: nat, now: int, later: int)
    requires Distinct(st.listed) && Descending(st) && i < |st.listed| && st.current == Some(st.listed[i])
    ensures GotoPrev(GotoNext(st, now), later).current == st.current <==>
      i < ClassSize(st) || (i + 1 < |st.listed| && Pri(st, st.listed[i + 1]) == Pri(st, st.listed[i]))
  {
    hide *;
    var j := NextIndex(st, i);
    var st' := GotoNext(st, now);
    GotoByIndex(st, i, now);
    SwitchTo(st, st.listed[j], now);
    SameClass(st, st');
    GotoByIndex(st', j, later);
    SwitchTo(st', st.listed[PrevIndex(st', j)], later);
    SameElement(st.listed, i, PrevIndex(st, j));
    PrevOfNextIndex(st, i);
  }

  /** The next key undoes the previous key exactly when no class boundary was crossed upwards. */
  lemma NextUndoesPrev<S>(st: State<S>, i: nat, now: int, later: int)
    requires Distinct(st.listed) && Descending(st) && i < |st.listed| && st.current == Some(st.listed[i])
    ensures GotoNext(GotoPrev(st, now), later).current == st.current <==>
      i == 0 || Pri(st, st.listed[i - 1]) == Pri(st, st.listed[i])
  {
    hide *;
    var j := PrevIndex(st, i);
    var st' := GotoPrev(st, now);
    GotoByIndex(st, i, now);
    SwitchTo(st, st.listed[j], now);
    SameClass(st, st');
    GotoByIndex(st', j, later);
    SwitchTo(st', st.listed[NextIndex(st', j)], later);
    SameElement(st.listed, i, NextIndex(st, j));
    NextOfPrevIndex(st, i);
  }

  lemma SameClass<S>(st: State<S>, st': State<S>)
    requires st.listed == st'.listed && st.info == st'.info && st.listed != []
    ensures ClassSize(st) == ClassSize(st') && Descending(st) == Descending(st')
    ensures forall i: nat :: i < |st.listed| ==>
      PrevIndex(st, i) == PrevIndex(st', i) && NextIndex(st, i) == NextIndex(st', i)
  {
    SameClassFrom(st, st', 0);
  }

  lemma {:induction false} SameClassFrom<S>(st: State<S>, st': State<S>, k: nat)
    requires st.listed == st'.listed && st.info == st'.info && k < |st.listed|
    ensures LastOfFirstClass(st, k) == LastOfFirstClass(st', k)
    decreases |st.listed| - k
  {
    if k + 1 < |st.listed| {
      SameClassFrom(st, st', k + 1);
    }
  }

  // ----- when a frame changes the screen --------------------------------------------------------

  /** Some listed screen has a higher priority. */
  ghost predicate Overtaken<S>(st: State<S>, s: S) {
    exists x :: x in st.listed && Pri(st, x) > Pri(st, s)
  }

  /** Another listed screen has the same priority. */
  ghost predicate Shared<S>(st: State<S>, s: S) {
    exists x :: x in st.listed && x != s && Pri(st, x) == Pri(st, s)
  }

  lemma NextMoves<S>(st: State<S>, i: nat, now: int)
    requires Distinct(st.listed) && Descending(st) && i < |st.listed| && st.current == Some(st.listed[i])
    requires Top(st, st.listed[i])
    ensures GotoNext(st, now).current != st.current <==> Shared(st, st.listed[i])
    ensures GotoNext(st, now).current == st.current ==> GotoNext(st, now) == st
  {
    hide GotoNext;
    hide Switch;
    hide ClassSize;
    hide InfoOf;
    hide Descending;
    var n, k := |st.listed|, ClassSize(st);
    ClassIsTop(st, i);
    assert i < k by { assert st.listed[0] in st.listed; }
    NextInClass(st, i);
    GotoByIndex(st, i, now);
    var j := Succ(st, i);
    SwitchTo(st, st.listed[j], now);
    SameElement(st.listed, i, j);
    if k == 1 {
      forall x | x in st.listed && x != st.listed[i] ensures Pri(st, x) != Pri(st, st.listed[i]) {
        var m :| 0 <= m < n && st.listed[m] == x;
        ClassIsTop(st, m);
      }
    } else {
      ClassIsTop(st, j);
      assert st.listed[j] in st.listed;
    }
  }

  /** A frame in which nothing times out only counts down before it looks for another screen. */
  lemma ExpireLeaves<S>(st: State<S>, s: S, now: int, menu: S)
    requires Inv(st, menu) && st.current == Some(s) && !TimesOut(st, s)
    ensures var st' := Expire(st, s, now);
      && st'.listed == st.listed && st'.current == st.current && st'.start == st.start && st'.trace == st.trace
      && InfoOf(st', s).duration == InfoOf(st, s).duration && forall x :: Pri(st', x) == Pri(st, x)
  {
    hide AllInformed;
    hide Remove;
  }

  lemma OvertakenByFirst<S>(st: State<S>, st': State<S>, s: S)
    requires Descending(st') && st'.listed != [] && st'.info == st.info
    requires forall x :: x in st'.listed <==> x in st.listed
    ensures Overtaken(st, s) <==> Pri(st', st'.listed[0]) > Pri(st', s)
    ensures !Overtaken(st, s) ==> Top(st', s)
    ensures Shared(st, s) <==> Shared(st', s)
  {
    FirstIsTop(st');
    assert forall x :: Pri(st', x) == Pri(st, x);
    var f := st'.listed[0];
    assert f in st.listed;
    if Overtaken(st, s) {
      var x :| x in st.listed && Pri(st, x) > Pri(st, s);
      assert x in st'.listed && Pri(st', x) <= Pri(st', f);
    }
    if Shared(st, s) {
      var x :| x in st.listed && x != s && Pri(st, x) == Pri(st, s);
      assert x in st'.listed;
    }
  }

  lemma SteadyProcess<S>(st: State<S>, sorted: State<S>, autorotate: bool, now: int, menu: S)
    requires Inv(st, menu) && st.current.Some? && !TimesOut(st, st.current.value) && sorted == Sort(st)
    ensures var s, st' := st.current.value, Process(st, autorotate, now);
      && (st'.current != st.current <==>
        || Overtaken(st, s)
        || (autorotate && now - st.start >= InfoOf(st, s).duration && 2 <= Pri(st, s) <= 3 && Shared(st, s)))
      && (st'.current == st.current ==> st'.start == st.start && st'.trace == st.trace)
  {
    hide AllInformed;
    hide Sort;
    hide Expire;
    hide GotoNext;
    hide Switch;
    hide InfoOf;
    hide Descending;
    hide Overtaken;
    hide Shared;
    hide Top;
    hide Distinct;
    var s := st.current.value;
    SortKeeps(st, menu);
    SortLeaves(st);
    SameElements(st.listed, sorted.listed);
    OvertakenByFirst(st, sorted, s);
    TimesOutLikewise(st, sorted, s);
    ExpireLeaves(sorted, s, now, menu);
    var st', f := Expire(sorted, s, now), sorted.listed[0];
    SamePriorities(sorted, st');
    SharedLikewise(sorted, st', s);
    if Pri(st', f) > Pri(st', s) {
      SwitchTo(st', f, now);
    } else {
      var i :| 0 <= i < |st'.listed| && st'.listed[i] == s;
      NextMoves(st', i, now);
    }
  }

  lemma SortLeaves<S>(st: State<S>)
    ensures Sort(st).current == st.current && Sort(st).start == st.start
    ensures Sort(st).trace == st.trace && Sort(st).info == st.info
  {
  }

  lemma TimesOutLikewise<S>(st: State<S>, st': State<S>, s: S)
    requires st.info == st'.info
    ensures TimesOut(st, s) == TimesOut(st', s) && InfoOf(st, s) == InfoOf(st', s) && Pri(st, s) == Pri(st', s)
  {
  }

  lemma SharedLikewise<S>(st: State<S>, st': State<S>, s: S)
    requires st.listed == st'.listed && forall x :: Pri(st', x) == Pri(st, x)
    ensures Shared(st, s) <==> Shared(st', s)
  {
  }

  lemma ExpiredIsLeft<S>(st: State<S>, autorotate: bool, now: int, menu: S)
    requires Inv(st, menu) && st.current.Some? && TimesOut(st, st.current.value)
    ensures Process(st, autorotate, now).current != st.current
  {
    hide AllInformed;
    hide Sort;
    hide Expire;
    hide GotoNext;
    hide Switch;
    hide Descending;
    hide Distinct;
    hide Without;
    var s, sorted := st.current.value, Sort(st);
    SortKeeps(st, menu);
    TimesOutLikewise(st, sorted, s);
    ExpireKeeps(sorted, s, now, menu);
    WithoutIs(sorted.listed, s);
    var st', f := Expire(sorted, s, now), sorted.listed[0];
    SwitchTo(st', f, now);
    GotoNextKeeps(st', now);
  }

  /**
    A frame changes the screen exactly when its timeout runs out, when a listed screen has a higher
    priority, or when screens rotate, it has been on for its duration, it is of the priority info or
    foreground and shares that with another one.  Otherwise nobody is told anything.
   */
  lemma FrameChangesIff<S>(st: State<S>, autorotate: bool, now: int, menu: S)
    requires Inv(st, menu) && st.current.Some?
    ensures var s, st' := st.current.value, Process(st, autorotate, now); var i := InfoOf(st, s);
      && (st'.current != st.current <==>
        || (i.timeout != -1 && i.timeout <= 1)
        || (exists x :: x in st.listed && Pri(st, x) > i.priority)
        || (autorotate && now - st.start >= i.duration && 2 <= i.priority <= 3
            && exists x :: x in st.listed && x != s && Pri(st, x) == i.priority))
      && (st'.current == st.current ==> st'.start == st.start && st'.trace == st.trace)
  {
    hide Process;
    hide Inv;
    if TimesOut(st, st.current.value) {
      ExpiredIsLeft(st, autorotate, now, menu);
    } else {
      SteadyProcess(st, Sort(st), autorotate, now, menu);
    }
  }

  // ----- rotation -------------------------------------------------------------------------------

  /** Frames a screen of the class stays on: its duration, but at least one. */
  function Stay<S(==)>(st: State<S>, j: nat): (d: nat)
    requires j < |st.listed|
    ensures d >= 1
  {
    var d := InfoOf(st, st.listed[j]).duration;
    if d < 1 then 1 else d
  }

  /** The screen after i in the cycle of the class. */
  function Succ<S(==)>(st: State<S>, i: nat): (r: nat)
    requires st.listed != [] && i < ClassSize(st)
    ensures r < ClassSize(st)
  {
    if i + 1 < ClassSize(st) then i + 1 else 0
  }

  /** The j-th screen after i. */
  function Turn<S(==)>(st: State<S>, i: nat, j: nat): (r: nat)
    requires st.listed != [] && i < ClassSize(st)
    ensures r < ClassSize(st)
    decreases j
  {
    if j == 0 then i else Turn(st, Succ(st, i), j - 1)
  }

  /** Frames from the moment screen i is shown until j further screens have had their turn. */
  function Span<S(==)>(st: State<S>, i: nat, j: nat): (n: nat)
    requires st.listed != [] && i < ClassSize(st)
    decreases j
  {
    if j == 0 then 0 else Stay(st, i) + Span(st, Succ(st, i), j - 1)
  }

  /** The state after n frames with autorotation, the clock going from now to now + n. */
  function Frames<S(==)>(st: State<S>, now: int, n: nat): State<S> {
    if n == 0 then st
    else
      var before := Frames(st, now, n - 1);
      if before.listed == [] then before else Process(before, true, now + n)
  }

  /** A fixed set of screens, sorted, whose class of highest priority rotates and does not time out. */
  ghost predicate Rotating<S>(st: State<S>) {
    && Distinct(st.listed) && Descending(st)
    && st.listed != [] && PRI_BACKGROUND < Pri(st, st.listed[0]) <= PRI_FOREGROUND
    && forall s :: s in st.listed ==> InfoOf(st, s).timeout == -1
  }

  /** st, but screen i has been current since start. */
  ghost predicate Shows<S>(st: State<S>, base: State<S>, i: nat, start: int) {
    && st.listed == base.listed && st.info == base.info
    && i < |st.listed| && st.current == Some(st.listed[i]) && st.start == start
  }

  lemma NextInClass<S>(st: State<S>, i: nat)
    requires st.listed != [] && Descending(st) && i < ClassSize(st)
    ensures NextIndex(st, i) == Succ(st, i)
    ensures Pri(st, st.listed[i]) == Pri(st, st.listed[0])
  {
    hide ClassSize;
    hide InfoOf;
    ClassIsTop(st, i);
    if i + 1 < |st.listed| {
      ClassIsTop(st, i + 1);
    }
  }

  /** A frame among rotating screens either changes nothing or moves on to the next of the class. */
  lemma SteadyFrame<S>(st: State<S>, i: nat, now: int)
    requires Rotating(st) && i < ClassSize(st) && st.current == Some(st.listed[i])
    ensures Process(st, true, now) ==
      if now - st.start >= InfoOf(st, st.listed[i]).duration
      then Switch(st, Some(st.listed[Succ(st, i)]), now) else st
  {
    hide ClassSize;
    hide Descending;
    hide Sort;
    hide GotoNext;
    hide Switch;
    SortKeeps(st, st.listed[0]);
    NextInClass(st, i);
    GotoByIndex(st, i, now);
    assert st.listed[i] in st.listed;
  }

  /** Before the stay of screen i is over a frame changes nothing; the first frame from then on shows the next one. */
  lemma FrameSteps<S>(st: State<S>, base: State<S>, i: nat, start: int, now: int)
    requires Rotating(base) && 2 <= ClassSize(base) && i < ClassSize(base) && Shows(st, base, i, start)
    requires now > start
    ensures now - start < Stay(base, i) ==> Process(st, true, now) == st
    ensures now - start >= Stay(base, i) ==> Shows(Process(st, true, now), base, Succ(base, i), now)
  {
    hide ClassSize;
    hide Process;
    hide Switch;
    SameClass(base, st);
    assert Rotating(st) by {
      hide Descending;
      hide Distinct;
    }
    SteadyFrame(st, i, now);
    var next := Succ(base, i);
    SameElement(st.listed, i, next);
    SwitchTo(st, st.listed[next], now);
  }

  /** A screen that is alone in its class stays on. */
  lemma {:induction false} OnlyScreenStays<S>(st: State<S>, now: int, n: nat)
    requires Rotating(st) && ClassSize(st) == 1 && st.current == Some(st.listed[0])
    ensures Frames(st, now, n) == st
  {
    hide ClassSize;
    hide Descending;
    hide Distinct;
    hide Process;
    hide Switch;
    if n > 0 {
      OnlyScreenStays(st, now, n - 1);
      SteadyFrame(st, 0, now + n);
      SwitchTo(st, st.listed[0], now + n);
    }
  }

  /** Turns and spans add up along the cycle. */
  lemma {:induction false} SpanAdds<S>(st: State<S>, i: nat, a: nat, b: nat)
    requires st.listed != [] && i < ClassSize(st)
    ensures Turn(st, i, a + b) == Turn(st, Turn(st, i, a), b)
    ensures Span(st, i, a + b) == Span(st, i, a) + Span(st, Turn(st, i, a), b)
    decreases a
  {
    hide ClassSize;
    hide Stay;
    hide Succ;
    if a > 0 {
      SpanAdds(st, Succ(st, i), a - 1, b);
    }
  }

  /**
    The exact rotation schedule: Span(i, j) frames after screen i was shown the j-th screen after it
    is shown, and it stays on for its own time.
   */
  lemma {:induction false} RotationSchedule<S>(st: State<S>, base: State<S>, i: nat, now: int, j: nat, n: nat)
    requires Rotating(base) && 2 <= ClassSize(base) && i < ClassSize(base) && Shows(st, base, i, now)
    requires n < Stay(base, Turn(base, i, j))
    ensures Shows(Frames(st, now, Span(base, i, j) + n), base, Turn(base, i, j), now + Span(base, i, j))
    decreases j, n
  {
    hide ClassSize;
    hide Descending;
    hide Distinct;
    hide Process;
    hide Stay;
    hide Succ;
    var t := Span(base, i, j) + n;
    if n > 0 {
      RotationSchedule(st, base, i, now, j, n - 1);
      FrameSteps(Frames(st, now, t - 1), base, Turn(base, i, j), now + Span(base, i, j), now + t);
    } else if j > 0 {
      var p := Turn(base, i, j - 1);
      SpanAdds(base, i, j - 1, 1);
      RotationSchedule(st, base, i, now, j - 1, Stay(base, p) - 1);
      FrameSteps(Frames(st, now, t - 1), base, p, now + Span(base, i, j - 1), now + t);
    }
  }

  function SumStay<S(==)>(st: State<S>, a: nat, b: nat): (n: nat)
    requires a <= b <= |st.listed|
    decreases b - a
  {
    if a == b then 0 else Stay(st, a) + SumStay(st, a + 1, b)
  }

  lemma {:induction false} SumStayAdds<S>(st: State<S>, a: nat, b: nat, c: nat)
    requires a <= b <= c <= |st.listed|
    ensures SumStay(st, a, c) == SumStay(st, a, b) + SumStay(st, b, c)
    decreases b - a
  {
    if a < b {
      SumStayAdds(st, a + 1, b, c);
    }
  }

  lemma {:induction false} SpanWithin<S>(st: State<S>, i: nat, j: nat)
    requires st.listed != [] && i < ClassSize(st) && i + j <= ClassSize(st)
    ensures Span(st, i, j) == SumStay(st, i, i + j)
    ensures Turn(st, i, j) == if i + j < ClassSize(st) then i + j else 0
    decreases j
  {
    hide ClassSize;
    hide Stay;
    if j > 1 {
      SpanWithin(st, i + 1, j - 1);
    }
  }

  /** A full round comes back to its start and takes the stays of all screens of the class together. */
  lemma RoundTime<S>(st: State<S>, i: nat)
    requires st.listed != [] && i < ClassSize(st)
    ensures Span(st, i, ClassSize(st)) == SumStay(st, 0, ClassSize(st))
    ensures Turn(st, i, ClassSize(st)) == i
  {
    hide *;
    var k := ClassSize(st);
    SpanAdds(st, i, k - i, i);
    SpanWithin(st, i, k - i);
    SpanWithin(st, 0, i);
    SumStayAdds(st, 0, i, k);
  }

  lemma {:induction false} FramesAdd<S>(st: State<S>, now: int, a: nat, b: nat)
    ensures Frames(st, now, a + b) == Frames(Frames(st, now, a), now + a, b)
    decreases b
  {
    hide Process;
    if b > 0 {
      FramesAdd(st, now, a, b - 1);
    }
  }

  lemma {:induction false} StayPut<S>(st: State<S>, base: State<S>, i: nat, start: int, now: int, n: nat)
    requires Rotating(base) && 2 <= ClassSize(base) && i < ClassSize(base) && Shows(st, base, i, start)
    requires start <= now && (n > 0 ==> now + n - start < Stay(base, i))
    ensures Frames(st, now, n) == st
  {
    hide ClassSize;
    hide Rotating;
    hide Process;
    hide Stay;
    if n > 0 {
      StayPut(st, base, i, start, now, n - 1);
      FrameSteps(st, base, i, start, now + n);
    }
  }

  /** Frames until a screen that has been on for some time, perhaps longer than its stay, gives way to the next one. */
  function Rest<S(==)>(st: State<S>, i: nat, elapsed: nat): (n: nat)
    requires i < |st.listed|
    ensures 1 <= n <= Stay(st, i)
  {
    if elapsed < Stay(st, i) then Stay(st, i) - elapsed else 1
  }

  lemma GivesWay<S>(st: State<S>, base: State<S>, i: nat, start: int, now: int)
    requires Rotating(base) && 2 <= ClassSize(base) && i < ClassSize(base) && Shows(st, base, i, start)
    requires start <= now
    ensures var n := Rest(base, i, now - start); Shows(Frames(st, now, n), base, Succ(base, i), now + n)
  {
    hide ClassSize;
    hide Rotating;
    hide Process;
    hide Stay;
    var n := Rest(base, i, now - start);
    StayPut(st, base, i, start, now, n - 1);
    FrameSteps(st, base, i, start, now + n);
  }

  /** The turns it takes to come from screen i to screen m, a whole round from i to i. */
  lemma TurnsTo<S>(st: State<S>, i: nat, m: nat) returns (j: nat)
    requires st.listed != [] && i < ClassSize(st) && m < ClassSize(st)
    ensures 1 <= j <= ClassSize(st) && Turn(st, i, j) == m && Span(st, i, j) <= SumStay(st, 0, ClassSize(st))
  {
    hide *;
    var k := ClassSize(st);
    j := if m > i then m - i else m + k - i;
    if m > i {
      SpanWithin(st, i, m - i);
    } else {
      SpanAdds(st, i, k - i, m);
      SpanWithin(st, i, k - i);
      SpanWithin(st, 0, m);
    }
    SpanAdds(st, i, j, k - j);
    RoundTime(st, i);
  }

  /**
    Fairness, from any tick of the rotation and however long screen i has been on: every screen of
    the class is current after some frame of the next round.
   */
  lemma EveryScreenIsShown<S>(st: State<S>, base: State<S>, i: nat, start: int, now: int, m: nat)
    returns (n: nat, since: int)
    requires Rotating(base) && i < ClassSize(base) && Shows(st, base, i, start) && start <= now
    requires m < ClassSize(base)
    ensures 1 <= n <= SumStay(base, 0, ClassSize(base))
    ensures Shows(Frames(st, now, n), base, m, since) && since <= now + n
  {
    hide *;
    var k := ClassSize(base);
    if k == 1 {
      n, since := 1, start;
      AloneInClass(st, base, i, start, now);
    } else {
      n := Rest(base, i, now - start);
      GivesWay(st, base, i, start, now);
      var j := TurnsTo(base, i, m);
      var next, more := Succ(base, i), Span(base, Succ(base, i), j - 1);
      FirstTurn(base, i, j);
      RotationSchedule(Frames(st, now, n), base, next, now + n, j - 1, 0);
      FramesAdd(st, now, n, more);
      n := n + more;
      since := now + n;
    }
  }

  lemma FirstTurn<S>(st: State<S>, i: nat, j: nat)
    requires st.listed != [] && i < ClassSize(st) && j > 0
    ensures Turn(st, i, j) == Turn(st, Succ(st, i), j - 1)
    ensures Span(st, i, j) == Stay(st, i) + Span(st, Succ(st, i), j - 1)
  {
    hide ClassSize;
    hide Stay;
    hide Succ;
  }

  lemma AloneInClass<S>(st: State<S>, base: State<S>, i: nat, start: int, now: int)
    requires Rotating(base) && ClassSize(base) == 1 && i < 1 && Shows(st, base, i, start)
    ensures Shows(Frames(st, now, 1), base, 0, start) && SumStay(base, 0, 1) >= 1
  {
    hide ClassSize;
    hide Frames;
    SameClass(base, st);
    assert Rotating(st) by {
      hide Descending;
      hide Distinct;
    }
    OnlyScreenStays(st, now, 1);
  }

  lemma FrameGoesOn<S>(st: State<S>, base: State<S>, i: nat, start: int, now: int) returns (i': nat, start': int)
    requires Rotating(base) && i < ClassSize(base) && Shows(st, base, i, start) && start < now
    ensures i' < ClassSize(base) && Shows(Process(st, true, now), base, i', start') && start' <= now
  {
    hide ClassSize;
    hide Rotating;
    hide Process;
    i', start' := i, start;
    if ClassSize(base) == 1 {
      AloneInClass(st, base, i, start, now - 1);
      assert Frames(st, now - 1, 1) == Process(st, true, now);
    } else {
      FrameSteps(st, base, i, start, now);
      if now - start >= Stay(base, i) {
        i', start' := Succ(base, i), now;
      }
    }
  }

  /** At every later tick some screen of the class is on, so that fairness holds from there again. */
  lemma {:induction false} RotationGoesOn<S>(st: State<S>, base: State<S>, i: nat, start: int, now: int, t: nat)
    returns (i': nat, start': int)
    requires Rotating(base) && i < ClassSize(base) && Shows(st, base, i, start) && start <= now
    ensures i' < ClassSize(base) && Shows(Frames(st, now, t), base, i', start') && start' <= now + t
  {
    hide ClassSize;
    hide Rotating;
    hide Process;
    hide Stay;
    i', start' := i, start;
    if t > 0 {
      i', start' := RotationGoesOn(st, base, i, start, now, t - 1);
      i', start' := FrameGoesOn(Frames(st, now, t - 1), base, i', start', now + t);
    }
  }
}
