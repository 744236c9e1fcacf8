/**
  GNU getopt, short options, in PERMUTE order.

  The specification is a plain left-to-right scan of the arguments (`Scan`).  The class keeps the
  static variables of the implementation, permutes argv in place, and is proved to return the
  options of the scan one call at a time and to leave argv stably partitioned.
 */
module Getopt {
  import opened Common

  // ----- the simple scan -------------------------------------------------------------------

  /** What one call reports: the returned character and optarg. */
  datatype Event = Event(c: char, optarg: Option<string>)

  /** The whole outcome of scanning: the reports, and the two classes of elements in their original order. */
  datatype Outcome = Outcome(events: seq<Event>, options: seq<string>, operands: seq<string>) {
    /** This outcome is what remains of before after one report. */
    ghost predicate Reported(c: char, optarg: Option<string>, before: Outcome) {
      before == this.(events := [Event(c, optarg)] + events)
    }

    /** This outcome with earlier reports put in front. */
    ghost function After(earlier: seq<Event>): Outcome {
      this.(events := earlier + events)
    }
  }

  datatype Kind = Unknown | NoArgument | RequiredArgument | OptionalArgument

  /** An element that is not an option: it does not start with '-', or it is exactly "-". */
  predicate IsNonoption(s: string) {
    |s| < 2 || s[0] != '-'
  }

  function IndexOf(s: string, c: char): (r: Option<nat>)
    ensures r.None? <==> c !in s
    ensures r.Some? ==> r.value < |s| && s[r.value] == c && c !in s[..r.value]
  {
    var k := FirstIndex(s, c);
    assert s[..|s|] == s;
    if k < |s| then Some(k) else None
  }

  /** What the option string says about an option character. */
  function KindOf(optstring: string, c: char): Kind {
    var at := IndexOf(optstring, c);
    if at.None? || c == ':' then Unknown
    else if [c, ':', ':'] <= optstring[at.value..] then OptionalArgument
    else if [c, ':'] <= optstring[at.value..] then RequiredArgument
    else NoArgument
  }

  /** "W;" would map -W to long options, which are not modelled. */
  predicate Supported(optstring: string) {
    && (optstring != [] ==> optstring[0] != '+' && optstring[0] != '-')
    && forall i :: 0 <= i < |optstring| - 1 && optstring[i] == 'W' ==> optstring[i + 1] != ';'
  }

  /**
    One option character of a cluster: its report, what is left of the cluster, and whether it takes
    the next element.
   */
  function Decode(cluster: string, hasNext: bool, next: string, optstring: string): (r: (Event, string, bool))
    requires cluster != ""
    ensures |r.1| < |cluster|
    ensures r.2 ==> hasNext
  {
    var c, tail := cluster[0], cluster[1..];
    match KindOf(optstring, c)
    case Unknown => (Event('?', None), tail, false)
    case NoArgument => (Event(c, None), tail, false)
    case OptionalArgument => (Event(c, if tail == "" then None else Some(tail)), "", false)
    case RequiredArgument =>
      if tail != "" then (Event(c, Some(tail)), "", false)
      else if hasNext then (Event(c, Some(next)), "", true)
      else (Event(if optstring != "" && optstring[0] == ':' then ':' else '?', None), "", false)
  }

  /** Scan the rest of a cluster and then the remaining elements, from left to right. */
  function Scan(cluster: string, todo: seq<string>, optstring: string): Outcome
    decreases |todo|, |cluster|
  {
    if cluster != "" then
      var (event, tail, takesNext) := Decode(cluster, todo != [], if todo == [] then "" else todo[0], optstring);
      var taken := if takesNext then 1 else 0;
      var rest := Scan(tail, todo[taken..], optstring);
      Outcome([event] + rest.events, todo[..taken] + rest.options, rest.operands)
    else if todo == [] then Outcome([], [], [])
    else if todo[0] == "--" then Outcome([], ["--"], todo[1..])
    else if IsNonoption(todo[0]) then
      var rest := Scan("", todo[1..], optstring);
      rest.(operands := [todo[0]] + rest.operands)
    else
      var rest := Scan(todo[0][1..], todo[1..], optstring);
      rest.(options := [todo[0]] + rest.options)
  }

  // ----- the scan is a stable partition ----------------------------------------------------

  /** The elements of s whose flag equals keep, in order. */
  function Select(s: seq<string>, flags: seq<bool>, keep: bool): (r: seq<string>)
    requires |s| == |flags|
  {
    if s == [] then []
    else (if flags[0] == keep then [s[0]] else []) + Select(s[1..], flags[1..], keep)
  }

  lemma {:induction false} SelectConstant(s: seq<string>, flag: bool)
    ensures Select(s, seq(|s|, _ => flag), flag) == s
    ensures Select(s, seq(|s|, _ => flag), !flag) == []
  {
    if s != [] {
      SelectConstant(s[1..], flag);
      assert seq(|s|, _ => flag)[1..] == seq(|s| - 1, _ => flag);
    }
  }

  lemma SelectFirst(s: seq<string>, flag: bool, rest: seq<bool>, keep: bool)
    requires s != [] && |rest| == |s| - 1
    ensures Select(s, [flag] + rest, keep) == (if flag == keep then [s[0]] else []) + Select(s[1..], rest, keep)
  {
    assert ([flag] + rest)[1..] == rest;
  }

  /** Behind "--", everything is an operand. */
  lemma DashesProtect(todo: seq<string>) returns (flags: seq<bool>)
    requires todo != [] && todo[0] == "--"
    ensures |flags| == |todo| && Select(todo, flags, true) == ["--"] && Select(todo, flags, false) == todo[1..]
    ensures forall i :: 0 <= i < |todo| && !flags[i] ==> "--" in Select(todo[..i], flags[..i], true)
  {
    var rest := seq(|todo| - 1, _ => false);
    flags := [true] + rest;
    SelectConstant(todo[1..], false);
    SelectFirst(todo, true, rest, true);
    SelectFirst(todo, true, rest, false);
    forall i | 0 <= i < |todo| && !flags[i] ensures "--" in Select(todo[..i], flags[..i], true) {
      assert Select(todo[..i], flags[..i], true)[0] == "--";
    }
  }

  /** Every element goes to exactly one side and neither side is reordered. */
  lemma {:induction false} ScanIsStablePartition(cluster: string, todo: seq<string>, optstring: string)
    returns (flags: seq<bool>)
    ensures |flags| == |todo|
    ensures Scan(cluster, todo, optstring).options == Select(todo, flags, true)
    ensures Scan(cluster, todo, optstring).operands == Select(todo, flags, false)
    ensures forall i :: 0 <= i < |todo| && !flags[i] && !IsNonoption(todo[i]) ==>
      "--" in Select(todo[..i], flags[..i], true)
    decreases |todo|, |cluster|
  {
    hide KindOf;
    hide Select;
    if cluster != "" {
      var (event, tail, takesNext) := Decode(cluster, todo != [], if todo == [] then "" else todo[0], optstring);
      var taken := if takesNext then 1 else 0;
      var rest := ScanIsStablePartition(tail, todo[taken..], optstring);
      if takesNext {
        flags := [true] + rest;
        SelectFirst(todo, true, rest, true);
        SelectFirst(todo, true, rest, false);
        PartitionStep(todo, rest, true);
      } else {
        assert todo[taken..] == todo;
        flags := rest;
      }
    } else if todo == [] {
      flags := [];
      SelectNothing();
    } else if todo[0] == "--" {
      flags := DashesProtect(todo);
    } else {
      var isOption := !IsNonoption(todo[0]);
      var rest := ScanIsStablePartition(if isOption then todo[0][1..] else "", todo[1..], optstring);
      flags := [isOption] + rest;
      SelectFirst(todo, isOption, rest, true);
      SelectFirst(todo, isOption, rest, false);
      PartitionStep(todo, rest, isOption);
    }
  }

  lemma SelectNothing()
    ensures Select([], [], true) == [] && Select([], [], false) == []
  {
  }

  lemma PartitionStep(todo: seq<string>, rest: seq<bool>, first: bool)
    requires todo != [] && |rest| == |todo| - 1
    requires first || IsNonoption(todo[0])
    requires forall i :: 0 <= i < |rest| && !rest[i] && !IsNonoption(todo[1..][i]) ==>
      "--" in Select(todo[1..][..i], rest[..i], true)
    ensures forall i :: 0 <= i < |todo| && !([first] + rest)[i] && !IsNonoption(todo[i]) ==>
      "--" in Select(todo[..i], ([first] + rest)[..i], true)
  {
    var flags := [first] + rest;
    forall i | 0 <= i < |todo| && !flags[i] && !IsNonoption(todo[i])
      ensures "--" in Select(todo[..i], flags[..i], true)
    {
      assert i > 0 && todo[1..][i - 1] == todo[i] && rest[i - 1] == flags[i];
      assert todo[..i][1..] == todo[1..][..i - 1] && flags[..i][1..] == rest[..i - 1];
    }
  }

  /** Scanning the operands of a finished scan again reports nothing, unless "--" had protected some of them. */
  lemma {:induction false} RescanIsSilent(cluster: string, todo: seq<string>, optstring: string)
    requires "--" !in Scan(cluster, todo, optstring).options
    ensures var operands := Scan(cluster, todo, optstring).operands;
            Scan("", operands, optstring) == Outcome([], [], operands)
    decreases |todo|, |cluster|
  {
    if cluster != "" {
      var (event, tail, takesNext) := Decode(cluster, todo != [], if todo == [] then "" else todo[0], optstring);
      RescanIsSilent(tail, todo[if takesNext then 1 else 0..], optstring);
    } else if todo != [] && todo[0] != "--" {
      RescanIsSilent(if IsNonoption(todo[0]) then "" else todo[0][1..], todo[1..], optstring);
    }
  }

  /** Skipping a run of operands. */
  lemma {:induction false} ScanSkips(skipped: seq<string>, todo: seq<string>, optstring: string)
    requires forall s :: s in skipped ==> IsNonoption(s)
    ensures var rest := Scan("", todo, optstring);
            Scan("", skipped + todo, optstring) == rest.(operands := skipped + rest.operands)
  {
    hide Scan;
    var rest := Scan("", todo, optstring).operands;
    if skipped == [] {
      assert skipped + todo == todo && skipped + rest == rest;
    } else {
      ScanSkips(skipped[1..], todo, optstring);
      ScanOperand(skipped[0], skipped[1..] + todo, optstring);
      assert skipped + todo == [skipped[0]] + (skipped[1..] + todo);
      assert skipped + rest == [skipped[0]] + (skipped[1..] + rest);
    }
  }

  lemma ScanDecodes(cluster: string, todo: seq<string>, optstring: string)
    requires cluster != ""
    ensures var (event, tail, takesNext) := Decode(cluster, todo != [], if todo == [] then "" else todo[0], optstring);
      var taken := if takesNext then 1 else 0;
      var rest := Scan(tail, todo[taken..], optstring);
      Scan(cluster, todo, optstring) == Outcome([event] + rest.events, todo[..taken] + rest.options, rest.operands)
  {
  }

  lemma ScanOperand(operand: string, todo: seq<string>, optstring: string)
    requires IsNonoption(operand)
    ensures var rest := Scan("", todo, optstring);
            Scan("", [operand] + todo, optstring) == rest.(operands := [operand] + rest.operands)
  {
    assert ([operand] + todo)[1..] == todo;
  }

  // ----- the implementation ------------------------------------------------------------------

  /** s with the len elements at a and the len elements at b exchanged. */
  function Swapped(s: seq<string>, a: int, b: int, len: int): seq<string>
    requires 0 <= a && 0 <= len && a + len <= b && b + len <= |s|
  {
    seq(|s|, i requires 0 <= i < |s| =>
      if a <= i < a + len then s[b + (i - a)]
      else if b <= i < b + len then s[a + (i - b)]
      else s[i])
  }

  method SwapBlocks(argv: array<string>, a: int, b: int, len: int)
    requires 0 <= a && 0 <= len && a + len <= b && b + len <= argv.Length
    modifies argv
    ensures argv[..] == Swapped(old(argv[..]), a, b, len)
  {
    ghost var was := argv[..];
    for i := 0 to len
      invariant argv[..] == Swapped(was, a, b, i)
    {
      SwappedStep(was, a, b, i);
      assert argv[a + i] == argv[..][a + i] && argv[b + i] == argv[..][b + i];
      argv[a + i], argv[b + i] := argv[b + i], argv[a + i];
    }
  }

  lemma SwappedStep(s: seq<string>, a: int, b: int, i: int)
    requires 0 <= a && 0 <= i && a + i < b && b + i < |s|
    ensures var t := Swapped(s, a, b, i);
            Swapped(s, a, b, i + 1) == t[a + i := t[b + i]][b + i := t[a + i]]
  {
  }

  class Getopt {
    var optind: int
    var optarg: Option<string>
    var optopt: char
    var nextchar: string     // "" stands for both NULL and the empty string: they are treated alike
    var firstNonopt: int
    var lastNonopt: int
    var initialized: bool

    /** The next call will start a new scan. */
    ghost predicate Fresh()
      reads this`optind, this`initialized
    {
      optind == 0 || !initialized
    }

    // optind may have been moved back by the caller, or by the final return -1.
    ghost predicate Valid(argv: array<string>)
      reads this`optind, this`initialized, this`firstNonopt, this`lastNonopt, this`nextchar
    {
      && 1 <= argv.Length
      && 0 <= optind <= argv.Length
      && (!Fresh() ==> 1 <= firstNonopt <= lastNonopt <= argv.Length)
      && (!Fresh() && nextchar != "" ==> lastNonopt <= optind < argv.Length)
    }

    ghost function Position(): int reads this`optind { if optind == 0 then 1 else optind }

    /** The block [Lo, Hi) holds the operands skipped so far. */
    ghost function Lo(): int
      reads this`optind, this`initialized, this`firstNonopt
    {
      if Fresh() || firstNonopt > optind then Position() else firstNonopt
    }

    ghost function Hi(): int
      reads this`optind, this`initialized, this`lastNonopt
    {
      if Fresh() || lastNonopt > optind then Position() else lastNonopt
    }

    /** The option characters of the current element that are still to be reported. */
    ghost function Cluster(): string
      reads this`optind, this`initialized, this`nextchar
    {
      if Fresh() then "" else nextchar
    }

    /** The first element of argv that no option character has been taken from yet. */
    ghost function Boundary(): int
      reads this`optind, this`initialized, this`nextchar
    {
      if Cluster() != "" then optind + 1 else Position()
    }

    ghost function Done(argv: array<string>): seq<string>
      requires Valid(argv)
      reads this`optind, this`initialized, this`firstNonopt, this`lastNonopt, this`nextchar, argv
    {
      argv[1..Lo()] + argv[Hi()..Boundary()]
    }

    ghost function Skipped(argv: array<string>): seq<string>
      requires Valid(argv)
      reads this`optind, this`initialized, this`firstNonopt, this`lastNonopt, this`nextchar, argv
    {
      argv[Lo()..Hi()]
    }

    ghost function Todo(argv: array<string>): seq<string>
      requires Valid(argv)
      reads this`optind, this`initialized, this`firstNonopt, this`lastNonopt, this`nextchar, argv
    {
      argv[Boundary()..]
    }

    /** The outcome of the whole command line, as far as this state determines it. */
    ghost function Pending(argv: array<string>, optstring: string): Outcome
      requires Valid(argv)
      reads this`optind, this`initialized, this`firstNonopt, this`lastNonopt, this`nextchar, argv
    {
      var rest := Scan(Cluster(), Todo(argv), optstring);
      Outcome(rest.events, Done(argv) + rest.options, Skipped(argv) + rest.operands)
    }

    constructor ()
      ensures optind == 1 && !initialized && nextchar == ""
    {
      optind, optarg, optopt := 1, None, '?';
      nextchar, firstNonopt, lastNonopt, initialized := "", 0, 0, false;
    }

    /**
      Exchange the block of skipped operands with the block of options after it, by swapping the
      shorter one into place.
     */
    method Exchange(argv: array<string>)
      requires 0 <= firstNonopt <= lastNonopt <= optind <= argv.Length
      modifies this`firstNonopt, this`lastNonopt, argv
      ensures argv[..] == Rotated(old(argv[..]), old(firstNonopt), old(lastNonopt), optind)
      ensures lastNonopt == optind
      ensures firstNonopt == old(firstNonopt + (optind - lastNonopt))
    {
      hide Rotated;
      hide Swapped;
      var bottom, middle, top := firstNonopt, lastNonopt, optind;
      ghost var goal := Rotated(argv[..], bottom, middle, top);
      while top > middle && middle > bottom
        invariant 0 <= old(firstNonopt) <= bottom <= middle <= top <= optind <= argv.Length
        invariant middle == lastNonopt && firstNonopt == old(firstNonopt)
        invariant Rotated(argv[..], bottom, middle, top) == goal
      {
        label L:
        if top - middle > middle - bottom {
          var len := middle - bottom;
          SwapBlocks(argv, bottom, top - len, len);
          RotateShortBottom(old@L(argv[..]), argv[..], bottom, middle, top);
          top := top - len;
        } else {
          var len := top - middle;
          SwapBlocks(argv, bottom, middle, len);
          RotateShortTop(old@L(argv[..]), argv[..], bottom, middle, top);
          bottom := bottom + len;
        }
      }
      RotatedTrivially(argv[..], bottom, middle, top);
      firstNonopt := firstNonopt + (optind - lastNonopt);
      lastNonopt := optind;
    }

    method Initialize(ghost argv: array<string>, ghost optstring: string)
      requires Valid(argv) && Fresh()
      modifies this`optind, this`firstNonopt, this`lastNonopt, this`nextchar, this`initialized
      ensures !Fresh() && nextchar == "" && optind == firstNonopt == lastNonopt == old(Position())
      ensures Valid(argv) && Pending(argv, optstring) == old(Pending(argv, optstring))
      ensures Todo(argv) == old(Todo(argv)) && Cluster() == old(Cluster())
    {
      if optind == 0 {
        optind := 1;
      }
      firstNonopt, lastNonopt, nextchar, initialized := optind, optind, "", true;
    }

    /** Bring the options found since the last operand block forward. */
    method BringForward(argv: array<string>)
      requires Valid(argv) && !Fresh() && nextchar == ""
      modifies this`firstNonopt, this`lastNonopt, argv
      ensures 1 <= firstNonopt <= optind
      ensures firstNonopt == lastNonopt ==> firstNonopt == optind
      ensures argv[0] == old(argv[0])
      ensures argv[1..firstNonopt] == old(Done(argv))
      ensures argv[firstNonopt..optind] == old(Skipped(argv))
      ensures argv[optind..] == old(Todo(argv))
    {
      hide Rotated;
      if lastNonopt > optind {
        lastNonopt := optind;
      }
      if firstNonopt > optind {
        firstNonopt := optind;
      }
      if firstNonopt != lastNonopt && lastNonopt != optind {
        RotatedParts(argv[..], firstNonopt, lastNonopt, optind);
        label L:
        Exchange(argv);
        assert argv[1..firstNonopt] == argv[..][1..firstNonopt];
        assert argv[firstNonopt..optind] == argv[..][firstNonopt..optind];
      } else if lastNonopt != optind {
        firstNonopt := optind;
      }
    }

    /** Pass over the operands at optind. */
    method SkipOperands(argv: array<string>, ghost optstring: string) returns (ghost passed: seq<string>)
      requires 1 <= optind <= argv.Length
      modifies this`optind
      ensures old(optind) <= optind <= argv.Length
      ensures optind < argv.Length ==> !IsNonoption(argv[optind])
      ensures passed == argv[old(optind)..optind]
      ensures var rest := Scan("", argv[optind..], optstring);
        Scan("", argv[old(optind)..], optstring) == rest.(operands := passed + rest.operands)
    {
      hide Scan;
      ghost var start := optind;
      while optind < argv.Length && IsNonoption(argv[optind])
        invariant start <= optind <= argv.Length
        invariant forall s :: s in argv[start..optind] ==> IsNonoption(s)
      {
        optind := optind + 1;
      }
      passed := argv[start..optind];
      ScanSkips(passed, argv[optind..], optstring);
      assert argv[start..] == passed + argv[optind..];
    }

    /** "--" counts as an option; everything after it is an operand. */
    method EndOfOptions(argv: array<string>)
      requires 1 <= firstNonopt <= lastNonopt == optind < argv.Length
      modifies this`optind, this`firstNonopt, this`lastNonopt, argv
      ensures 1 <= firstNonopt <= argv.Length == optind == lastNonopt
      ensures argv[0] == old(argv[0])
      ensures argv[1..firstNonopt] == old(argv[1..firstNonopt] + [argv[optind]])
      ensures argv[firstNonopt..] == old(argv[firstNonopt..optind] + argv[optind + 1..])
    {
      hide Rotated;
      optind := optind + 1;
      ghost var before := argv[..];
      if firstNonopt != lastNonopt && lastNonopt != optind {
        RotatedByOne(before, firstNonopt, lastNonopt);
        Exchange(argv);
        ghost var after := argv[..];
        assert after[0] == argv[0] && after[1..firstNonopt] == argv[1..firstNonopt]
          && after[firstNonopt..] == argv[firstNonopt..];
      } else if firstNonopt == lastNonopt {
        firstNonopt := optind;
      }
      lastNonopt := argv.Length;
      optind := argv.Length;
    }

    /** The outcome when the options before optind are in place and no element from optind on is scanned. */
    ghost function Settled(argv: array<string>, optstring: string): Outcome
      requires 1 <= firstNonopt <= optind <= argv.Length
      reads this`optind, this`firstNonopt, argv
    {
      var rest := Scan("", argv[optind..], optstring);
      Outcome(rest.events, argv[1..firstNonopt] + rest.options, argv[firstNonopt..optind] + rest.operands)
    }

    method Permute(argv: array<string>, optstring: string)
      requires Valid(argv) && !Fresh() && nextchar == ""
      modifies this`optind, this`firstNonopt, this`lastNonopt, argv
      ensures 1 <= firstNonopt <= lastNonopt == optind <= argv.Length
      ensures optind < argv.Length ==> !IsNonoption(argv[optind])
      ensures argv[0] == old(argv[0]) && argv.Length - optind <= old(|Todo(argv)|)
      ensures Settled(argv, optstring) == old(Pending(argv, optstring))
    {
      hide Scan;
      ghost var done, skipped, todo := Done(argv), Skipped(argv), Todo(argv);
      ghost var rest := Scan("", todo, optstring);
      BringForward(argv);
      ghost var passed := SkipOperands(argv, optstring);
      lastNonopt := optind;
      assert argv[firstNonopt..optind] == skipped + passed;
      ghost var rest' := Scan("", argv[optind..], optstring);
      assert skipped + (passed + rest'.operands) == skipped + passed + rest'.operands;
    }

    /** Find the next option element, or the end of the scan. */
    method Advance(argv: array<string>, optstring: string) returns (more: bool)
      requires Valid(argv) && !Fresh() && nextchar == ""
      modifies this`optind, this`firstNonopt, this`lastNonopt, this`nextchar, argv
      ensures Valid(argv) && !Fresh() && argv[0] == old(argv[0])
      ensures more ==> nextchar != "" && |Todo(argv)| < old(|Todo(argv)|)
      ensures more ==> Pending(argv, optstring) == old(Pending(argv, optstring))
      ensures !more ==>
        nextchar == "" && old(Pending(argv, optstring)).events == [] && Finished(argv, old(Pending(argv, optstring)))
    {
      hide Scan;
      hide Settled;
      hide Pending;
      hide Finished;
      Permute(argv, optstring);
      ghost var outcome := Settled(argv, optstring);
      if optind != argv.Length && argv[optind] == "--" {
        SettledAtEnd(argv, optstring);
        EndOfOptions(argv);
      } else if optind == argv.Length {
        SettledAtEnd(argv, optstring);
      }
      if optind == argv.Length {
        if firstNonopt != lastNonopt {
          optind := firstNonopt;
        }
        FinishedAt(argv, outcome);
        return false;
      }
      nextchar := argv[optind][1..];
      AdvanceInto(argv, optstring, outcome);
      return true;
    }

    lemma SettledAtEnd(argv: array<string>, optstring: string)
      requires 1 <= firstNonopt <= optind <= argv.Length
      requires optind < argv.Length ==> argv[optind] == "--"
      ensures Settled(argv, optstring) ==
        if optind == argv.Length then Outcome([], argv[1..firstNonopt], argv[firstNonopt..])
        else Outcome([], argv[1..firstNonopt] + [argv[optind]], argv[firstNonopt..optind] + argv[optind + 1..])
    {
    }

    lemma FinishedAt(argv: array<string>, outcome: Outcome)
      requires Valid(argv) && !Fresh() && nextchar == "" && optind <= firstNonopt
      requires outcome == Outcome([], argv[1..optind], argv[optind..])
      ensures Finished(argv, outcome)
    {
    }

    lemma AdvanceInto(argv: array<string>, optstring: string, outcome: Outcome)
      requires Valid(argv) && !Fresh() && firstNonopt <= lastNonopt == optind < argv.Length
      requires argv[optind] != "--" && !IsNonoption(argv[optind]) && nextchar == argv[optind][1..]
      requires outcome == Settled(argv, optstring)
      ensures Pending(argv, optstring) == outcome
    {
      assert argv[optind..][1..] == argv[optind + 1..];
      assert argv[optind..optind + 1] == [argv[optind]];
      var rest := Scan(nextchar, argv[optind + 1..], optstring);
      var done := argv[1..firstNonopt];
      assert done + ([argv[optind]] + rest.options) == done + [argv[optind]] + rest.options;
    }

    /** argv is partitioned as outcome says, and optind is the first operand. */
    ghost predicate Finished(argv: array<string>, outcome: Outcome)
      requires Valid(argv)
      reads this`optind, this`initialized, this`firstNonopt, this`lastNonopt, this`nextchar, argv
    {
      && outcome.events == []
      && argv[..] == [argv[0]] + outcome.options + outcome.operands
      && optind == 1 + |outcome.options|
      && Done(argv) == outcome.options && Skipped(argv) == [] && Todo(argv) == outcome.operands
    }

    /** Report the next option character of the current element. */
    method DecodeOption(argv: array<string>, optstring: string) returns (result: char, ghost taken: bool)
      requires nextchar != "" && 0 <= optind < argv.Length && optarg == None
      requires Supported(optstring)
      modifies this`optind, this`optarg, this`optopt, this`nextchar
      ensures var hasNext := old(optind) + 1 < argv.Length;
        (Event(result, optarg), nextchar, taken) ==
          Decode(old(nextchar), hasNext, if hasNext then argv[old(optind) + 1] else "", optstring)
      ensures optind == old(optind) + (if nextchar == "" then 1 else 0) + (if taken then 1 else 0)
      ensures result != old(nextchar[0]) ==> optopt == old(nextchar[0])
    {
      taken := false;
      var c := nextchar[0];
      nextchar := nextchar[1..];
      var temp := IndexOf(optstring, c);
      if nextchar == "" {
        optind := optind + 1;
      }
      if temp.None? || c == ':' {
        optopt := c;
        result := '?';
        return;
      }
      result := c;
      var spec := optstring[temp.value..];
      if |spec| > 1 && spec[1] == ':' {
        if |spec| > 2 && spec[2] == ':' {
          if nextchar != "" {
            optarg := Some(nextchar);
            optind := optind + 1;
          } else {
            optarg := None;
          }
          nextchar := "";
        } else {
          if nextchar != "" {
            optarg := Some(nextchar);
            optind := optind + 1;
          } else if optind == argv.Length {
            optopt := c;
            result := if optstring[0] == ':' then ':' else '?';
          } else {
            optarg := Some(argv[optind]);
            optind := optind + 1;
            taken := true;
          }
          nextchar := "";
        }
      }
    }

    /** The same in terms of the pending scan. */
    method ReportOption(argv: array<string>, optstring: string) returns (result: char)
      requires Valid(argv) && !Fresh() && nextchar != "" && optarg == None
      requires Supported(optstring)
      modifies this`optind, this`optarg, this`optopt, this`nextchar
      ensures Valid(argv) && !Fresh()
      ensures Pending(argv, optstring).Reported(result, optarg, old(Pending(argv, optstring)))
      ensures |Todo(argv)| < old(|Todo(argv)|) || (|Todo(argv)| == old(|Todo(argv)|) && |Cluster()| < old(|Cluster()|))
    {
      hide Decode;
      hide Scan;
      hide Supported;
      ghost var cluster, todo, done, skipped := nextchar, Todo(argv), Done(argv), Skipped(argv);
      ghost var taken;
      result, taken := DecodeOption(argv, optstring);
      ghost var n := if taken then 1 else 0;
      assert Todo(argv) == todo[n..];
      assert Done(argv) == done + todo[..n];
      ScanDecodes(cluster, todo, optstring);
      ghost var rest := Scan(nextchar, todo[n..], optstring).options;
      assert done + (todo[..n] + rest) == done + todo[..n] + rest;
    }

    /**
      One call of getopt.  None is the return value -1.  A call reports the first event of the
      pending scan and keeps its option elements and operands; the last one completes the partition.
     */
    method NextOption(argv: array<string>, optstring: string) returns (c: Option<char>)
      requires Valid(argv) && Supported(optstring)
      modifies this, argv
      ensures Valid(argv) && !Fresh() && argv[0] == old(argv[0])
      ensures c.None? ==>
        nextchar == "" && old(Pending(argv, optstring)).events == [] && Finished(argv, old(Pending(argv, optstring)))
      ensures c.Some? ==> Pending(argv, optstring).Reported(c.value, optarg, old(Pending(argv, optstring)))
      ensures c.Some? ==>
        |Todo(argv)| < old(|Todo(argv)|) || (|Todo(argv)| == old(|Todo(argv)|) && |Cluster()| < old(|Cluster()|))
    {
      hide Pending;
      hide Finished;
      hide Supported;
      hide Todo;
      optarg := None;
      if optind == 0 || !initialized {
        Initialize(argv, optstring);
      }
      if nextchar == "" {
        var more := Advance(argv, optstring);
        if !more {
          return None;
        }
      }
      var result := ReportOption(argv, optstring);
      return Some(result);
    }

    /**
      The caller's loop: call until -1.  From a fresh state with optind 1 this yields exactly the
      events of the scan of the original arguments and leaves the program name, the option
      elements, then the operands; run again without a reset it scans the operands only.
     */
    method ParseAll(argv: array<string>, optstring: string) returns (events: seq<Event>)
      requires Valid(argv) && Supported(optstring)
      modifies this, argv
      ensures Valid(argv)
      ensures events == old(Pending(argv, optstring)).events
      ensures Finished(argv, old(Pending(argv, optstring)).(events := []))
      ensures argv[0] == old(argv[0])
      ensures old(Fresh() && optind <= 1) ==>
        old(Pending(argv, optstring)) == Scan("", old(argv[1..]), optstring)
    {
      hide Scan;
      hide Pending;
      hide Finished;
      hide Todo;
      hide Outcome.After;
      hide Outcome.Reported;
      events := [];
      ghost var all := Pending(argv, optstring);
      StartOfScan(argv, optstring);
      AfterNothing(all);
      while true
        invariant Valid(argv) && argv[0] == old(argv[0])
        invariant Pending(argv, optstring).After(events) == all
        decreases |Todo(argv)|, |Cluster()|
      {
        ghost var before := Pending(argv, optstring);
        var c := NextOption(argv, optstring);
        if c.None? {
          AfterLast(before, events);
          return;
        }
        AfterReport(before, Pending(argv, optstring), events, c.value, optarg);
        events := events + [Event(c.value, optarg)];
      }
    }

    lemma StartOfScan(argv: array<string>, optstring: string)
      requires Valid(argv)
      ensures Fresh() && optind <= 1 ==> Pending(argv, optstring) == Scan("", argv[1..], optstring)
    {
      hide Scan;
      if Fresh() && optind <= 1 {
        var scan := Scan("", argv[1..], optstring);
        assert [] + scan.options == scan.options && [] + scan.operands == scan.operands;
      }
    }
  }

  lemma AfterNothing(o: Outcome)
    ensures o.After([]) == o
  {
    assert [] + o.events == o.events;
  }

  lemma AfterLast(o: Outcome, earlier: seq<Event>)
    requires o.events == []
    ensures o.After(earlier) == o.(events := earlier)
  {
    assert earlier + [] == earlier;
  }

  lemma AfterReport(before: Outcome, after: Outcome, earlier: seq<Event>, c: char, optarg: Option<string>)
    requires after.Reported(c, optarg, before)
    ensures after.After(earlier + [Event(c, optarg)]) == before.After(earlier)
  {
    assert earlier + ([Event(c, optarg)] + after.events) == earlier + [Event(c, optarg)] + after.events;
  }

  function Rotated(s: seq<string>, bottom: int, middle: int, top: int): (r: seq<string>)
    requires 0 <= bottom <= middle <= top <= |s|
    ensures |r| == |s|
  {
    s[..bottom] + s[middle..top] + s[bottom..middle] + s[top..]
  }

  lemma RotatedTrivially(s: seq<string>, bottom: int, middle: int, top: int)
    requires 0 <= bottom <= middle <= top <= |s| && (bottom == middle || middle == top)
    ensures Rotated(s, bottom, middle, top) == s
  {
  }

  /** Where the blocks of a rotation are found. */
  lemma RotatedParts(s: seq<string>, bottom: int, middle: int, top: int)
    requires 1 <= bottom <= middle <= top <= |s|
    ensures var r := Rotated(s, bottom, middle, top); var seam := bottom + (top - middle);
      && |r| == |s| && r[0] == s[0]
      && r[1..seam] == s[1..bottom] + s[middle..top]
      && r[seam..top] == s[bottom..middle]
      && r[top..] == s[top..]
  {
  }

  /** One element brought forward over a block. */
  lemma RotatedByOne(s: seq<string>, bottom: int, middle: int)
    requires 1 <= bottom <= middle < |s|
    ensures var r := Rotated(s, bottom, middle, middle + 1);
      && r[0] == s[0] && r[1..bottom + 1] == s[1..bottom] + [s[middle]]
      && r[bottom + 1..] == s[bottom..middle] + s[middle + 1..]
  {
    hide Rotated;
    RotatedParts(s, bottom, middle, middle + 1);
    var r := Rotated(s, bottom, middle, middle + 1);
    assert r[bottom + 1..] == r[bottom + 1..middle + 1] + r[middle + 1..];
    assert s[middle..middle + 1] == [s[middle]];
  }

  /** Swapping a short bottom block with the far end of the top block leaves a smaller rotation to do. */
  lemma RotateShortBottom(s: seq<string>, t: seq<string>, bottom: int, middle: int, top: int)
    requires 0 <= bottom < middle < top <= |s| && top - middle > middle - bottom
    requires t == Swapped(s, bottom, top - (middle - bottom), middle - bottom)
    ensures |t| == |s| && Rotated(t, bottom, middle, top - (middle - bottom)) == Rotated(s, bottom, middle, top)
  {
    hide Rotated;
    var r, r' := Rotated(s, bottom, middle, top), Rotated(t, bottom, middle, top - (middle - bottom));
    forall i | 0 <= i < |s| ensures r[i] == r'[i] {
      RotatedAt(s, bottom, middle, top, i);
      RotatedAt(t, bottom, middle, top - (middle - bottom), i);
    }
  }

  lemma RotateShortTop(s: seq<string>, t: seq<string>, bottom: int, middle: int, top: int)
    requires 0 <= bottom < middle < top <= |s| && top - middle <= middle - bottom
    requires t == Swapped(s, bottom, middle, top - middle)
    ensures |t| == |s| && Rotated(t, bottom + (top - middle), middle, top) == Rotated(s, bottom, middle, top)
  {
    hide Rotated;
    var r, r' := Rotated(s, bottom, middle, top), Rotated(t, bottom + (top - middle), middle, top);
    forall i | 0 <= i < |s| ensures r[i] == r'[i] {
      RotatedAt(s, bottom, middle, top, i);
      RotatedAt(t, bottom + (top - middle), middle, top, i);
    }
  }

  lemma RotatedAt(s: seq<string>, bottom: int, middle: int, top: int, i: int)
    requires 0 <= bottom <= middle <= top <= |s| && 0 <= i < |s|
    ensures Rotated(s, bottom, middle, top)[i] ==
      s[if bottom <= i < bottom + (top - middle) then i + (middle - bottom)
        else if bottom + (top - middle) <= i < top then i - (top - middle)
        else i]
  {
  }
}
