/** The tokenizer's program: one pass over the message into one block of memory, and the client's line printer. */
module ParseMessage {
  import opened CStrings
  import opened Common
  import opened Tokenizer

  /** The strings one behind the other, each with its NUL. */
  function Flat(strings: seq<string>): string {
    if strings == [] then "" else Flat(strings[..|strings| - 1]) + strings[|strings| - 1] + ['\0']
  }

  /** arg_space and the argv pointers into it. */
  class Arguments {
    const space: array<char>
    const argv: array<int>
    var argc: nat
    var argpos: nat
    ghost var done: seq<string>      // the finished arguments
    ghost var cur: string            // the argument being collected

    ghost predicate Valid()
      reads this, space, argv
    {
      && argv.Length == MAX_ARGUMENTS && argc == |done| < MAX_ARGUMENTS && argpos == |cur|
      && |Flat(done)| + |cur| <= space.Length
      && space[..|Flat(done)| + |cur|] == Flat(done) + cur
      && (forall k :: 0 <= k <= argc ==> argv[k] == |Flat(done[..k])|)
      && '\0' !in cur && forall s :: s in done ==> '\0' !in s
    }

    /** Bytes stored. */
    ghost function Used(): nat
      reads this
    {
      |Flat(done)| + |cur|
    }

    constructor (size: nat)
      ensures Valid() && fresh(space) && fresh(argv) && space.Length == size && done == [] && cur == ""
    {
      space := new char[size];
      argv := new int[MAX_ARGUMENTS];
      argc, argpos, done, cur := 0, 0, [], "";
      new;
      argv[0] := 0;
    }

    method Store(ch: char)
      requires Valid() && Used() < space.Length && ch != '\0'
      modifies this`argpos, this`cur, space
      ensures Valid() && done == old(done) && cur == old(cur) + [ch]
    {
      assert done[..argc] == done;
      space[argv[argc] + argpos] := ch;
      argpos := argpos + 1;
      cur := cur + [ch];
    }

    /** End the argument being collected; there is room for 39. */
    method Finish() returns (ok: bool)
      requires Valid() && Used() < space.Length
      modifies this, space, argv
      ensures Valid()
      ensures ok == (old(|done|) < MAX_ARGUMENTS - 1)
      ensures ok ==> done == old(done) + [old(cur)] && cur == "" && Used() == old(Used()) + 1
      ensures !ok ==> done == old(done) && cur == old(cur)
    {
      hide Flat;
      if argc >= MAX_ARGUMENTS - 1 {
        return false;
      }
      assert done[..argc] == done;
      ghost var before := done;
      space[argv[argc] + argpos] := '\0';
      argv[argc + 1] := argv[argc] + argpos + 1;
      argc := argc + 1;
      argpos := 0;
      done := done + [cur];
      FlatAppend(before, cur);
      assert forall k :: 0 <= k < argc ==> done[..k] == before[..k];
      assert done[..argc] == done;
      cur := "";
      return true;
    }
  }

  lemma FlatAppend(strings: seq<string>, s: string)
    ensures Flat(strings + [s]) == Flat(strings) + s + ['\0']
  {
    assert (strings + [s])[..|strings|] == strings;
  }

  /** argv[k] points at the k-th argument. */
  lemma ArgumentsAreCStrings(a: Arguments, k: nat)
    requires a.Valid() && k < |a.done|
    ensures 0 <= a.argv[k] < a.space.Length && CString(a.space[a.argv[k]..]) == a.done[k]
  {
    var s, rest := a.done[k], |Flat(a.done[..k + 1])|;
    assert a.done[..k + 1] == a.done[..k] + [s];
    FlatAppend(a.done[..k], s);
    FlatPrefix(a.done, k + 1);
    var memory := a.space[..];
    assert memory[..rest] == (Flat(a.done) + a.cur)[..rest] == Flat(a.done[..k + 1]);
    assert memory[a.argv[k]..rest] == memory[..rest][a.argv[k]..] == s + ['\0'];
    assert s in a.done;
    var tail := memory[a.argv[k]..];
    assert tail[..|s| + 1] == s + ['\0'] && tail[|s|] == tail[..|s| + 1][|s|];
    assert tail[..|s|] == tail[..|s| + 1][..|s|];
    EndsAt(tail, |s|);
    assert a.space[a.argv[k]..] == tail;
  }

  lemma {:induction false} FlatPrefix(strings: seq<string>, k: nat)
    requires k <= |strings|
    ensures Flat(strings[..k]) <= Flat(strings)
    decreases |strings| - k
  {
    if k < |strings| {
      FlatPrefix(strings, k + 1);
      assert strings[..k + 1] == strings[..k] + [strings[k]];
      FlatAppend(strings[..k], strings[k]);
    } else {
      assert strings[..k] == strings;
    }
  }

  datatype State = Between | Argument | Final

  /**
    parse_message up to the lookup of the command.  strlen + 1 bytes suffice: at every step no more
    bytes are stored than characters have been consumed.
   */
  method ParseMessage(str: string) returns (args: Arguments, error: int)
    requires '\0' !in str
    ensures args.Valid() && fresh(args) && args.space.Length == |str| + 1
    ensures error == 0 <==> Tokenize(str).Some?
    ensures error == 0 ==> Tokenize(str) == Some(args.done) && args.argc == |args.done|
  {
    hide Scan;
    hide Arguments.Valid;
    hide Tokenize;
    hide Flat;
    StartOfScan(str);
    var state, quote, pos := Between, '\0', 0;
    error := 0;
    args := new Arguments(|str| + 1);
    while state != Final && error == 0
      invariant args.Valid() && fresh(args) && fresh(args.space) && fresh(args.argv) && args.space.Length == |str| + 1
      invariant state != Final && error == 0 ==> pos <= |str| && args.Used() <= pos
      invariant state != Final && error == 0 ==>
        Tokenize(str) == Scan(str, pos, state == Argument, quote, args.done, args.cur)
      invariant state == Between && error == 0 ==> quote == '\0' && args.cur == ""
      invariant state == Final && error == 0 ==> Tokenize(str) == Some(args.done)
      invariant error != 0 ==> Tokenize(str) == None
      decreases |str| - pos, state != Final && error == 0
    {
      ScanUnfolds(str, pos, state == Argument, quote, args.done, args.cur);
      var ch := At(str, pos);
      if state == Between && IsWhitespace(ch) {
        pos := pos + 1;
        continue;
      }
      if state == Between && IsFinal(ch) {
        state := Final;
        continue;
      }
      state := Argument;
      if IsFinal(ch) {
        if quote != '\0' {
          error := 2;
        }
        var ok := args.Finish();
        if !ok {
          error := 1;
        }
        state := Final;
      } else if ch == '\\' {
        pos := pos + 1;
        if pos < |str| {
          args.Store(Unescaped(str[pos]));
          pos := pos + 1;
        } else {
          error := 2;
          var ok := args.Finish();
          if !ok {
            error := 1;
          }
          state := Final;
        }
      } else if IsOpeningQuote(ch, quote) {
        quote := ch;
        pos := pos + 1;
      } else if IsClosingQuote(ch, quote) || (IsWhitespace(ch) && quote == '\0') {
        quote := '\0';
        var ok := args.Finish();
        if !ok {
          error := 1;
        }
        state := Between;
        pos := pos + 1;
      } else {
        args.Store(ch);
        pos := pos + 1;
      }
    }
    Counted(args);
  }

  lemma StartOfScan(str: string)
    ensures Tokenize(str) == Scan(str, 0, false, '\0', [], "") && Flat([]) == ""
  {
  }

  lemma Counted(a: Arguments)
    requires a.Valid()
    ensures a.argc == |a.done|
  {
  }

  /** One step of the scan. */
  lemma ScanUnfolds(s: string, pos: nat, inArgument: bool, quote: char, done: seq<string>, cur: string)
    requires pos <= |s|
    ensures var ch := At(s, pos);
      Scan(s, pos, inArgument, quote, done, cur) ==
        if !inArgument && IsWhitespace(ch) then
          if pos < |s| then Scan(s, pos + 1, false, quote, done, cur) else None
        else if !inArgument && IsFinal(ch) then Some(done)
        else if IsFinal(ch) || pos == |s| then
          if quote != '\0' || |done| >= MAX_ARGUMENTS - 1 then None else Some(done + [cur])
        else if ch == '\\' then
          if pos + 1 < |s| then Scan(s, pos + 2, true, quote, done, cur + [Unescaped(s[pos + 1])]) else None
        else if IsOpeningQuote(ch, quote) then Scan(s, pos + 1, true, ch, done, cur)
        else if IsClosingQuote(ch, quote) || (IsWhitespace(ch) && quote == '\0') then
          if |done| >= MAX_ARGUMENTS - 1 then None else Scan(s, pos + 1, false, '\0', done + [cur], "")
        else Scan(s, pos + 1, true, quote, done, cur + [ch])
  {
  }
}
