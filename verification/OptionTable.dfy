/**
  What a command line means to a program that hands getopt a table of options.

  A table is written as an option string, and a list of choices and operands as command line arguments;
  both are defined apart from the scan, which has to read the choices back.
 */
module OptionTables {
  import opened Common
  import opened Getopt

  // ----- option strings ---------------------------------------------------------------------------

  /** What an option takes: no argument, one that is always there, or one in the same element if at all. */
  datatype Takes = Nothing | Required | Optional

  datatype Entry = Entry(c: char, takes: Takes)

  function Colons(takes: Takes): string {
    match takes
    case Nothing => ""
    case Required => ":"
    case Optional => "::"
  }

  function Text(table: seq<Entry>): string {
    if table == [] then "" else [table[0].c] + Colons(table[0].takes) + Text(table[1..])
  }

  /** A leading colon asks for ':' instead of '?' when an argument is missing. */
  function OptionString(silent: bool, table: seq<Entry>): string {
    (if silent then ":" else "") + Text(table)
  }

  /** Every character is listed once. */
  ghost predicate IsTable(table: seq<Entry>) {
    && (forall i :: 0 <= i < |table| ==> table[i].c != ':')
    && forall i, j :: 0 <= i < j < |table| ==> table[i].c != table[j].c
  }

  predicate Stranger(table: seq<Entry>, c: char) {
    forall e :: e in table ==> e.c != c
  }

  // ----- command lines ------------------------------------------------------------------------------

  /** How an element of options ends: with an argument in it or behind it, or with one left away that was optional. */
  datatype Last = NoLast | Attached(c: char, arg: string) | Separate(c: char, arg: string) | Absent(c: char)

  /** Options without arguments, strangers among them, in one element with an option that ends it; or an operand. */
  datatype Item = Word(flags: string, last: Last) | Operand(text: string)

  function Written(i: Item): seq<string> {
    match i
    case Operand(text) => [text]
    case Word(flags, NoLast) => ["-" + flags]
    case Word(flags, Attached(c, arg)) => ["-" + (flags + ([c] + arg))]
    case Word(flags, Separate(c, arg)) => ["-" + (flags + [c]), arg]
    case Word(flags, Absent(c)) => ["-" + (flags + [c])]
  }

  function Arguments(items: seq<Item>): seq<string> {
    if items == [] then [] else Written(items[0]) + Arguments(items[1..])
  }

  predicate IsFlag(table: seq<Entry>, c: char) { Entry(c, Nothing) in table || Stranger(table, c) }

  predicate IsLast(table: seq<Entry>, last: Last) {
    match last
    case NoLast => true
    case Attached(c, arg) => arg != "" && (Entry(c, Required) in table || Entry(c, Optional) in table)
    case Separate(c, arg) => Entry(c, Required) in table
    case Absent(c) => Entry(c, Optional) in table
  }

  /** An element "--" would end the options. */
  predicate IsItem(table: seq<Entry>, i: Item) {
    match i
    case Operand(text) => text == "" || text == "-" || text[0] != '-'
    case Word(flags, last) =>
      && (forall c :: c in flags ==> IsFlag(table, c)) && IsLast(table, last)
      && (flags != "" || last != NoLast) && Written(i)[0] != "--"
  }

  /** A character outside the table is reported as '?'. */
  function FlagEvents(table: seq<Entry>, flags: string): (r: seq<Event>)
    ensures |r| == |flags|
  {
    seq(|flags|, i requires 0 <= i < |flags| => Event(if Stranger(table, flags[i]) then '?' else flags[i], None))
  }

  function LastEvents(last: Last): seq<Event> {
    match last
    case NoLast => []
    case Attached(c, arg) => [Event(c, Some(arg))]
    case Separate(c, arg) => [Event(c, Some(arg))]
    case Absent(c) => [Event(c, None)]
  }

  /** The choices of a command line, its elements that belong to options, and its operands. */
  function Meaning(table: seq<Entry>, items: seq<Item>): Outcome {
    if items == [] then Outcome([], [], [])
    else
      var rest := Meaning(table, items[1..]);
      match items[0]
      case Operand(text) => rest.(operands := [text] + rest.operands)
      case Word(flags, last) =>
        Outcome(FlagEvents(table, flags) + LastEvents(last) + rest.events, Written(items[0]) + rest.options,
          rest.operands)
  }

  // ----- reading an option string -------------------------------------------------------------------

  lemma {:induction false} TextAround(table: seq<Entry>, j: nat)
    requires j < |table|
    ensures Text(table) == Text(table[..j]) + ([table[j].c] + Colons(table[j].takes) + Text(table[j + 1..]))
    decreases j
  {
    hide Colons;
    if j > 0 {
      TextAround(table[1..], j - 1);
      assert table[1..][..j - 1] == table[..j][1..] && table[1..][j..] == table[j + 1..];
      var a, b := Text(table[..j][1..]), [table[j].c] + Colons(table[j].takes) + Text(table[j + 1..]);
      ThreePieces([table[0].c] + Colons(table[0].takes), a, b);
    } else {
      assert table[..0] == [] && "" + Text(table) == Text(table);
    }
  }

  lemma {:induction false} StrangerToText(table: seq<Entry>, c: char)
    requires Stranger(table, c) && c != ':'
    ensures c !in Text(table)
    decreases |table|
  {
    if table != [] {
      assert table[0] in table;
      StrangerToText(table[1..], c);
    }
  }

  lemma FirstOfText(table: seq<Entry>)
    requires IsTable(table)
    ensures Text(table) != "" ==> Text(table)[0] != ':'
  {
  }

  lemma KindAt(before: string, from: string, c: char)
    requires c != ':' && c !in before && from != "" && from[0] == c
    ensures KindOf(before + from, c) ==
      if [c, ':', ':'] <= from then OptionalArgument else if [c, ':'] <= from then RequiredArgument else NoArgument
  {
    hide FirstIndex;
    FirstIndexIs(before, from, c);
    assert (before + from)[|before|] == c && (before + from)[|before|..] == from;
  }

  lemma EntryBegins(c: char, takes: Takes, rest: string)
    requires rest != "" ==> rest[0] != ':'
    ensures var from := [c] + Colons(takes) + rest;
      && ([c, ':'] <= from <==> takes != Nothing) && ([c, ':', ':'] <= from <==> takes == Optional)
  {
    var from := [c] + Colons(takes) + rest;
    match takes {
      case Nothing => assert rest != "" ==> from[1] == rest[0];
      case Required => assert rest != "" ==> from[2] == rest[0];
        assert from[1] == ':';
      case Optional => assert from[1] == ':' && from[2] == ':';
    }
  }

  lemma EarlierAreOthers(table: seq<Entry>, j: nat)
    requires IsTable(table) && j < |table|
    ensures Stranger(table[..j], table[j].c) && table[j].c != ':' && IsTable(table[j + 1..])
  {
  }

  lemma KindOfEntry(silent: bool, table: seq<Entry>, e: Entry)
    requires IsTable(table) && e in table
    ensures KindOf(OptionString(silent, table), e.c) ==
      match e.takes case Nothing => NoArgument case Required => RequiredArgument case Optional => OptionalArgument
  {
    hide IsTable;
    hide Stranger;
    hide KindOf;
    hide Text;
    hide Colons;
    var j :| 0 <= j < |table| && table[j] == e;
    var before, rest := (if silent then ":" else "") + Text(table[..j]), Text(table[j + 1..]);
    var from := [e.c] + Colons(e.takes) + rest;
    EarlierAreOthers(table, j);
    TextAround(table, j);
    assert OptionString(silent, table) == before + from;
    StrangerToText(table[..j], e.c);
    FirstOfText(table[j + 1..]);
    KindAt(before, from, e.c);
    EntryBegins(e.c, e.takes, rest);
  }

  lemma KindOfStranger(silent: bool, table: seq<Entry>, c: char)
    requires Stranger(table, c)
    ensures KindOf(OptionString(silent, table), c) == Unknown
  {
    if c != ':' {
      StrangerToText(table, c);
    }
  }

  /** Whether a missing argument is asked for quietly. */
  lemma IsSilentIff(silent: bool, table: seq<Entry>)
    requires IsTable(table) && table != []
    ensures OptionString(silent, table) != "" && (OptionString(silent, table)[0] == ':' <==> silent)
  {
    FirstOfText(table);
  }

  // ----- reading a command line ---------------------------------------------------------------------

  lemma ScanFlag(silent: bool, table: seq<Entry>, c: char, tail: string, todo: seq<string>)
    requires IsTable(table) && IsFlag(table, c)
    ensures var opt := OptionString(silent, table); var rest := Scan(tail, todo, opt);
      Scan([c] + tail, todo, opt) == rest.(events := [Event(if Stranger(table, c) then '?' else c, None)] + rest.events)
  {
    hide KindOf;
    hide OptionString;
    hide Scan;
    var opt := OptionString(silent, table);
    if Stranger(table, c) {
      KindOfStranger(silent, table, c);
    } else {
      KindOfEntry(silent, table, Entry(c, Nothing));
    }
    ScanDecodes([c] + tail, todo, opt);
    assert ([c] + tail)[1..] == tail && todo[0..] == todo && todo[..0] == [];
    var rest := Scan(tail, todo, opt);
    assert [] + rest.options == rest.options;
  }

  lemma {:induction false} ScanFlags(silent: bool, table: seq<Entry>, flags: string, tail: string, todo: seq<string>)
    requires IsTable(table) && forall c :: c in flags ==> IsFlag(table, c)
    ensures var opt := OptionString(silent, table); var rest := Scan(tail, todo, opt);
      Scan(flags + tail, todo, opt) == rest.(events := FlagEvents(table, flags) + rest.events)
    decreases |flags|
  {
    hide Scan;
    hide OptionString;
    hide IsFlag;
    hide Stranger;
    var rest := Scan(tail, todo, OptionString(silent, table));
    if flags == "" {
      assert flags + tail == tail && FlagEvents(table, flags) + rest.events == rest.events;
    } else {
      assert flags[0] in flags;
      ScanFlags(silent, table, flags[1..], tail, todo);
      ScanFlag(silent, table, flags[0], flags[1..] + tail, todo);
      assert [flags[0]] + (flags[1..] + tail) == flags + tail;
      assert FlagEvents(table, flags) == FlagEvents(table, flags[..1]) + FlagEvents(table, flags[1..]);
      assert FlagEvents(table, flags[..1]) == [Event(if Stranger(table, flags[0]) then '?' else flags[0], None)];
      assert FlagEvents(table, flags[..1]) + (FlagEvents(table, flags[1..]) + rest.events)
        == FlagEvents(table, flags) + rest.events;
    }
  }

  /** The rest of an element from the option on that ends it. */
  function LastText(last: Last): string {
    match last
    case NoLast => ""
    case Attached(c, arg) => [c] + arg
    case Separate(c, arg) => [c]
    case Absent(c) => [c]
  }

  function LastArguments(last: Last): seq<string> {
    if last.Separate? then [last.arg] else []
  }

  lemma WrittenIs(i: Item)
    requires i.Word?
    ensures Written(i) == ["-" + (i.flags + LastText(i.last))] + LastArguments(i.last)
  {
    assert i.flags + "" == i.flags;
  }

  lemma ScanLast(silent: bool, table: seq<Entry>, last: Last, todo: seq<string>)
    requires IsTable(table) && IsLast(table, last)
    ensures var opt := OptionString(silent, table); var rest := Scan("", todo, opt);
      Scan(LastText(last), LastArguments(last) + todo, opt) ==
        Outcome(LastEvents(last) + rest.events, LastArguments(last) + rest.options, rest.operands)
  {
    hide KindOf;
    hide OptionString;
    hide Scan;
    var opt := OptionString(silent, table);
    var rest, todo' := Scan("", todo, opt), LastArguments(last) + todo;
    assert [] + todo == todo && [] + rest.options == rest.options && [] + rest.events == rest.events;
    if last != NoLast {
      if Entry(last.c, Required) in table {
        KindOfEntry(silent, table, Entry(last.c, Required));
      } else {
        KindOfEntry(silent, table, Entry(last.c, Optional));
      }
      ScanDecodes(LastText(last), todo', opt);
      assert last.Attached? ==> LastText(last)[1..] == last.arg;
      assert todo'[0..] == todo' && todo'[..0] == [];
      assert last.Separate? ==> todo'[1..] == todo && todo'[..1] == [last.arg];
    }
  }

  lemma ScanElement(s: string, todo: seq<string>, optstring: string)
    requires !IsNonoption(s) && s != "--"
    ensures var rest := Scan(s[1..], todo, optstring);
      Scan("", [s] + todo, optstring) == rest.(options := [s] + rest.options)
  {
    assert ([s] + todo)[1..] == todo;
  }

  lemma WordParts(table: seq<Entry>, i: Item)
    requires i.Word? && IsItem(table, i)
    ensures !IsNonoption(Written(i)[0]) && Written(i)[0] != "--"
    ensures (forall c :: c in i.flags ==> IsFlag(table, c)) && IsLast(table, i.last)
  {
  }

  lemma ScanWord(silent: bool, table: seq<Entry>, i: Item, todo: seq<string>)
    requires IsTable(table) && i.Word? && IsItem(table, i)
    ensures var opt := OptionString(silent, table); var rest := Scan("", todo, opt);
      Scan("", Written(i) + todo, opt) ==
        Outcome(FlagEvents(table, i.flags) + LastEvents(i.last) + rest.events, Written(i) + rest.options, rest.operands)
  {
    hide *;
    WrittenIs(i);
    WordParts(table, i);
    var s, args := "-" + (i.flags + LastText(i.last)), LastArguments(i.last);
    var opt := OptionString(silent, table);
    var rest := Scan("", todo, opt);
    assert s[1..] == i.flags + LastText(i.last);
    ScanElement(s, args + todo, opt);
    ScanFlags(silent, table, i.flags, LastText(i.last), args + todo);
    ScanLast(silent, table, i.last, todo);
    assert Written(i) + todo == [s] + (args + todo);
    assert Written(i) + rest.options == [s] + (args + rest.options);
    assert FlagEvents(table, i.flags) + (LastEvents(i.last) + rest.events)
      == FlagEvents(table, i.flags) + LastEvents(i.last) + rest.events;
  }

  /** The scan of a command line reads exactly its choices and operands, and goes on with what follows. */
  lemma {:induction false} ScanReadsItems(silent: bool, table: seq<Entry>, items: seq<Item>, todo: seq<string>)
    requires IsTable(table) && forall i :: i in items ==> IsItem(table, i)
    ensures var m, rest := Meaning(table, items), Scan("", todo, OptionString(silent, table));
      Scan("", Arguments(items) + todo, OptionString(silent, table)) ==
        Outcome(m.events + rest.events, m.options + rest.options, m.operands + rest.operands)
    decreases |items|
  {
    hide Scan;
    hide OptionString;
    hide FlagEvents;
    hide LastEvents;
    hide IsTable;
    hide Written;
    var opt := OptionString(silent, table);
    var rest := Scan("", todo, opt);
    if items == [] {
      assert [] + todo == todo;
      assert [] + rest.events == rest.events && [] + rest.options == rest.options
        && [] + rest.operands == rest.operands;
    } else {
      var i, more := items[0], Arguments(items[1..]);
      assert i in items;
      ScanReadsItems(silent, table, items[1..], todo);
      assert Written(i) + more + todo == Written(i) + (more + todo);
      var m := Meaning(table, items[1..]);
      if i.Word? {
        ScanWord(silent, table, i, more + todo);
        var e := FlagEvents(table, i.flags) + LastEvents(i.last);
        assert e + (m.events + rest.events) == e + m.events + rest.events;
        assert Written(i) + (m.options + rest.options) == Written(i) + m.options + rest.options;
      } else {
        OperandWritten(i);
        ScanOperand(i.text, more + todo, opt);
        assert [i.text] + (m.operands + rest.operands) == [i.text] + m.operands + rest.operands;
      }
    }
  }

  lemma OperandWritten(i: Item)
    requires i.Operand?
    ensures Written(i) == [i.text]
  {
  }

  /** How a command line ends: just so, with "--" and any operands, or with an option whose argument is missing. */
  datatype Ending = Plain | Dashes(operands: seq<string>) | Missing(flags: string, c: char)

  function EndingText(e: Ending): seq<string> {
    match e
    case Plain => []
    case Dashes(operands) => ["--"] + operands
    case Missing(flags, c) => ["-" + (flags + [c])]
  }

  predicate IsEnding(table: seq<Entry>, e: Ending) {
    e.Missing? ==>
      && Entry(e.c, Required) in table && EndingText(e)[0] != "--"
      && forall f :: f in e.flags ==> IsFlag(table, f)
  }

  /** A missing argument is reported as '?', or as ':' when the option string starts with a colon. */
  function EndingMeaning(silent: bool, table: seq<Entry>, e: Ending): Outcome {
    match e
    case Plain => Outcome([], [], [])
    case Dashes(operands) => Outcome([], ["--"], operands)
    case Missing(flags, c) =>
      Outcome(FlagEvents(table, flags) + [Event(if silent then ':' else '?', None)], EndingText(e), [])
  }

  lemma ScanNothing(optstring: string)
    ensures Scan("", [], optstring) == Outcome([], [], [])
  {
  }

  lemma ScanDashes(operands: seq<string>, optstring: string)
    ensures Scan("", ["--"] + operands, optstring) == Outcome([], ["--"], operands)
  {
    assert (["--"] + operands)[1..] == operands;
  }

  lemma ScanMissing(silent: bool, table: seq<Entry>, c: char)
    requires IsTable(table) && Entry(c, Required) in table
    ensures Scan([c], [], OptionString(silent, table)) ==
      Outcome([Event(if silent then ':' else '?', None)], [], [])
  {
    hide KindOf;
    hide OptionString;
    hide Scan;
    var opt := OptionString(silent, table);
    KindOfEntry(silent, table, Entry(c, Required));
    IsSilentIff(silent, table);
    ScanDecodes([c], [], opt);
    ScanNothing(opt);
  }

  lemma ScanEnding(silent: bool, table: seq<Entry>, e: Ending)
    requires IsTable(table) && IsEnding(table, e)
    ensures Scan("", EndingText(e), OptionString(silent, table)) == EndingMeaning(silent, table, e)
  {
    hide FlagEvents;
    hide OptionString;
    hide Scan;
    hide IsTable;
    var opt := OptionString(silent, table);
    match e {
      case Plain =>
        ScanNothing(opt);
      case Dashes(operands) =>
        ScanDashes(operands, opt);
      case Missing(flags, c) =>
        ScanMissing(silent, table, c);
        var s := "-" + (flags + [c]);
        assert s[1..] == flags + [c] && EndingText(e) == [s] + [];
        ScanElement(s, [], opt);
        ScanFlags(silent, table, flags, [c], []);
    }
  }

  /**
    For every table of options, every list of choices and operands and every way of writing them, the
    scan of the arguments gives exactly these choices, in order, and these operands.
   */
  lemma CommandLineIsRead(silent: bool, table: seq<Entry>, items: seq<Item>, e: Ending)
    requires IsTable(table) && (forall i :: i in items ==> IsItem(table, i)) && IsEnding(table, e)
    ensures var m, end := Meaning(table, items), EndingMeaning(silent, table, e);
      Scan("", Arguments(items) + EndingText(e), OptionString(silent, table)) ==
        Outcome(m.events + end.events, m.options + end.options, m.operands + end.operands)
  {
    hide *;
    ScanReadsItems(silent, table, items, EndingText(e));
    ScanEnding(silent, table, e);
  }

  // ----- the server's own options -------------------------------------------------------------------

  const FIRST_OPTIONS := [Entry('h', Nothing), Entry('c', Required), Entry('d', Required), Entry('f', Nothing)]

  const MORE_OPTIONS := [Entry('a', Required), Entry('p', Required), Entry('u', Required), Entry('w', Required)]

  const LAST_OPTIONS := [Entry('s', Required), Entry('r', Required), Entry('i', Required)]

  const SERVER_OPTIONS := FIRST_OPTIONS + MORE_OPTIONS + LAST_OPTIONS

  lemma {:induction false} TextOfBoth(a: seq<Entry>, b: seq<Entry>)
    ensures Text(a + b) == Text(a) + Text(b)
    decreases |a|
  {
    if a == [] {
      assert a + b == b && "" + Text(b) == Text(b);
    } else {
      TextOfBoth(a[1..], b);
      assert (a + b)[1..] == a[1..] + b;
      var e := [a[0].c] + Colons(a[0].takes);
      assert e + (Text(a[1..]) + Text(b)) == e + Text(a[1..]) + Text(b);
    }
  }

  lemma TextFrom(table: seq<Entry>, k: nat, c: char, takes: Takes, rest: string)
    requires k < |table| && table[k] == Entry(c, takes) && Text(table[k + 1..]) == rest
    ensures Text(table[k..]) == [c] + Colons(takes) + rest
  {
    assert table[k..][1..] == table[k + 1..];
  }

  lemma ServerTable()
    ensures IsTable(SERVER_OPTIONS) && |SERVER_OPTIONS| == 11 && Entry('c', Required) in SERVER_OPTIONS
  {
    assert SERVER_OPTIONS[1] == Entry('c', Required);
  }

  lemma FirstText()
    ensures Text(FIRST_OPTIONS) == "hc:d:f"
  {
    var t := FIRST_OPTIONS;
    assert Text(t[4..]) == "" && t[0..] == t;
    hide Text;
    TextFrom(t, 3, 'f', Nothing, "");
    TextFrom(t, 2, 'd', Required, "f");
    TextFrom(t, 1, 'c', Required, "d:f");
    TextFrom(t, 0, 'h', Nothing, "c:d:f");
  }

  lemma MoreText()
    ensures Text(MORE_OPTIONS) == "a:p:u:w:"
  {
    var t := MORE_OPTIONS;
    assert Text(t[4..]) == "" && t[0..] == t;
    hide Text;
    TextFrom(t, 3, 'w', Required, "");
    TextFrom(t, 2, 'u', Required, "w:");
    TextFrom(t, 1, 'p', Required, "u:w:");
    TextFrom(t, 0, 'a', Required, "p:u:w:");
  }

  lemma LastOptionsText()
    ensures Text(LAST_OPTIONS) == "s:r:i:"
  {
    var t := LAST_OPTIONS;
    assert Text(t[3..]) == "" && t[0..] == t;
    hide Text;
    TextFrom(t, 2, 'i', Required, "");
    TextFrom(t, 1, 'r', Required, "i:");
    TextFrom(t, 0, 's', Required, "r:i:");
  }

  /** It is the option string that the server passes to getopt. */
  lemma ServerOptionString()
    ensures OptionString(false, SERVER_OPTIONS) == "hc:d:f" + "a:p:u:w:" + "s:r:i:"
  {
    FirstText();
    MoreText();
    LastOptionsText();
    hide Text;
    TextOfBoth(FIRST_OPTIONS, MORE_OPTIONS);
    TextOfBoth(FIRST_OPTIONS + MORE_OPTIONS, LAST_OPTIONS);
    EmptyInFront("hc:d:f" + "a:p:u:w:" + "s:r:i:");
  }

  lemma EmptyInFront(s: string)
    ensures "" + s == s
  {
  }

  lemma OneWord(table: seq<Entry>, c: char, arg: string)
    requires Entry(c, Required) in table && c != '-'
    ensures var i := Word("", Separate(c, arg));
      && IsItem(table, i) && Arguments([i]) + EndingText(Plain) == ["-" + [c], arg]
      && Meaning(table, [i]) == Outcome([Event(c, Some(arg))], ["-" + [c], arg], [])
  {
    var i := Word("", Separate(c, arg));
    assert "" + [c] == [c] && ("-" + [c])[1] == c;
    assert Written(i) == ["-" + [c], arg];
    assert Arguments([i]) == Written(i) + [];
    assert FlagEvents(table, "") == [];
    assert Meaning(table, [i]).events == [Event(c, Some(arg))];
    assert Meaning(table, [i]).options == Written(i);
  }

  /** LCDd -c FILE reads its configuration from FILE, whatever that is called. */
  lemma ConfigurationFile(file: string)
    ensures Scan("", ["-c", file], "hc:d:f" + "a:p:u:w:" + "s:r:i:") ==
      Outcome([Event('c', Some(file))], ["-c", file], [])
  {
    hide *;
    ServerOptionString();
    ServerTable();
    OneWord(SERVER_OPTIONS, 'c', file);
    PlainEnding(SERVER_OPTIONS);
    assert "-" + ['c'] == "-c";
    CommandLineIsRead(false, SERVER_OPTIONS, [Word("", Separate('c', file))], Plain);
  }

  lemma PlainEnding(table: seq<Entry>)
    ensures IsEnding(table, Plain) && EndingMeaning(false, table, Plain) == Outcome([], [], [])
  {
  }
}
