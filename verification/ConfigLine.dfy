/**
  What the lines of a configuration file written by hand mean, apart from the parser that reads them.
 */
module ConfigLines {
  import opened Common
  import opened ConfigFile

  // ----- lines --------------------------------------------------------------------------------------

  /** A value is written in parts, bare or in quotes. */
  datatype Part = Bare(text: string) | Quoted(text: string)

  /** What may stand behind a label or a value: blanks and a comment, or the carriage return of a DOS file. */
  datatype Tail = Tail(blanks: string, comment: string) | Return

  datatype Line =
    | Blank(blanks: string)
    | Remark(comment: string)
    | Label(name: string, tail: Tail)
    | Setting(name: string, before: string, after: string, parts: seq<Part>, tail: Tail)

  /** A character as it is written in quotes. */
  function EscapedChar(c: char): string {
    if c == '"' || c == '\\' then ['\\', c]
    else if c == 7 as char then "\\a"
    else if c == 8 as char then "\\b"
    else if c == 12 as char then "\\f"
    else if c == '\n' then "\\n"
    else if c == '\r' then "\\r"
    else if c == '\t' then "\\t"
    else if c == 11 as char then "\\v"
    else [c]
  }

  function EscapedText(s: string): string {
    if s == "" then "" else EscapedChar(s[0]) + EscapedText(s[1..])
  }

  function PartText(p: Part): string {
    match p
    case Bare(text) => text
    case Quoted(text) => "\"" + (EscapedText(text) + "\"")
  }

  function PartsText(parts: seq<Part>): string {
    if parts == [] then "" else PartText(parts[0]) + PartsText(parts[1..])
  }

  function TailText(t: Tail): string {
    match t
    case Tail(blanks, comment) => blanks + comment
    case Return => "\r"
  }

  function LineText(l: Line): string {
    match l
    case Blank(blanks) => blanks + "\n"
    case Remark(comment) => comment + "\n"
    case Label(name, tail) => "[" + (name + ("]" + (TailText(tail) + "\n")))
    case Setting(name, before, after, parts, tail) =>
      name + (before + ("=" + (after + (PartsText(parts) + (TailText(tail) + "\n")))))
  }

  function FileText(lines: seq<Line>): string {
    if lines == [] then "" else LineText(lines[0]) + FileText(lines[1..])
  }

  // ----- well-formed lines ----------------------------------------------------------------------------

  predicate AreBlanks(s: string) { forall c :: c in s ==> c == ' ' || c == '\t' }

  predicate IsRemark(s: string) {
    s != "" && (s[0] == '#' || s[0] == ';') && forall c :: c in s ==> c != '\n' && c != '\0'
  }

  /** A label has at most 40 characters and does not hold its own end. */
  predicate IsLabelText(s: string) { |s| <= 40 && forall c :: c in s ==> c !in "]\n\0" }

  /** A name has at most 40 characters, no blanks, and '=' only as its first character. */
  predicate IsNameText(s: string) {
    && 0 < |s| <= 40 && s[0] !in "#;["
    && (forall c :: c in s ==> c !in "\0\n\r\t ")
    && forall i :: 0 < i < |s| ==> s[i] != '='
  }

  lemma TextsAreClean(s: string)
    ensures IsLabelText(s) ==> CleanLabel(s)
    ensures IsNameText(s) ==> CleanName(s)
  {
  }

  /** Blanks in front of '='; the first may also be a carriage return. */
  predicate IsGap(s: string) { s != "" ==> (s[0] == ' ' || s[0] == '\t' || s[0] == '\r') && AreBlanks(s[1..]) }

  predicate IsTail(t: Tail) {
    t.Tail? ==> AreBlanks(t.blanks) && (t.comment != "" ==> IsRemark(t.comment))
  }

  /** A bare part holds no blank, no line end and no character that means something to the parser. */
  predicate IsPart(p: Part) {
    match p
    case Bare(text) => forall c :: c in text ==> c !in " \t\r\n\"#;[]=\0"
    case Quoted(text) => '\0' !in text
  }

  function ValueOf(parts: seq<Part>): string {
    if parts == [] then "" else parts[0].text + ValueOf(parts[1..])
  }

  /** A comment behind a value needs a blank in front of it, and a value; a label may not end in a carriage return. */
  predicate IsLine(l: Line) {
    match l
    case Blank(blanks) => forall c :: c in blanks ==> c == ' ' || c == '\t' || c == '\r'
    case Remark(comment) => IsRemark(comment)
    case Label(name, tail) => IsLabelText(name) && tail.Tail? && IsTail(tail)
    case Setting(name, before, after, parts, tail) =>
      && IsNameText(name) && IsGap(before) && AreBlanks(after) && IsTail(tail)
      && (forall p :: p in parts ==> IsPart(p)) && |ValueOf(parts)| <= 200
      && (tail.Tail? && tail.comment != "" ==> tail.blanks != "" && ValueOf(parts) != "")
  }

  // ----- what they mean ---------------------------------------------------------------------------------

  /** The store and the current section while a file is read. */
  datatype Contents = Contents(store: seq<Section>, current: Option<nat>)

  /** A label finds its section, ignoring case, or appends it; a setting appends its key to the current section. */
  ghost function Apply(c: Contents, l: Line): (r: Contents)
    requires (c.current.Some? ==> c.current.value < |c.store|) && (l.Setting? ==> c.current.Some?)
    ensures r.current.Some? ==> r.current.value < |r.store|
    ensures c.current.Some? ==> r.current.Some?
  {
    match l
    case Blank(_) => c
    case Remark(_) => c
    case Label(name, _) =>
      if Exists(c.store, name) then c.(current := Some(FirstOf(c.store, name)))
      else Contents(c.store + [Section(name, [])], Some(|c.store|))
    case Setting(name, _, _, parts, _) =>
      c.(store := WithKey(c.store, c.current.value, Key(name, ValueOf(parts))))
  }

  ghost predicate Exists(store: seq<Section>, name: string) {
    exists k :: 0 <= k < |store| && SameName(store[k].name, name)
  }

  /** The first section of that name. */
  ghost function FirstOf(store: seq<Section>, name: string): (k: nat)
    requires Exists(store, name)
    ensures k < |store| && SameName(store[k].name, name)
    ensures forall j :: 0 <= j < k ==> !SameName(store[j].name, name)
  {
    if SameName(store[0].name, name) then 0
    else
      assert Exists(store[1..], name) by {
        var k :| 0 <= k < |store| && SameName(store[k].name, name);
        assert store[1..][k - 1] == store[k];
      }
      FirstOf(store[1..], name) + 1
  }

  lemma {:induction false} SectionIsFound(store: seq<Section>, name: string)
    ensures FindSection(store, name) == if Exists(store, name) then Some(FirstOf(store, name)) else None
    decreases |store|
  {
    hide SameName;
    if store != [] && !SameName(store[0].name, name) {
      SectionIsFound(store[1..], name);
      assert Exists(store[1..], name) <==> Exists(store, name) by {
        if Exists(store, name) {
          var k :| 0 <= k < |store| && SameName(store[k].name, name);
          assert store[1..][k - 1] == store[k];
        }
        if Exists(store[1..], name) {
          var k :| 0 <= k < |store[1..]| && SameName(store[1..][k].name, name);
          assert store[1..][k] == store[k + 1];
        }
      }
    }
  }

  /** Names are the same when they differ at most in the case of letters. */
  lemma NamesIgnoreCase(a: string, b: string)
    ensures SameName(a, b) <==>
      |a| == |b| && forall i :: 0 <= i < |a| ==>
        || a[i] == b[i]
        || ('A' <= a[i] <= 'Z' && b[i] as int == a[i] as int + 32)
        || ('A' <= b[i] <= 'Z' && a[i] as int == b[i] as int + 32)
  {
  }

  // ----- reading a line ---------------------------------------------------------------------------------

  /** Text that the parser passes over. */
  lemma {:induction false} FeedStays(m: Machine, text: string)
    requires m.Valid() && InBuffer(m) && forall c :: c in text ==> Step(m, c) == m
    ensures Feed(m, text) == m && Fits(m, text)
    decreases |text|
  {
    hide Step;
    if text != "" {
      assert text[0] in text;
      FeedStays(m, text[1..]);
    }
  }

  lemma RemarkIsPassed(m: Machine, comment: string)
    requires m.Valid() && InBuffer(m) && m.mode == Comment && forall c :: c in comment ==> c != '\n' && c != '\0'
    ensures Feed(m, comment) == m && Fits(m, comment)
  {
    FeedStays(m, comment);
  }

  /** A comment from its first character to the end of its line, where one may begin. */
  lemma RemarkIsRead(m: Machine, comment: string)
    requires m.Valid() && InBuffer(m) && IsRemark(comment)
    requires Step(m, comment[0]) == m.(mode := Comment)
    ensures Feed(m, comment + "\n") == m.(mode := Initial) && Fits(m, comment + "\n")
  {
    hide Step;
    hide Feed;
    hide Fits;
    var rest := comment[1..];
    var m1 := m.(mode := Comment);
    assert comment + "\n" == [comment[0]] + (rest + "\n");
    FeedOne(m, comment[0], rest + "\n");
    assert forall c :: c in rest ==> c in comment;
    RemarkIsPassed(m1, rest);
    FeedAppend(m1, rest, "\n");
    assert Step(m1, '\n') == m.(mode := Initial) by { NewlineEndsRemark(m1); }
    assert "\n" == ['\n'] + "";
    FeedOne(m1, '\n', "");
    FeedNothing(m.(mode := Initial));
  }

  lemma NewlineEndsRemark(m: Machine)
    requires m.Valid() && m.mode == Comment
    ensures Step(m, '\n') == m.(mode := Initial)
  {
  }

  lemma NewlineIsRead(m: Machine)
    requires m.Valid() && InBuffer(m) && Step(m, '\n') == m.(mode := Initial)
    ensures Feed(m, "\n") == m.(mode := Initial) && Fits(m, "\n")
  {
    hide Step;
    hide Feed;
    hide Fits;
    assert "\n" == ['\n'] + "";
    FeedOne(m, '\n', "");
    FeedNothing(m.(mode := Initial));
  }

  /** Blanks, a comment or none, and the end of the line, behind a label or a value. */
  lemma TailIsRead(m: Machine, t: Tail)
    requires m.Valid() && InBuffer(m) && (m.mode == SectionLabelDone || m.mode == ValueDone) && t.Tail? && IsTail(t)
    ensures Feed(m, TailText(t) + "\n") == m.(mode := Initial) && Fits(m, TailText(t) + "\n")
  {
    assert TailText(t) + "\n" == t.blanks + (t.comment + "\n");
    FeedStays(m, t.blanks);
    FeedAppend(m, t.blanks, t.comment + "\n");
    if t.comment != "" {
      RemarkIsRead(m, t.comment);
    } else {
      assert "" + "\n" == "\n";
      NewlineIsRead(m);
    }
  }

  lemma BlankLineIsRead(m: Machine, l: Line)
    requires m.Valid() && InBuffer(m) && m.mode == Initial && !l.Label? && !l.Setting? && IsLine(l)
    ensures Feed(m, LineText(l)) == m && Fits(m, LineText(l))
  {
    match l {
      case Blank(blanks) =>
        FeedStays(m, blanks);
        FeedAppend(m, blanks, "\n");
        NewlineIsRead(m);
      case Remark(comment) =>
        RemarkIsRead(m, comment);
    }
  }

  lemma LabelIsRead(m: Machine, name: string, tail: Tail)
    requires Ready(m, m.store, m.current) && m.Valid() && CleanLabel(name) && tail.Tail? && IsTail(tail)
    ensures var r := OpenSection(m.(section := name));
      Feed(m, LineText(Label(name, tail))) == r && Fits(m, LineText(Label(name, tail)))
  {
    hide Feed;
    hide Fits;
    hide OpenSection;
    hide TailText;
    var end := TailText(tail) + "\n";
    var m1 := m.(mode := SectionLabel, section := "");
    var m2 := m1.(section := name);
    FeedOne(m, '[', name + ("]" + end));
    FeedAppend(m1, name, "]" + end);
    FeedLabel(m1, name);
    assert "" + name == name;
    FeedOne(m2, ']', end);
    OpensAlike(m2);
    var m3 := OpenSection(m2).(mode := SectionLabelDone);
    TailIsRead(m3, tail);
    OpensAlike(m.(section := name));
  }

  lemma OpensAlike(m: Machine)
    requires m.Valid()
    ensures OpenSection(m) ==
      if Exists(m.store, m.section) then m.(current := Some(FirstOf(m.store, m.section)))
      else m.(store := m.store + [Section(m.section, [])], current := Some(|m.store|))
    ensures OpenSection(m).Valid()
  {
    SectionIsFound(m.store, m.section);
  }

  // ----- reading a setting ------------------------------------------------------------------------------

  lemma BlankAfterName(m: Machine, c: char)
    requires m.Valid() && m.mode == KeyName && m.name != "" && (c == ' ' || c == '\t' || c == '\r')
    ensures Step(m, c) == m.(mode := Assignment)
  {
  }

  lemma EqualsOpensValue(m: Machine)
    requires m.Valid() && (m.mode == KeyName || m.mode == Assignment)
    ensures Step(m, '=') == m.(mode := Value, value := "")
  {
  }

  /** An equals sign among blanks. */
  lemma EqualsIsRead(m: Machine, before: string, after: string, rest: string)
    requires m.Valid() && InBuffer(m) && m.mode == KeyName && m.name != "" && IsGap(before) && AreBlanks(after)
    ensures var m' := m.(mode := Value, value := ""); var t := before + ("=" + (after + rest));
      Feed(m, t) == Feed(m', rest) && (Fits(m', rest) ==> Fits(m, t))
  {
    hide Feed;
    hide Fits;
    var m1, m' := m.(mode := if before == "" then KeyName else Assignment), m.(mode := Value, value := "");
    var second := "=" + (after + rest);
    assert Feed(m, before + second) == Feed(m1, second) && (Fits(m1, second) ==> Fits(m, before + second)) by {
      if before == "" {
        assert before + second == second;
      } else {
        BlankAfterName(m, before[0]);
        assert before + second == [before[0]] + (before[1..] + second);
        FeedOne(m, before[0], before[1..] + second);
        FeedAppend(m1, before[1..], second);
        FeedStays(m1, before[1..]);
      }
    }
    EqualsOpensValue(m1);
    FeedOne(m1, '=', after + rest);
    FeedAppend(m', after, rest);
    FeedStays(m', after);
  }

  /** Bare text is read as it is. */
  lemma {:induction false} BareIsRead(m: Machine, text: string)
    requires m.Valid() && m.mode == Value && |m.value + text| <= 200 && IsPart(Bare(text))
    ensures Feed(m, text) == m.(value := m.value + text) && Fits(m, text)
    decreases |text|
  {
    if text == "" {
      assert m.value + text == m.value;
    } else {
      var c, m' := text[0], m.(value := m.value + [text[0]]);
      assert c in text && forall d :: d in text[1..] ==> d in text;
      BareCharacterIsRead(m, c);
      hide Step;
      BareIsRead(m', text[1..]);
      assert m.value + [c] + text[1..] == m.value + text;
    }
  }

  lemma BareCharacterIsRead(m: Machine, c: char)
    requires m.Valid() && m.mode == Value && |m.value| < 200 && c !in " \t\r\n\"#;[]=\0"
    ensures Step(m, c) == m.(value := m.value + [c])
  {
  }

  lemma EscapedCharIsRead(m: Machine, c: char)
    requires m.Valid() && m.mode == QuotedValue && !m.escape && |m.value| < 200 && c != '\0'
    ensures Feed(m, EscapedChar(c)) == m.(value := m.value + [c]) && Fits(m, EscapedChar(c))
  {
    hide Feed;
    hide Fits;
    var e, r := EscapedChar(c), m.(value := m.value + [c]);
    if |e| == 1 {
      assert e == [c] + "";
      FeedOne(m, c, "");
    } else {
      assert e == ['\\'] + ([e[1]] + "");
      FeedOne(m, '\\', [e[1]] + "");
      FeedOne(m.(escape := true), e[1], "");
    }
    FeedNothing(r);
  }

  /** Text in quotes is read with its escapes undone. */
  lemma {:induction false} EscapedIsRead(m: Machine, text: string)
    requires m.Valid() && m.mode == QuotedValue && !m.escape && |m.value + text| <= 200 && '\0' !in text
    ensures Feed(m, EscapedText(text)) == m.(value := m.value + text) && Fits(m, EscapedText(text))
    decreases |text|
  {
    hide Feed;
    hide Fits;
    hide Step;
    hide EscapedChar;
    if text == "" {
      assert m.value + text == m.value;
      FeedNothing(m);
    } else {
      var c, m' := text[0], m.(value := m.value + [text[0]]);
      assert c in text;
      FeedAppend(m, EscapedChar(c), EscapedText(text[1..]));
      EscapedCharIsRead(m, c);
      EscapedIsRead(m', text[1..]);
      assert m.value + [c] + text[1..] == m.value + text;
    }
  }

  /** A backslash takes any other character than the named ones, a line end and NUL as it is. */
  lemma BackslashIsDropped(m: Machine, c: char)
    requires m.Valid() && m.mode == QuotedValue && !m.escape && c !in "abfnrtv\n\0"
    ensures Feed(m, ['\\', c]) == m.(value := m.value + [c])
  {
    hide Feed;
    assert ['\\', c] == ['\\'] + ([c] + "");
    FeedOne(m, '\\', [c] + "");
    FeedOne(m.(escape := true), c, "");
    FeedNothing(m.(value := m.value + [c]));
  }

  lemma QuoteIsRead(m: Machine)
    requires m.Valid() && !m.escape
    ensures m.mode == Value ==> Step(m, '"') == m.(mode := QuotedValue)
    ensures m.mode == QuotedValue ==> Step(m, '"') == m.(mode := Value)
  {
  }

  lemma PartIsRead(m: Machine, p: Part)
    requires m.Valid() && m.mode == Value && !m.escape && |m.value + p.text| <= 200 && IsPart(p)
    ensures Feed(m, PartText(p)) == m.(value := m.value + p.text) && Fits(m, PartText(p))
  {
    hide Feed;
    hide Fits;
    hide Step;
    match p {
      case Bare(text) =>
        BareIsRead(m, text);
      case Quoted(text) =>
        var m1 := m.(mode := QuotedValue);
        var m2 := m1.(value := m.value + text);
        QuoteIsRead(m);
        QuoteIsRead(m2);
        FeedOne(m, '"', EscapedText(text) + "\"");
        FeedAppend(m1, EscapedText(text), "\"");
        EscapedIsRead(m1, text);
        assert "\"" == ['"'] + "";
        FeedOne(m2, '"', "");
        FeedNothing(m2.(mode := Value));
    }
  }

  lemma {:induction false} PartsAreRead(m: Machine, parts: seq<Part>)
    requires m.Valid() && m.mode == Value && !m.escape && |m.value + ValueOf(parts)| <= 200
    requires forall p :: p in parts ==> IsPart(p)
    ensures Feed(m, PartsText(parts)) == m.(value := m.value + ValueOf(parts)) && Fits(m, PartsText(parts))
    decreases |parts|
  {
    hide Feed;
    hide Fits;
    hide IsPart;
    hide PartText;
    if parts == [] {
      assert m.value + "" == m.value;
      FeedNothing(m);
    } else {
      var p, m' := parts[0], m.(value := m.value + parts[0].text);
      assert p in parts;
      assert m.value + p.text + ValueOf(parts[1..]) == m.value + ValueOf(parts);
      FeedAppend(m, PartText(p), PartsText(parts[1..]));
      PartIsRead(m, p);
      PartsAreRead(m', parts[1..]);
    }
  }

  lemma ValueIsStored(m: Machine, c: char)
    requires m.Valid() && m.mode == Value && m.current.Some?
    requires c == '\n' || c == '\r' || ((c == ' ' || c == '\t') && m.value != "")
    ensures var store := WithKey(m.store, m.current.value, Key(m.name, m.value));
      Step(m, c) == m.(store := store, mode := if c == ' ' || c == '\t' then ValueDone else Initial)
  {
  }

  /** m with its name and value stored, ready for the next line. */
  function Stored(m: Machine): Machine
    requires m.Valid() && m.current.Some?
  {
    m.(store := WithKey(m.store, m.current.value, Key(m.name, m.value)), mode := Initial)
  }

  lemma LineEndStores(m: Machine)
    requires m.Valid() && InBuffer(m) && m.mode == Value && m.current.Some?
    ensures Feed(m, "\n") == Stored(m) && Fits(m, "\n")
    ensures Feed(m, "\r\n") == Stored(m) && Fits(m, "\r\n")
  {
    hide Feed;
    hide Fits;
    hide Step;
    ValueIsStored(m, '\n');
    ValueIsStored(m, '\r');
    assert "\n" == ['\n'] + "" && "\r\n" == ['\r'] + "\n";
    FeedOne(m, '\n', "");
    FeedNothing(Stored(m));
    FeedOne(m, '\r', "\n");
    assert Step(Stored(m), '\n') == Stored(m) by { NewlineIsIgnored(Stored(m)); }
    NewlineIsRead(Stored(m));
  }

  lemma NewlineIsIgnored(m: Machine)
    requires m.Valid() && m.mode == Initial
    ensures Step(m, '\n') == m
  {
  }

  lemma BlanksStore(m: Machine, t: Tail)
    requires m.Valid() && InBuffer(m) && m.mode == Value && m.current.Some? && t.Tail? && IsTail(t)
    requires t.blanks != "" && m.value != ""
    ensures Feed(m, TailText(t) + "\n") == Stored(m) && Fits(m, TailText(t) + "\n")
  {
    hide Feed;
    hide Fits;
    hide Step;
    var c, t' := t.blanks[0], Tail(t.blanks[1..], t.comment);
    assert c in t.blanks && forall d :: d in t.blanks[1..] ==> d in t.blanks;
    ValueIsStored(m, c);
    assert t.blanks + t.comment + "\n" == [c] + (t'.blanks + t.comment + "\n");
    hide TailText;
    assert TailText(t) + "\n" == [c] + (TailText(t') + "\n") by { TailIs(t); TailIs(t'); }
    FeedOne(m, c, TailText(t') + "\n");
    TailIsRead(Stored(m).(mode := ValueDone), t');
  }

  lemma TailIs(t: Tail)
    requires t.Tail?
    ensures TailText(t) == t.blanks + t.comment
  {
  }

  lemma EmptyValueEnds(m: Machine, blanks: string)
    requires m.Valid() && InBuffer(m) && m.mode == Value && m.current.Some? && m.value == "" && AreBlanks(blanks)
    ensures Feed(m, blanks + "\n") == Stored(m) && Fits(m, blanks + "\n")
  {
    FeedStays(m, blanks);
    hide Feed;
    hide Fits;
    FeedAppend(m, blanks, "\n");
    LineEndStores(m);
  }

  /** Behind a value, blanks or the end of the line store it, and what follows is passed over. */
  lemma ValueEnds(m: Machine, t: Tail)
    requires m.Valid() && InBuffer(m) && m.mode == Value && m.current.Some? && IsTail(t)
    requires t.Tail? && t.comment != "" ==> t.blanks != "" && m.value != ""
    ensures Feed(m, TailText(t) + "\n") == Stored(m) && Fits(m, TailText(t) + "\n")
  {
    hide Feed;
    hide Fits;
    hide Step;
    LineEndStores(m);
    if t.Return? {
      assert "\r" + "\n" == "\r\n";
    } else if m.value == "" {
      EmptyValueEnds(m, t.blanks);
      assert t.blanks + "" + "\n" == t.blanks + "\n";
    } else if t.blanks == "" {
      assert "" + "" + "\n" == "\n";
    } else {
      BlanksStore(m, t);
    }
  }

  /** A setting up to the end of its value. */
  lemma ValueIsRead(m: Machine, l: Line, end: string)
    requires m.Valid() && m.mode == Initial && InBuffer(m) && !m.escape && l.Setting? && IsLine(l)
    ensures var m' := m.(mode := Value, name := l.name, value := ValueOf(l.parts));
      var t := l.name + (l.before + ("=" + (l.after + (PartsText(l.parts) + end))));
      Feed(m, t) == Feed(m', end) && (Fits(m', end) ==> Fits(m, t))
  {
    hide *;
    SettingParts(l);
    NamesAreNotEmpty(l.name);
    SameValidity(m);
    var m1 := m.(mode := KeyName, name := l.name);
    var m2 := m1.(mode := Value, value := "");
    var rest := PartsText(l.parts) + end;
    SmallValue(m);
    SmallValue(m1);
    SmallValue(m2);
    FeedAppend(m, l.name, l.before + ("=" + (l.after + rest)));
    FeedWholeName(m, l.name);
    EqualsIsRead(m1, l.before, l.after, rest);
    FeedAppend(m2, PartsText(l.parts), end);
    assert "" + ValueOf(l.parts) == ValueOf(l.parts);
    PartsAreRead(m2, l.parts);
  }

  lemma SameValidity(m: Machine)
    requires m.Valid()
    ensures forall m': Machine :: m'.store == m.store && m'.current == m.current ==> m'.Valid()
    ensures m.current.Some? ==> m.current.value < |m.store|
  {
  }

  lemma SmallValue(m: Machine)
    ensures InBuffer(m) <==> |m.value| <= 200
  {
  }

  lemma SettingParts(l: Line)
    requires l.Setting? && IsLine(l)
    ensures CleanName(l.name) && IsGap(l.before) && AreBlanks(l.after) && IsTail(l.tail)
    ensures (forall p :: p in l.parts ==> IsPart(p)) && |ValueOf(l.parts)| <= 200
    ensures l.tail.Tail? && l.tail.comment != "" ==> l.tail.blanks != "" && ValueOf(l.parts) != ""
    ensures LineText(l) ==
      l.name + (l.before + ("=" + (l.after + (PartsText(l.parts) + (TailText(l.tail) + "\n")))))
  {
    TextsAreClean(l.name);
  }

  lemma StoredIs(m: Machine)
    requires m.Valid() && m.current.Some?
    ensures Stored(m) == m.(store := WithKey(m.store, m.current.value, Key(m.name, m.value)), mode := Initial)
  {
  }

  lemma SettingIsRead(m: Machine, l: Line)
    requires m.Valid() && m.mode == Initial && InBuffer(m) && !m.escape && m.current.Some? && l.Setting? && IsLine(l)
    ensures Fits(m, LineText(l))
    ensures Feed(m, LineText(l)) == m.(name := l.name, value := ValueOf(l.parts),
      store := WithKey(m.store, m.current.value, Key(l.name, ValueOf(l.parts))))
  {
    hide *;
    SettingParts(l);
    SameValidity(m);
    var m' := m.(mode := Value, name := l.name, value := ValueOf(l.parts));
    SmallValue(m');
    ValueIsRead(m, l, TailText(l.tail) + "\n");
    ValueEnds(m', l.tail);
    StoredIs(m');
  }

  /** A comment right behind a value, without a blank, hides the setting: it is not stored, and nothing is reported. */
  lemma CommentHidesSetting(m: Machine, l: Line, comment: string)
    requires m.Valid() && m.mode == Initial && InBuffer(m) && !m.escape && m.current.Some?
    requires l.Setting? && IsLine(l) && l.tail == Tail("", "") && ValueOf(l.parts) != "" && IsRemark(comment)
    ensures Feed(m, LineText(l.(tail := Tail("", comment)))) == m.(name := l.name, value := ValueOf(l.parts))
  {
    hide *;
    TextBeforeComment(l, comment);
    SettingParts(l);
    SameValidity(m);
    var m' := m.(mode := Value, name := l.name, value := ValueOf(l.parts));
    SmallValue(m');
    ValueIsRead(m, l, comment + "\n");
    RemarkAfterValue(m', comment);
    RemarkIsRead(m', comment);
  }

  lemma TextBeforeComment(l: Line, comment: string)
    requires l.Setting?
    ensures LineText(l.(tail := Tail("", comment)))
      == l.name + (l.before + ("=" + (l.after + (PartsText(l.parts) + (comment + "\n")))))
  {
    assert "" + comment == comment;
  }

  lemma RemarkAfterValue(m: Machine, comment: string)
    requires m.Valid() && m.mode == Value && m.value != "" && IsRemark(comment)
    ensures Step(m, comment[0]) == m.(mode := Comment)
  {
  }

  // ----- whole files --------------------------------------------------------------------------------------

  /** Settings stand behind a label. */
  predicate Sectioned(lines: seq<Line>, open: bool) {
    lines == [] || ((lines[0].Setting? ==> open) && Sectioned(lines[1..], open || lines[0].Label?))
  }

  ghost function ApplyAll(c: Contents, lines: seq<Line>): Contents
    requires (c.current.Some? ==> c.current.value < |c.store|) && Sectioned(lines, c.current.Some?)
    decreases |lines|
  {
    if lines == [] then c else ApplyAll(Apply(c, lines[0]), lines[1..])
  }

  lemma LineIsRead(m: Machine, c: Contents, l: Line)
    requires Ready(m, c.store, c.current) && m.Valid() && IsLine(l) && (l.Setting? ==> c.current.Some?)
    ensures var r := Apply(c, l);
      Ready(Feed(m, LineText(l)), r.store, r.current) && Fits(m, LineText(l)) && (l.Label? ==> r.current.Some?)
  {
    hide Feed;
    hide Fits;
    hide LineText;
    hide FirstOf;
    hide Exists;
    match l {
      case Blank(_) => BlankLineIsRead(m, l);
      case Remark(_) => BlankLineIsRead(m, l);
      case Label(name, tail) =>
        TextsAreClean(name);
        LabelIsRead(m, name, tail);
        OpensAlike(m.(section := name));
      case Setting(name, before, after, parts, tail) =>
        SettingIsRead(m, l);
    }
  }

  lemma {:induction false} LinesAreRead(m: Machine, c: Contents, lines: seq<Line>)
    requires Ready(m, c.store, c.current) && m.Valid() && (forall l :: l in lines ==> IsLine(l))
    requires Sectioned(lines, c.current.Some?)
    ensures var r := ApplyAll(c, lines); Ready(Feed(m, FileText(lines)), r.store, r.current) && Fits(m, FileText(lines))
    decreases |lines|
  {
    hide Feed;
    hide Fits;
    hide IsLine;
    hide LineText;
    hide Ready;
    if lines == [] {
      FeedNothing(m);
    } else {
      var l := lines[0];
      assert l in lines;
      ReadyIs(m, c.store, c.current);
      FeedAppend(m, LineText(l), FileText(lines[1..]));
      LineIsRead(m, c, l);
      LinesAreRead(Feed(m, LineText(l)), Apply(c, l), lines[1..]);
    }
  }

  lemma ReadyIs(m: Machine, store: seq<Section>, current: Option<nat>)
    requires Ready(m, store, current)
    ensures m.store == store && m.current == current
  {
  }

  /** A file of well-formed lines is read as what its lines mean, on top of what is stored already, without error. */
  lemma FileIsRead(store: seq<Section>, lines: seq<Line>)
    requires (forall l :: l in lines ==> IsLine(l)) && Sectioned(lines, false)
    ensures Fits(Start(store), FileText(lines))
    ensures var r := Step(Feed(Start(store), FileText(lines)), '\0');
      !r.error && r.store == ApplyAll(Contents(store, None), lines).store
  {
    hide Feed;
    hide Fits;
    hide IsLine;
    LinesAreRead(Start(store), Contents(store, None), lines);
  }

  // ----- the end of the file ------------------------------------------------------------------------------

  /** Where the rest of a line is being ignored there has been an error. */
  predicate ErrorKnown(m: Machine) { m.mode == Invalid || m.mode == InvalidSectionLabel ==> m.error }

  lemma StepKnowsErrors(m: Machine, c: char)
    requires m.Valid() && ErrorKnown(m) && c != '\0' && m.mode != End
    ensures ErrorKnown(Step(m, c)) && Step(m, c).mode != End
  {
    hide StepValue;
    hide OpenSection;
    hide Unescaped;
    if m.mode == Value {
      ValueKnowsErrors(m, c);
    }
  }

  lemma ValueKnowsErrors(m: Machine, c: char)
    requires m.Valid() && m.mode == Value
    ensures var r := StepValue(m, c); r.mode != InvalidSectionLabel && r.mode != End && (r.mode == Invalid ==> r.error)
  {
  }

  lemma {:induction false} FeedKnowsErrors(m: Machine, text: string)
    requires m.Valid() && ErrorKnown(m) && '\0' !in text && m.mode != End
    ensures ErrorKnown(Feed(m, text)) && Feed(m, text).mode != End
    decreases |text|
  {
    hide Step;
    hide ErrorKnown;
    if text != "" {
      assert text[0] in text && '\0' !in text[1..];
      StepKnowsErrors(m, text[0]);
      FeedKnowsErrors(Step(m, text[0]), text[1..]);
    }
  }

  lemma EndIsLikeNewline(m: Machine)
    requires m.Valid() && ErrorKnown(m) && m.mode != End && !Step(m, '\n').error
    ensures Step(m, '\0').store == Step(m, '\n').store && !Step(m, '\0').error
  {
  }

  /** The last line of a file need not end in a newline. */
  lemma LastNewlineIsOptional(store: seq<Section>, text: string)
    requires '\0' !in text && !Feed(Start(store), text + "\n").error
    ensures var r := Step(Feed(Start(store), text), '\0'); !r.error && r.store == Feed(Start(store), text + "\n").store
  {
    hide Feed;
    hide Step;
    var m := Feed(Start(store), text);
    FeedAppend(Start(store), text, "\n");
    assert "\n" == ['\n'] + "";
    FeedOne(m, '\n', "");
    FeedNothing(Step(m, '\n'));
    FeedKnowsErrors(Start(store), text);
    EndIsLikeNewline(m);
  }

  // ----- lines that are no good -----------------------------------------------------------------------------

  /**
    A word alone, or with a blank and no '=' behind it, a label or a quote left open, names and labels that
    are too long, a value with a character it may not hold.
   */
  datatype Fault =
    | LooseWord(name: string)
    | TwoWords(name: string, blank: char, blanks: string, c: char, rest: string)
    | LongName(name: string, c: char, rest: string)
    | OpenLabel(name: string)
    | LongLabel(name: string, c: char, rest: string, closed: bool)
    | OpenQuote(name: string, text: string)
    | BadValue(name: string, text: string, c: char, rest: string)

  function FaultText(f: Fault): string {
    match f
    case LooseWord(name) => name + "\n"
    case TwoWords(name, blank, blanks, c, rest) => name + ([blank] + (blanks + ([c] + (rest + "\n"))))
    case LongName(name, c, rest) => name + ([c] + (rest + "\n"))
    case OpenLabel(name) => "[" + (name + "\n")
    case LongLabel(name, c, rest, closed) => "[" + (name + ([c] + (rest + (if closed then "]" else "\n"))))
    case OpenQuote(name, text) => name + ("=" + ("\"" + (EscapedText(text) + "\n")))
    case BadValue(name, text, c, rest) => name + ("=" + (text + ([c] + (rest + "\n"))))
  }

  /**
    Names and labels have at most 40 characters.  A value has at most 200, holds no brackets or '='
    and begins with no comment.
   */
  predicate IsFault(f: Fault) {
    match f
    case LooseWord(name) => IsNameText(name)
    case TwoWords(name, blank, blanks, c, rest) =>
      && IsNameText(name) && (blank == ' ' || blank == '\t' || blank == '\r') && AreBlanks(blanks)
      && c !in " \t=\0" && '\n' !in rest && '\0' !in rest
    case LongName(name, c, rest) =>
      && IsNameText(name) && |name| == 40 && c !in " \t\r\n=\0" && '\n' !in rest && '\0' !in rest
    case OpenLabel(name) => IsLabelText(name)
    case LongLabel(name, c, rest, _) =>
      && IsLabelText(name) && |name| == 40 && c !in "]\n\0" && forall d :: d in rest ==> d !in "]\n\0"
    case OpenQuote(name, text) => IsNameText(name) && |text| <= 200 && '\0' !in text
    case BadValue(name, text, c, rest) =>
      && IsNameText(name) && |text| <= 200 && IsPart(Bare(text)) && '\n' !in rest && '\0' !in rest
      && (c in "[]=" || (c in "#;" && text == "") || (|text| == 200 && IsPart(Bare([c]))))
  }

  /** What fails leaves the store as it was; the next line is read afresh. */
  ghost predicate Faulty(m: Machine, r: Machine) {
    r.error && r.mode == Initial && r.store == m.store && r.current == m.current && !r.escape && InBuffer(r)
  }

  lemma LineEndFails(m: Machine)
    requires m.Valid() && InBuffer(m) && !m.escape
    requires m.mode == KeyName || m.mode == SectionLabel || m.mode == QuotedValue
    ensures Faulty(m, Feed(m, "\n")) && Fits(m, "\n")
  {
    hide Feed;
    hide Fits;
    assert "\n" == ['\n'] + "";
    FeedOne(m, '\n', "");
    FeedNothing(Step(m, '\n'));
  }

  lemma RestIsIgnored(m: Machine, rest: string)
    requires m.Valid() && InBuffer(m) && !m.escape && m.error && m.mode == Invalid && '\n' !in rest && '\0' !in rest
    ensures Faulty(m, Feed(m, rest + "\n")) && Fits(m, rest + "\n")
  {
    FeedStays(m, rest);
    hide Feed;
    hide Fits;
    FeedAppend(m, rest, "\n");
    assert "\n" == ['\n'] + "";
    FeedOne(m, '\n', "");
    FeedNothing(Step(m, '\n'));
  }

  lemma LabelIsIgnored(m: Machine, rest: string, closed: bool)
    requires m.Valid() && InBuffer(m) && !m.escape && m.error && m.mode == InvalidSectionLabel
    requires forall d :: d in rest ==> d !in "]\n\0"
    ensures var end := if closed then "]" else "\n"; Faulty(m, Feed(m, rest + end)) && Fits(m, rest + end)
  {
    FeedStays(m, rest);
    hide Feed;
    hide Fits;
    var end := if closed then "]" else "\n";
    var r := m.(mode := Initial);
    FeedAppend(m, rest, end);
    assert "\n" == ['\n'] + "" && "]" == [']'] + "";
    FeedOne(m, ']', "");
    FeedOne(m, '\n', "");
    FeedNothing(r);
  }

  lemma TooLongFails(m: Machine, c: char)
    requires m.Valid()
    ensures m.mode == KeyName && |m.name| == 40 && c !in " \t\r\n=\0" ==> Step(m, c) == Failed(m, Invalid)
    ensures m.mode == SectionLabel && |m.section| == 40 && c !in "]\n\0" ==>
      Step(m, c) == Failed(m, InvalidSectionLabel)
  {
  }

  /** Behind a label or a value stand only blanks and a comment; anything else is an error, up to the next line. */
  lemma StrangeBehindItem(m: Machine, c: char, rest: string)
    requires m.Valid() && InBuffer(m) && !m.escape && (m.mode == SectionLabelDone || m.mode == ValueDone)
    requires c !in " \t#;\n\0]" && '\n' !in rest && '\0' !in rest
    ensures Faulty(m, Feed(m, [c] + (rest + "\n")))
  {
    var r := Failed(m, Invalid);
    assert Step(m, c) == r;
    hide Feed;
    hide Fits;
    hide Step;
    FeedOne(m, c, rest + "\n");
    RestIsIgnored(r, rest);
  }

  /** A bracket that closes nothing is an error too, but what follows it is read at once. */
  lemma BracketBehindItem(m: Machine)
    requires m.Valid() && (m.mode == SectionLabelDone || m.mode == ValueDone)
    ensures Step(m, ']') == m.(error := true, mode := Initial)
  {
  }

  lemma BadCharacterFails(m: Machine, c: char)
    requires m.Valid() && m.mode == Value
    requires c in "[]=" || (c in "#;" && m.value == "") || (|m.value| == 200 && IsPart(Bare([c])))
    ensures Step(m, c) == Failed(m, Invalid)
  {
    assert c in [c];
  }

  /** A faulty line is an error and changes nothing else. */
  lemma FaultIsReported(m: Machine, f: Fault)
    requires m.Valid() && m.mode == Initial && InBuffer(m) && !m.escape && IsFault(f)
    ensures Faulty(m, Feed(m, FaultText(f))) && Fits(m, FaultText(f))
  {
    hide Feed;
    hide Fits;
    hide Step;
    hide CleanName;
    var m1 := m.(mode := KeyName, name := f.name);
    var m2 := m1.(mode := Value, value := "");
    TextsAreClean(f.name);
    hide IsNameText;
    hide IsLabelText;
    match f {
      case TwoWords(name, blank, blanks, c, rest) =>
        SecondWordFails(m, name, blank, blanks, c, rest);
      case LooseWord(name) =>
        FeedWholeName(m, name);
        FeedAppend(m, name, "\n");
        LineEndFails(m1);
      case LongName(name, c, rest) =>
        FeedWholeName(m, name);
        FeedAppend(m, name, [c] + (rest + "\n"));
        TooLongFails(m1, c);
        FeedOne(m1, c, rest + "\n");
        RestIsIgnored(Failed(m1, Invalid), rest);
      case OpenLabel(name) =>
        var n1 := m.(mode := SectionLabel, section := "");
        LabelBegins(m);
        FeedOne(m, '[', name + "\n");
        FeedLabel(n1, name);
        FeedAppend(n1, name, "\n");
        LineEndFails(n1.(section := "" + name));
      case LongLabel(name, c, rest, closed) =>
        var n1 := m.(mode := SectionLabel, section := "");
        var end := rest + (if closed then "]" else "\n");
        LabelBegins(m);
        FeedOne(m, '[', name + ([c] + end));
        FeedLabel(n1, name);
        FeedAppend(n1, name, [c] + end);
        assert "" + name == name;
        var n2 := n1.(section := name);
        TooLongFails(n2, c);
        FeedOne(n2, c, end);
        LabelIsIgnored(Failed(n2, InvalidSectionLabel), rest, closed);
      case OpenQuote(name, text) =>
        var rest := "\"" + (EscapedText(text) + "\n");
        NameAndEquals(m, name, rest);
        QuoteIsRead(m2);
        FeedOne(m2, '"', EscapedText(text) + "\n");
        var m3 := m2.(mode := QuotedValue);
        assert "" + text == text;
        EscapedIsRead(m3, text);
        FeedAppend(m3, EscapedText(text), "\n");
        LineEndFails(m3.(value := text));
      case BadValue(name, text, c, rest) =>
        var end := [c] + (rest + "\n");
        NameAndEquals(m, name, text + end);
        assert "" + text == text;
        BareIsRead(m2, text);
        FeedAppend(m2, text, end);
        var m3 := m2.(value := text);
        BadCharacterFails(m3, c);
        FeedOne(m3, c, rest + "\n");
        RestIsIgnored(Failed(m3, Invalid), rest);
    }
  }

  /** When the other character is the end of the line, the rest that is ignored is the whole next line. */
  lemma SecondWordFails(m: Machine, name: string, blank: char, blanks: string, c: char, rest: string)
    requires m.Valid() && m.mode == Initial && InBuffer(m) && !m.escape && CleanName(name)
    requires (blank == ' ' || blank == '\t' || blank == '\r') && AreBlanks(blanks)
    requires c !in " \t=\0" && '\n' !in rest && '\0' !in rest
    ensures var t := name + ([blank] + (blanks + ([c] + (rest + "\n")))); Faulty(m, Feed(m, t)) && Fits(m, t)
  {
    var m1 := m.(mode := KeyName, name := name);
    var m2 := m1.(mode := Assignment);
    FeedStays(m2, blanks);
    assert Step(m2, c) == Failed(m2, Invalid);
    NamesAreNotEmpty(name);
    BlankAfterName(m1, blank);
    hide Feed;
    hide Fits;
    hide Step;
    hide CleanName;
    FeedWholeName(m, name);
    FeedAppend(m, name, [blank] + (blanks + ([c] + (rest + "\n"))));
    FeedOne(m1, blank, blanks + ([c] + (rest + "\n")));
    FeedAppend(m2, blanks, [c] + (rest + "\n"));
    FeedOne(m2, c, rest + "\n");
    RestIsIgnored(Failed(m2, Invalid), rest);
  }

  lemma LabelBegins(m: Machine)
    requires m.Valid() && m.mode == Initial
    ensures Step(m, '[') == m.(mode := SectionLabel, section := "")
  {
  }

  lemma NameAndEquals(m: Machine, name: string, rest: string)
    requires m.Valid() && m.mode == Initial && InBuffer(m) && CleanName(name)
    ensures var m' := m.(mode := Value, name := name, value := "");
      Feed(m, name + ("=" + rest)) == Feed(m', rest) && (Fits(m', rest) ==> Fits(m, name + ("=" + rest)))
  {
    hide Feed;
    hide Fits;
    hide Step;
    var m1 := m.(mode := KeyName, name := name);
    FeedWholeName(m, name);
    FeedAppend(m, name, "=" + rest);
    NamesAreNotEmpty(name);
    assert "" + ("=" + ("" + rest)) == "=" + rest;
    EqualsIsRead(m1, "", "", rest);
  }

  /** A setting in front of the first label is an error and is not stored. */
  lemma OutsideSections(m: Machine, l: Line)
    requires m.Valid() && m.mode == Initial && InBuffer(m) && !m.escape && m.current.None?
    requires l.Setting? && IsLine(l) && l.tail == Tail("", "")
    ensures Faulty(m, Feed(m, LineText(l)))
  {
    hide *;
    SettingParts(l);
    SameValidity(m);
    var m' := m.(mode := Value, name := l.name, value := ValueOf(l.parts));
    SmallValue(m');
    ValueIsRead(m, l, TailText(l.tail) + "\n");
    NothingBehind();
    NowhereToStore(m');
    FaultyAlike(m, m', Feed(m', "\n"));
  }

  lemma NothingBehind()
    ensures TailText(Tail("", "")) + "\n" == "\n"
  {
  }

  lemma NowhereToStore(m: Machine)
    requires m.Valid() && InBuffer(m) && !m.escape && m.mode == Value && m.current.None?
    ensures Faulty(m, Feed(m, "\n"))
  {
    hide Feed;
    assert "\n" == ['\n'] + "";
    FeedOne(m, '\n', "");
    FeedNothing(Step(m, '\n'));
  }

  lemma FaultyAlike(m: Machine, m': Machine, r: Machine)
    requires Faulty(m', r) && m.store == m'.store && m.current == m'.current
    ensures Faulty(m, r)
  {
  }
}
