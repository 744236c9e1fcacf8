/**
  Reading INI-style configuration files.

  The store is the list of sections, each with its list of keys.  `Step` is the parser's reaction to
  one character and `Feed` its run over a text; `Dump` prints a store.  Text holds no NUL: the
  parser sees one at the end of the file.
 */
module ConfigFile {
  import opened Common

  datatype Key = Key(name: string, value: string)

  datatype Section = Section(name: string, keys: seq<Key>)

  // ----- names, ignoring case -------------------------------------------------------------------

  predicate SameName(a: string, b: string) {
    |a| == |b| && forall i :: 0 <= i < |a| ==> Lower(a[i]) == Lower(b[i])
  }

  /** The first section of that name. */
  function FindSection(store: seq<Section>, name: string): (r: Option<nat>)
    ensures r.Some? ==> r.value < |store| && SameName(store[r.value].name, name)
    ensures r.None? <==> forall i :: 0 <= i < |store| ==> !SameName(store[i].name, name)
  {
    if store == [] then None
    else if SameName(store[0].name, name) then Some(0)
    else
      var r := FindSection(store[1..], name);
      if r.None? then
        assert forall i :: 0 < i < |store| ==> store[i] == store[1..][i - 1];
        None
      else Some(r.value + 1)
  }

  // ----- the parser -------------------------------------------------------------------------------

  const MAX_SECTION_LABEL_LENGTH := 40
  const MAX_KEY_NAME_LENGTH := 40
  const MAX_VALUE_LENGTH := 200

  datatype Mode =
    | Initial | Comment | SectionLabel | KeyName | Assignment | Value | QuotedValue
    | SectionLabelDone | ValueDone | InvalidSectionLabel | Invalid | End

  /** The parser's variables; current is the position of the current section. */
  datatype Machine = Machine(
    mode: Mode, section: string, name: string, value: string, escape: bool,
    current: Option<nat>, store: seq<Section>, error: bool)
  {
    predicate Valid() {
      current.Some? ==> current.value < |store|
    }
  }

  function Failed(m: Machine, mode: Mode): Machine {
    m.(error := true, mode := mode)
  }

  function StepInitial(m: Machine, ch: char): Machine {
    if ch == '#' || ch == ';' then m.(mode := Comment)
    else if ch == '\0' || ch == '\n' || ch == '\r' || ch == '\t' || ch == ' ' then m
    else if ch == '[' then m.(mode := SectionLabel, section := "")
    else m.(mode := KeyName, name := [ch])
  }

  /** Find the section or append a new one, and make it current. */
  function OpenSection(m: Machine): Machine {
    var found := FindSection(m.store, m.section);
    if found.Some? then m.(current := found)
    else m.(store := m.store + [Section(m.section, [])], current := Some(|m.store|))
  }

  function StepSectionLabel(m: Machine, ch: char): Machine {
    if ch == '\0' || ch == '\n' then Failed(m, Initial)
    else if ch == ']' then OpenSection(m).(mode := SectionLabelDone)
    else if |m.section| < MAX_SECTION_LABEL_LENGTH then m.(section := m.section + [ch])
    else Failed(m, InvalidSectionLabel)
  }

  function StepKeyName(m: Machine, ch: char): Machine {
    if ch == '\r' || ch == '\t' || ch == ' ' then if m.name != "" then m.(mode := Assignment) else m
    else if ch == '\0' || ch == '\n' then Failed(m, Initial)
    else if ch == '=' then m.(mode := Value, value := "")
    else if |m.name| < MAX_KEY_NAME_LENGTH then m.(name := m.name + [ch])
    else Failed(m, Invalid)
  }

  function StepAssignment(m: Machine, ch: char): Machine {
    if ch == '\t' || ch == ' ' then m
    else if ch == '=' then m.(mode := Value, value := "")
    else Failed(m, Invalid)
  }

  /** Append the key to the current section. */
  function AddKey(m: Machine): Machine
    requires m.Valid()
  {
    match m.current
    case None => m.(error := true)
    case Some(i) => m.(store := m.store[i := m.store[i].(keys := m.store[i].keys + [Key(m.name, m.value)])])
  }

  function StepValue(m: Machine, ch: char): Machine
    requires m.Valid()
  {
    if (ch == '#' || ch == ';') && m.value != "" then m.(mode := Comment)
    else if ch in "#;[]=" then Failed(m, Invalid)
    else if (ch == '\t' || ch == ' ') && m.value == "" then m
    else if ch == '\t' || ch == ' ' then AddKey(m).(mode := ValueDone)
    else if ch == '\0' || ch == '\n' || ch == '\r' then AddKey(m).(mode := Initial)
    else if ch == '"' then m.(mode := QuotedValue)
    else if |m.value| < MAX_VALUE_LENGTH then m.(value := m.value + [ch])
    else Failed(m, Invalid)
  }

  function Unescaped(ch: char): char {
    match ch
    case 'a' => 7 as char
    case 'b' => 8 as char
    case 'f' => 12 as char
    case 'n' => '\n'
    case 'r' => '\r'
    case 't' => '\t'
    case 'v' => 11 as char
    case _ => ch
  }

  function StepQuotedValue(m: Machine, ch: char): Machine {
    if ch == '\0' || ch == '\n' then Failed(m, Initial)
    else if ch == '\\' && !m.escape then m.(escape := true)
    else if ch == '"' && !m.escape then m.(mode := Value)
    else m.(value := m.value + [if m.escape then Unescaped(ch) else ch], escape := false)
  }

  /** After a label or a value; an invalid ']' already ends the error at itself. */
  function StepDone(m: Machine, ch: char): Machine {
    if ch == ';' || ch == '#' then m.(mode := Comment)
    else if ch == '\0' || ch == '\n' then m.(mode := Initial)
    else if ch == '\t' || ch == ' ' then m
    else Failed(m, if ch == ']' then Initial else Invalid)
  }

  function StepMode(m: Machine, ch: char): (r: Machine)
    requires m.Valid()
    ensures r.Valid()
  {
    match m.mode
    case Initial => StepInitial(m, ch)
    case SectionLabel => StepSectionLabel(m, ch)
    case KeyName => StepKeyName(m, ch)
    case Assignment => StepAssignment(m, ch)
    case Value => StepValue(m, ch)
    case QuotedValue => StepQuotedValue(m, ch)
    case SectionLabelDone => StepDone(m, ch)
    case ValueDone => StepDone(m, ch)
    case InvalidSectionLabel => if ch == ']' || ch == '\n' then m.(mode := Initial) else m
    case Invalid => if ch == '\n' then m.(mode := Initial) else m
    case Comment => if ch == '\n' then m.(mode := Initial) else m
    case End => m
  }

  predicate MayEnd(mode: Mode) {
    mode == Initial || mode == Comment || mode == SectionLabelDone || mode == ValueDone
  }

  function Step(m: Machine, ch: char): (r: Machine)
    requires m.Valid()
    ensures r.Valid()
  {
    var r := StepMode(m, ch);
    if ch != '\0' then r
    else r.(error := r.error || !MayEnd(r.mode), mode := End)
  }

  function Feed(m: Machine, text: string): (r: Machine)
    requires m.Valid()
    ensures r.Valid()
    decreases |text|
  {
    if text == "" then m else Feed(Step(m, text[0]), text[1..])
  }

  /** The value fits into its buffer. */
  predicate InBuffer(m: Machine) { |m.value| <= MAX_VALUE_LENGTH }

  /** No quoted value of the text outgrows the buffer, which only unquoted values are checked against. */
  predicate Fits(m: Machine, text: string)
    requires m.Valid()
    decreases |text|
  {
    text == "" || (InBuffer(Step(m, text[0])) && Fits(Step(m, text[0]), text[1..]))
  }

  function Start(store: seq<Section>): (m: Machine)
    ensures m.Valid()
  {
    Machine(Initial, "", "", "", false, None, store, false)
  }

  // ----- the printer ------------------------------------------------------------------------------

  function DumpKey(k: Key): string {
    k.name + (" = \"" + (k.value + "\"\n"))
  }

  function DumpKeys(keys: seq<Key>): string {
    if keys == [] then "" else DumpKey(keys[0]) + DumpKeys(keys[1..])
  }

  function DumpSection(s: Section): string {
    "[" + (s.name + ("]\n" + (DumpKeys(s.keys) + "\n")))
  }

  function Dump(store: seq<Section>): string {
    if store == [] then "" else DumpSection(store[0]) + Dump(store[1..])
  }

  // ----- the round trip ---------------------------------------------------------------------------

  predicate CleanLabel(s: string) {
    |s| <= MAX_SECTION_LABEL_LENGTH && forall c :: c in s ==> c !in "]\n\0"
  }

  /** A key name starts with no comment, label or blank and holds no blank; '=' may only come first. */
  predicate CleanName(s: string) {
    && 0 < |s| <= MAX_KEY_NAME_LENGTH && s[0] !in "#;["
    && (forall c :: c in s ==> c !in "\0\n\r\t ")
    && forall i :: 0 < i < |s| ==> s[i] != '='
  }

  predicate CleanValue(s: string) {
    |s| <= MAX_VALUE_LENGTH && forall c :: c in s ==> c !in "\"\\\n\0"
  }

  predicate CleanKey(k: Key) { CleanName(k.name) && CleanValue(k.value) }

  predicate CleanSection(s: Section) { CleanLabel(s.name) && forall k :: k in s.keys ==> CleanKey(k) }

  predicate Clean(store: seq<Section>) {
    && (forall s :: s in store ==> CleanSection(s))
    && forall i, j :: 0 <= i < j < |store| ==> !SameName(store[i].name, store[j].name)
  }

  lemma {:induction false} FeedAppend(m: Machine, a: string, b: string)
    requires m.Valid()
    ensures Feed(m, a + b) == Feed(Feed(m, a), b)
    ensures Fits(m, a + b) <==> Fits(m, a) && Fits(Feed(m, a), b)
    decreases |a|
  {
    hide Step;
    hide InBuffer;
    if a == "" {
      assert a + b == b;
    } else {
      FeedAppend(Step(m, a[0]), a[1..], b);
      assert (a + b)[1..] == a[1..] + b;
    }
  }

  lemma {:induction false} FeedLabel(m: Machine, s: string)
    requires m.Valid() && m.mode == SectionLabel && |m.section + s| <= MAX_SECTION_LABEL_LENGTH
    requires forall c :: c in s ==> c !in "]\n\0"
    ensures Feed(m, s) == m.(section := m.section + s)
    ensures InBuffer(m) ==> Fits(m, s)
    decreases |s|
  {
    if s == "" {
      assert m.section + s == m.section;
    } else {
      assert s[0] in s;
      FeedLabel(m.(section := m.section + [s[0]]), s[1..]);
      assert m.section + [s[0]] + s[1..] == m.section + s;
    }
  }

  lemma {:induction false} FeedName(m: Machine, s: string)
    requires m.Valid() && m.mode == KeyName && |m.name + s| <= MAX_KEY_NAME_LENGTH
    requires forall c :: c in s ==> c !in "\0\n\r\t ="
    ensures Feed(m, s) == m.(name := m.name + s)
    ensures InBuffer(m) ==> Fits(m, s)
    decreases |s|
  {
    if s == "" {
      assert m.name + s == m.name;
    } else {
      assert s[0] in s;
      FeedName(m.(name := m.name + [s[0]]), s[1..]);
      assert m.name + [s[0]] + s[1..] == m.name + s;
    }
  }

  lemma {:induction false} FeedQuoted(m: Machine, s: string)
    requires m.Valid() && m.mode == QuotedValue && !m.escape
    requires forall c :: c in s ==> c !in "\"\\\n\0"
    ensures Feed(m, s) == m.(value := m.value + s)
    ensures |m.value + s| <= MAX_VALUE_LENGTH ==> Fits(m, s)
    decreases |s|
  {
    if s == "" {
      assert m.value + s == m.value;
    } else {
      assert s[0] in s;
      FeedQuoted(m.(value := m.value + [s[0]]), s[1..]);
      assert m.value + [s[0]] + s[1..] == m.value + s;
    }
  }

  /** The parser is between lines, with nothing wrong so far. */
  predicate Ready(m: Machine, store: seq<Section>, current: Option<nat>) {
    m.mode == Initial && !m.escape && !m.error && InBuffer(m) && m.store == store && m.current == current
  }

  function WithKey(store: seq<Section>, i: nat, k: Key): (r: seq<Section>)
    requires i < |store|
    ensures |r| == |store|
  {
    store[i := store[i].(keys := store[i].keys + [k])]
  }

  lemma FeedOne(m: Machine, c: char, rest: string)
    requires m.Valid()
    ensures Feed(m, [c] + rest) == Feed(Step(m, c), rest)
    ensures Fits(m, [c] + rest) <==> InBuffer(Step(m, c)) && Fits(Step(m, c), rest)
  {
    assert ([c] + rest)[1..] == rest;
  }

  lemma FeedNothing(m: Machine)
    requires m.Valid()
    ensures Feed(m, "") == m && Fits(m, "")
  {
  }

  /** Blank, equals sign, blank and opening quote after a key name. */
  lemma FeedEquals(m: Machine, rest: string)
    requires m.Valid() && m.mode == KeyName && m.name != ""
    ensures Feed(m, " = \"" + rest) == Feed(m.(mode := QuotedValue, value := ""), rest)
    ensures InBuffer(m) ==> (Fits(m, " = \"" + rest) <==> Fits(m.(mode := QuotedValue, value := ""), rest))
  {
    hide Feed;
    hide Fits;
    assert " = \"" + rest == [' '] + (['='] + ([' '] + (['"'] + rest)));
    FeedOne(m, ' ', ['='] + ([' '] + (['"'] + rest)));
    var m1 := m.(mode := Assignment);
    FeedOne(m1, '=', [' '] + (['"'] + rest));
    var m2 := m.(mode := Value, value := "");
    FeedOne(m2, ' ', ['"'] + rest);
    FeedOne(m2, '"', rest);
  }

  /** Closing quote and newline store the key. */
  lemma FeedStore(m: Machine)
    requires m.Valid() && m.mode == QuotedValue && !m.escape
    ensures Feed(m, "\"\n") == AddKey(m.(mode := Value)).(mode := Initial)
    ensures InBuffer(m) ==> Fits(m, "\"\n")
  {
    hide Feed;
    hide Fits;
    hide AddKey;
    var m1 := m.(mode := Value);
    assert "\"\n" == ['"'] + (['\n'] + "");
    FeedOne(m, '"', ['\n'] + "");
    FeedOne(m1, '\n', "");
    AddKeyKeepsValue(m1);
    assert Step(m, '"') == m1;
    FeedNothing(AddKey(m1).(mode := Initial));
  }

  lemma FeedWholeName(m: Machine, s: string)
    requires m.Valid() && m.mode == Initial && CleanName(s)
    ensures Feed(m, s) == m.(mode := KeyName, name := s)
    ensures InBuffer(m) ==> Fits(m, s)
  {
    assert s == [s[0]] + s[1..] && s[0] in s;
    FeedOne(m, s[0], s[1..]);
    var m1 := m.(mode := KeyName, name := [s[0]]);
    assert Step(m, s[0]) == m1;
    forall c | c in s[1..] ensures c !in "\0\n\r\t =" {
      var i :| 0 <= i < |s| - 1 && s[1..][i] == c;
      assert s[i + 1] == c && s[i + 1] in s;
    }
    FeedName(m1, s[1..]);
  }

  /** A printed key is read back into the current section. */
  lemma FeedKey(m: Machine, store: seq<Section>, i: nat, k: Key)
    requires Ready(m, store, Some(i)) && i < |store| && CleanKey(k)
    ensures Ready(Feed(m, DumpKey(k)), WithKey(store, i, k), Some(i)) && Fits(m, DumpKey(k))
  {
    hide Feed;
    hide Fits;
    hide Step;
    hide CleanName;
    var m1 := m.(mode := KeyName, name := k.name);
    FeedAppend(m, k.name, " = \"" + (k.value + "\"\n"));
    FeedWholeName(m, k.name);
    assert k.name != "" by { NamesAreNotEmpty(k.name); }
    FeedEquals(m1, k.value + "\"\n");
    var m2 := m1.(mode := QuotedValue, value := "");
    FeedAppend(m2, k.value, "\"\n");
    FeedQuoted(m2, k.value);
    assert "" + k.value == k.value;
    FeedStore(m2.(value := k.value));
  }

  lemma NamesAreNotEmpty(s: string)
    requires CleanName(s)
    ensures s != ""
  {
  }

  /** The store with keys appended to section i. */
  function WithKeys(store: seq<Section>, i: nat, keys: seq<Key>): (r: seq<Section>)
    requires i < |store|
    ensures |r| == |store|
  {
    store[i := store[i].(keys := store[i].keys + keys)]
  }

  lemma {:induction false} FeedKeys(m: Machine, store: seq<Section>, i: nat, keys: seq<Key>)
    requires Ready(m, store, Some(i)) && i < |store| && forall k :: k in keys ==> CleanKey(k)
    ensures Ready(Feed(m, DumpKeys(keys)), WithKeys(store, i, keys), Some(i)) && Fits(m, DumpKeys(keys))
    decreases |keys|
  {
    hide Feed;
    hide Fits;
    hide CleanKey;
    hide DumpKey;
    if keys == [] {
      assert store[i].keys + [] == store[i].keys;
      FeedNothing(m);
    } else {
      assert keys[0] in keys;
      FeedAppend(m, DumpKey(keys[0]), DumpKeys(keys[1..]));
      FeedKey(m, store, i, keys[0]);
      var store' := WithKey(store, i, keys[0]);
      FeedKeys(Feed(m, DumpKey(keys[0])), store', i, keys[1..]);
      assert store[i].keys + [keys[0]] + keys[1..] == store[i].keys + keys;
    }
  }

  lemma OpensNew(m: Machine)
    requires forall i :: 0 <= i < |m.store| ==> !SameName(m.store[i].name, m.section)
    ensures OpenSection(m) == m.(store := m.store + [Section(m.section, [])], current := Some(|m.store|))
  {
  }

  /** A printed label opens a new section at the end of the store, its name being new. */
  lemma FeedSectionLabel(m: Machine, store: seq<Section>, current: Option<nat>, name: string, rest: string)
    requires Ready(m, store, current) && m.Valid() && CleanLabel(name)
    requires forall i :: 0 <= i < |store| ==> !SameName(store[i].name, name)
    ensures var m' := m.(section := name, store := store + [Section(name, [])], current := Some(|store|));
      && Feed(m, "[" + (name + ("]\n" + rest))) == Feed(m', rest)
      && (Fits(m', rest) ==> Fits(m, "[" + (name + ("]\n" + rest))))
  {
    hide Feed;
    hide Fits;
    hide OpenSection;
    hide SameName;
    var m1 := m.(mode := SectionLabel, section := "");
    FeedOne(m, '[', name + ("]\n" + rest));
    FeedAppend(m1, name, "]\n" + rest);
    FeedLabel(m1, name);
    assert "" + name == name;
    var m2 := m1.(section := name);
    assert "]\n" + rest == [']'] + (['\n'] + rest);
    OpensNew(m2);
    FeedOne(m2, ']', ['\n'] + rest);
    var m3 := m2.(mode := SectionLabelDone, store := store + [Section(name, [])], current := Some(|store|));
    assert Step(m2, ']') == m3;
    FeedOne(m3, '\n', rest);
  }

  lemma FeedSection(m: Machine, store: seq<Section>, current: Option<nat>, s: Section)
    requires Ready(m, store, current) && m.Valid() && CleanSection(s)
    requires forall i :: 0 <= i < |store| ==> !SameName(store[i].name, s.name)
    ensures Ready(Feed(m, DumpSection(s)), store + [s], Some(|store|)) && Fits(m, DumpSection(s))
  {
    hide Feed;
    hide Fits;
    hide CleanLabel;
    hide CleanKey;
    var store' := store + [Section(s.name, [])];
    var m' := m.(section := s.name, store := store', current := Some(|store|));
    FeedSectionLabel(m, store, current, s.name, DumpKeys(s.keys) + "\n");
    FeedAppend(m', DumpKeys(s.keys), "\n");
    FeedKeys(m', store', |store|, s.keys);
    assert WithKeys(store', |store|, s.keys) == store + [s] by {
      assert [] + s.keys == s.keys;
    }
    var m2 := Feed(m', DumpKeys(s.keys));
    assert "\n" == ['\n'] + "";
    FeedOne(m2, '\n', "");
    FeedNothing(m2);
  }

  lemma {:induction false} FeedSections(m: Machine, store: seq<Section>, current: Option<nat>, sections: seq<Section>)
    requires Ready(m, store, current) && m.Valid() && Clean(store + sections)
    ensures var r := Feed(m, Dump(sections)); r.store == store + sections && r.mode == Initial && !r.error
    ensures Fits(m, Dump(sections))
    decreases |sections|
  {
    hide Feed;
    hide Fits;
    hide DumpSection;
    hide CleanSection;
    hide SameName;
    if sections == [] {
      assert store + [] == store;
      FeedNothing(m);
    } else {
      var s, all := sections[0], store + sections;
      assert all[|store|] == s && s in all;
      assert forall i :: 0 <= i < |store| ==> all[i] == store[i];
      FeedAppend(m, DumpSection(s), Dump(sections[1..]));
      FeedSection(m, store, current, s);
      assert store + [s] + sections[1..] == all;
      FeedSections(Feed(m, DumpSection(s)), store + [s], Some(|store|), sections[1..]);
    }
  }

  /** Reading back a printed configuration rebuilds the store, sections and keys in order, without error. */
  lemma RoundTrip(store: seq<Section>)
    requires Clean(store)
    ensures Fits(Start([]), Dump(store))
    ensures var r := Step(Feed(Start([]), Dump(store)), '\0'); r.store == store && !r.error && r.mode == End
  {
    hide Feed;
    hide Fits;
    hide Clean;
    hide Dump;
    assert [] + store == store;
    FeedSections(Start([]), [], None, store);
  }

  /** Every line has at most n more characters, the current one counting from column. */
  predicate LinesFit(text: string, column: nat, n: nat)
    decreases |text|
  {
    if text == "" then true
    else if text[0] == '\n' then LinesFit(text[1..], 0, n)
    else column < n && LinesFit(text[1..], column + 1, n)
  }

  /** A value does not continue on the next line, so that lines of at most 200 characters always fit. */
  lemma {:induction false} ShortLinesFit(m: Machine, text: string, column: nat)
    requires m.Valid() && InBuffer(m) && LinesFit(text, column, MAX_VALUE_LENGTH)
    requires m.mode == Value || m.mode == QuotedValue ==> |m.value| <= column
    ensures Fits(m, text)
    decreases |text|
  {
    if text != "" {
      ValueWithinLine(m, text[0], column);
      hide Step;
      ShortLinesFit(Step(m, text[0]), text[1..], if text[0] == '\n' then 0 else column + 1);
    }
  }

  lemma ValueWithinLine(m: Machine, ch: char, column: nat)
    requires m.Valid() && InBuffer(m) && (ch == '\n' || column < MAX_VALUE_LENGTH)
    requires m.mode == Value || m.mode == QuotedValue ==> |m.value| <= column
    ensures var r := Step(m, ch);
      InBuffer(r) && (r.mode == Value || r.mode == QuotedValue ==> |r.value| <= if ch == '\n' then 0 else column + 1)
  {
    if m.mode == Value {
      UnquotedWithinLine(m, ch);
    } else if m.mode == QuotedValue {
      QuotedWithinLine(m, ch);
    } else {
      ElsewhereNoValue(m, ch);
    }
    assert Step(m, ch).value == StepMode(m, ch).value;
    hide StepMode;
  }

  lemma UnquotedWithinLine(m: Machine, ch: char)
    requires m.Valid() && m.mode == Value
    ensures var r := StepMode(m, ch);
      && |r.value| <= Max(|m.value|, Min(|m.value| + 1, MAX_VALUE_LENGTH))
      && (r.mode == Value || r.mode == QuotedValue ==> ch != '\n')
  {
    hide AddKey;
    AddKeyKeepsValue(m);
  }

  lemma QuotedWithinLine(m: Machine, ch: char)
    requires m.Valid() && m.mode == QuotedValue
    ensures var r := StepMode(m, ch);
      && |r.value| <= |m.value| + 1 && (ch == '\n' ==> r.value == m.value)
      && (r.mode == Value || r.mode == QuotedValue ==> ch != '\n')
  {
    hide Unescaped;
  }

  lemma ElsewhereNoValue(m: Machine, ch: char)
    requires m.Valid() && m.mode != Value && m.mode != QuotedValue
    ensures var r := StepMode(m, ch);
      if r.mode == Value || r.mode == QuotedValue then r.value == "" else r.value == m.value
  {
    hide FindSection;
  }

  lemma AddKeyKeepsValue(m: Machine)
    requires m.Valid()
    ensures AddKey(m).value == m.value
  {
  }

  // ----- the program ------------------------------------------------------------------------------

  /** The keys of a name, ignoring case, in file order. */
  function Matching(keys: seq<Key>, name: string): (r: seq<Key>)
    ensures |r| <= |keys|
  {
    if keys == [] then []
    else
      var last := keys[|keys| - 1];
      Matching(keys[..|keys| - 1], name) + if SameName(last.name, name) then [last] else []
  }

  lemma {:induction false} MatchingPrefix(keys: seq<Key>, n: nat, name: string)
    requires n <= |keys|
    ensures Matching(keys[..n], name) <= Matching(keys, name)
    decreases |keys|
  {
    if n < |keys| {
      MatchingPrefix(keys[..|keys| - 1], n, name);
      assert keys[..|keys| - 1][..n] == keys[..n];
    } else {
      assert keys[..n] == keys;
    }
  }

  lemma MatchingNothing(keys: seq<Key>, name: string)
    ensures Matching(keys[..0], name) == []
  {
  }

  lemma MatchingAt(keys: seq<Key>, k: nat, name: string)
    requires k < |keys| && SameName(keys[k].name, name)
    ensures var c := |Matching(keys[..k], name)|; c < |Matching(keys, name)| && Matching(keys, name)[c] == keys[k]
  {
    hide Matching;
    hide SameName;
    MatchingOneMore(keys, k, name);
    MatchingPrefix(keys, k + 1, name);
  }

  lemma MatchingOneMore(keys: seq<Key>, k: nat, name: string)
    requires k < |keys|
    ensures Matching(keys[..k + 1], name) ==
      Matching(keys[..k], name) + if SameName(keys[k].name, name) then [keys[k]] else []
  {
    assert keys[..k + 1][..k] == keys[..k];
  }

  /** The parser's variables as the program keeps them while it reads one file. */
  class Parser {
    var state: Mode
    var sectionname: string
    var keyname: string
    var value: string
    var escape: bool
    var current: Option<nat>
    var store: seq<Section>
    var error: bool

    ghost function View(): (m: Machine)
      reads this
    {
      Machine(state, sectionname, keyname, value, escape, current, store, error)
    }

    constructor (store: seq<Section>)
      ensures View() == Start(store)
    {
      state, sectionname, keyname, value := Initial, "", "", "";
      escape, current, error := false, None, false;
      this.store := store;
    }

    method Fail(mode: Mode)
      modifies this`error, this`state
      ensures View() == Failed(old(View()), mode)
    {
      error := true;
      state := mode;
    }

    method AtStart(ch: char)
      modifies this
      ensures View() == StepInitial(old(View()), ch)
    {
      if ch == '#' || ch == ';' {
        state := Comment;
      } else if ch == '\0' || ch == '\n' || ch == '\r' || ch == '\t' || ch == ' ' {
      } else if ch == '[' {
        state := SectionLabel;
        sectionname := "";
      } else {
        state := KeyName;
        keyname := [ch];
      }
    }

    method InSectionLabel(ch: char)
      modifies this
      ensures View() == StepSectionLabel(old(View()), ch)
    {
      if ch == '\0' || ch == '\n' {
        Fail(Initial);
      } else if ch == ']' {
        current := FindSection(store, sectionname);
        if current == None {
          current := Some(|store|);
          store := store + [Section(sectionname, [])];
        }
        state := SectionLabelDone;
      } else if |sectionname| < MAX_SECTION_LABEL_LENGTH {
        sectionname := sectionname + [ch];
      } else {
        Fail(InvalidSectionLabel);
      }
    }

    method InKeyName(ch: char)
      modifies this
      ensures View() == StepKeyName(old(View()), ch)
    {
      if ch == '\r' || ch == '\t' || ch == ' ' {
        if |keyname| != 0 {
          state := Assignment;
        }
      } else if ch == '\0' || ch == '\n' {
        Fail(Initial);
      } else if ch == '=' {
        state := Value;
        value := "";
      } else if |keyname| < MAX_KEY_NAME_LENGTH {
        keyname := keyname + [ch];
      } else {
        Fail(Invalid);
      }
    }

    method BeforeAssignment(ch: char)
      modifies this
      ensures View() == StepAssignment(old(View()), ch)
    {
      if ch == '\t' || ch == ' ' {
      } else if ch == '=' {
        state := Value;
        value := "";
      } else {
        Fail(Invalid);
      }
    }

    /** Each case of the switch that the program falls through to the next is one guard here. */
    method InValue(ch: char)
      requires View().Valid()
      modifies this
      ensures View() == StepValue(old(View()), ch)
    {
      if (ch == '#' || ch == ';') && |value| > 0 {
        state := Comment;
      } else if ch == '#' || ch == ';' || ch == '[' || ch == ']' || ch == '=' {
        Fail(Invalid);
      } else if (ch == '\t' || ch == ' ') && |value| == 0 {
      } else if ch == '\t' || ch == ' ' || ch == '\0' || ch == '\n' || ch == '\r' {
        if current == None {
          error := true;
        } else {
          var s := store[current.value];
          store := store[current.value := s.(keys := s.keys + [Key(keyname, value)])];
        }
        state := if ch == ' ' || ch == '\t' then ValueDone else Initial;
      } else if ch == '"' {
        state := QuotedValue;
      } else if |value| < MAX_VALUE_LENGTH {
        value := value + [ch];
      } else {
        Fail(Invalid);
      }
    }

    method InQuotedValue(ch: char)
      requires InBuffer(StepQuotedValue(View(), ch))
      modifies this
      ensures View() == StepQuotedValue(old(View()), ch)
    {
      if ch == '\0' || ch == '\n' {
        Fail(Initial);
      } else if ch == '\\' && !escape {
        escape := true;
      } else if ch == '"' && !escape {
        state := Value;
      } else {
        var c := ch;
        if escape {
          c := Unescaped(ch);
          escape := false;
        }
        value := value + [c];
      }
    }

    /** After a label or a value; this case falls through to the resynchronizing ones below it. */
    method AfterItem(ch: char)
      modifies this
      ensures View() == StepDone(old(View()), ch)
    {
      if ch == ';' || ch == '#' {
        state := Comment;
      } else if ch == '\0' || ch == '\n' {
        state := Initial;
      } else if ch == '\t' || ch == ' ' {
      } else {
        Fail(Invalid);
      }
      Resync(ch, true);
    }

    /** Up to the end of an invalid label, or to the next line. */
    method Resync(ch: char, atLabel: bool)
      modifies this`state
      ensures state == if (atLabel && ch == ']') || ch == '\n' then Initial else old(state)
    {
      if atLabel && ch == ']' {
        state := Initial;
      }
      if ch == '\n' {
        state := Initial;
      }
    }

    method React(ch: char)
      requires View().Valid() && state != End && InBuffer(Step(View(), ch))
      modifies this
      ensures View() == Step(old(View()), ch)
    {
      match state {
        case Initial => AtStart(ch);
        case SectionLabel => InSectionLabel(ch);
        case KeyName => InKeyName(ch);
        case Assignment => BeforeAssignment(ch);
        case Value => InValue(ch);
        case QuotedValue => InQuotedValue(ch);
        case SectionLabelDone => AfterItem(ch);
        case ValueDone => AfterItem(ch);
        case InvalidSectionLabel => Resync(ch, true);
        case Invalid | Comment => Resync(ch, false);
      }
      if ch == '\0' {
        if !error && state != Initial && state != Comment && state != SectionLabelDone && state != ValueDone {
          error := true;
        }
        state := End;
      }
    }
  }

  class Config {
    var store: seq<Section>

    constructor ()
      ensures store == []
    {
      store := [];
    }

    /** Parse a file into the store; characters are read one by one, with a NUL at the end of the file. */
    method ProcessConfig(input: string) returns (result: int)
      requires '\0' !in input && Fits(Start(store), input)
      modifies this
      ensures var r := Step(Feed(Start(old(store)), input), '\0');
        store == r.store && result == if r.error then -1 else 0
    {
      hide Step;
      hide Feed;
      hide Fits;
      hide InBuffer;
      var parser := new Parser(store);
      var pos := 0;
      StartsEmpty(store);
      ghost var goal := Step(Feed(parser.View(), input), '\0');
      assert input[0..] == input;
      while parser.state != End
        invariant fresh(parser) && unchanged(this) && parser.View().Valid() && 0 <= pos <= |input| + 1
        invariant parser.state != End ==> pos <= |input| && Step(Feed(parser.View(), input[pos..]), '\0') == goal
        invariant parser.state != End ==> InBuffer(parser.View()) && Fits(parser.View(), input[pos..])
        invariant parser.state == End ==> parser.View() == goal
        decreases |input| + 1 - pos
      {
        var ch := if pos < |input| then input[pos] else '\0';
        ghost var m := parser.View();
        StepNeverEnds(m, ch);
        if pos < |input| {
          assert input[pos] in input;
          assert input[pos..] == [ch] + input[pos + 1..];
          FeedOne(m, ch, input[pos + 1..]);
        } else {
          assert input[pos..] == "";
          FeedNothing(m);
          EndKeepsValue(m);
        }
        parser.React(ch);
        pos := pos + 1;
      }
      store := parser.store;
      result := if parser.error then -1 else 0;
    }

    /** The skip-th value of a key, or the last for skip -1. */
    method GetString(section: string, name: string, skip: int, default: string) returns (value: string)
      ensures var s := FindSection(store, section);
        var matching := if s.None? then [] else Matching(store[s.value].keys, name);
        value ==
          if 0 <= skip < |matching| then matching[skip].value
          else if skip == -1 && matching != [] then matching[|matching| - 1].value
          else default
    {
      var s := FindSection(store, section);
      if s.None? {
        return default;
      }
      hide SameName;
      hide Matching;
      var keys := store[s.value].keys;
      var count := 0;
      var last := None;
      MatchingNothing(keys, name);
      assert keys[..|keys|] == keys;
      for k := 0 to |keys|
        invariant count == |Matching(keys[..k], name)|
        invariant skip < 0 || skip >= count
        invariant last == if count == 0 then None else Some(Matching(keys[..k], name)[count - 1])
      {
        MatchingOneMore(keys, k, name);
        if SameName(keys[k].name, name) {
          MatchingAt(keys, k, name);
          if count == skip {
            return keys[k].value;
          }
          count := count + 1;
          last := Some(keys[k]);
        }
      }
      if skip == -1 && last.Some? {
        return last.value.value;
      }
      return default;
    }

    /** The number of values of a key: skip 0 to HasKey - 1 enumerates them all. */
    method HasKey(section: string, name: string) returns (count: nat)
      ensures var s := FindSection(store, section);
        count == if s.None? then 0 else |Matching(store[s.value].keys, name)|
    {
      var s := FindSection(store, section);
      count := 0;
      if s.Some? {
        var keys := store[s.value].keys;
        assert keys[..|keys|] == keys;
        for k := 0 to |keys|
          invariant count == |Matching(keys[..k], name)|
        {
          assert keys[..k + 1][..k] == keys[..k];
          if SameName(keys[k].name, name) {
            count := count + 1;
          }
        }
      }
    }
  }

  lemma StartsEmpty(store: seq<Section>)
    ensures InBuffer(Start(store))
  {
  }

  lemma EndKeepsValue(m: Machine)
    requires m.Valid() && InBuffer(m)
    ensures InBuffer(Step(m, '\0'))
  {
  }

  lemma StepNeverEnds(m: Machine, ch: char)
    requires m.Valid() && m.mode != End
    ensures Step(m, ch).mode == End <==> ch == '\0'
  {
  }
}
