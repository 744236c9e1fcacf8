/**
  The server's command tokenizer, and the printer on the client's side that it undoes.
  A message is a C string: it holds no NUL.
 */
module Tokenizer {
  import opened Common

  const MAX_ARGUMENTS := 40

  predicate IsWhitespace(x: char) { x == ' ' || x == '\t' || x == '\r' }

  predicate IsFinal(x: char) { x == '\n' || x == '\0' }

  predicate IsOpeningQuote(x: char, q: char) { q == '\0' && (x == '"' || x == '{') }

  predicate IsClosingQuote(x: char, q: char) { (q == '{' && x == '}') || (q == '"' && x == '"') }

  function Unescaped(c: char): char {
    match c
    case 'n' => '\n'
    case 'r' => '\r'
    case 't' => '\t'
    case _ => c
  }

  /** The character at pos, NUL behind the end. */
  function At(s: string, pos: nat): char {
    if pos < |s| then s[pos] else '\0'
  }

  // ----- the arguments of a message ----------------------------------------------------------

  /** Scan on from pos, inside an argument or between two, with an open quote or NUL; None is a parse error. */
  function Scan(s: string, pos: nat, inArgument: bool, quote: char, done: seq<string>, cur: string): Option<seq<string>>
    requires pos <= |s|
    decreases |s| - pos
  {
    var ch := At(s, pos);
    if !inArgument && IsWhitespace(ch) then
      if pos < |s| then Scan(s, pos + 1, false, quote, done, cur) else None
    else if !inArgument && IsFinal(ch) then Some(done)
    else if IsFinal(ch) || pos == |s| then
      if quote != '\0' || |done| >= MAX_ARGUMENTS - 1 then None else Some(done + [cur])
    else if ch == '\\' then
      if pos + 1 < |s| then Scan(s, pos + 2, true, quote, done, cur + [Unescaped(s[pos + 1])]) else None
    else if IsOpeningQuote(ch, quote) then Scan(s, pos + 1, true, ch, done, cur)
    else if IsClosingQuote(ch, quote) || (IsWhitespace(ch) && quote == '\0') then
      if |done| >= MAX_ARGUMENTS - 1 then None else Scan(s, pos + 1, false, '\0', done + [cur], "")
    else Scan(s, pos + 1, true, quote, done, cur + [ch])
  }

  function Tokenize(s: string): Option<seq<string>> {
    Scan(s, 0, false, '\0', [], "")
  }

  // ----- the round trip -----------------------------------------------------------------------

  /** A word that needs no quotes, or an argument in quotes. */
  datatype Item = Bare(text: string) | Quoted(text: string)

  function EscapedChar(c: char): string {
    if c == '\\' || c == '"' then ['\\', c] else [c]
  }

  function Escaped(s: string): string {
    if s == "" then "" else EscapedChar(s[0]) + Escaped(s[1..])
  }

  function Written(i: Item): string {
    match i
    case Bare(text) => text
    case Quoted(text) => "\"" + Escaped(text) + "\""
  }

  /** The items separated by blanks, and a newline. */
  function Message(items: seq<Item>): string {
    if items == [] then "\n"
    else if |items| == 1 then Written(items[0]) + "\n"
    else Written(items[0]) + " " + Message(items[1..])
  }

  function Texts(items: seq<Item>): (r: seq<string>)
    ensures |r| == |items|
  {
    if items == [] then [] else [items[0].text] + Texts(items[1..])
  }

  predicate IsPlain(c: char) {
    !IsWhitespace(c) && !IsFinal(c) && c != '\\' && c != '"' && c != '{'
  }

  predicate Printable(i: Item) {
    match i
    case Bare(text) => text != "" && forall c :: c in text ==> IsPlain(c)
    case Quoted(text) => forall c :: c in text ==> !IsFinal(c)
  }

  lemma ScanLiteral(s: string, pos: nat, quote: char, done: seq<string>, cur: string)
    requires pos < |s| && !IsFinal(s[pos]) && s[pos] != '\\'
    requires !IsOpeningQuote(s[pos], quote) && !IsClosingQuote(s[pos], quote)
      && (quote != '\0' || !IsWhitespace(s[pos]))
    ensures Scan(s, pos, true, quote, done, cur) == Scan(s, pos + 1, true, quote, done, cur + [s[pos]])
  {
  }

  lemma ScanEscape(s: string, pos: nat, quote: char, done: seq<string>, cur: string)
    requires pos + 1 < |s| && s[pos] == '\\'
    ensures Scan(s, pos, true, quote, done, cur) == Scan(s, pos + 2, true, quote, done, cur + [Unescaped(s[pos + 1])])
  {
  }

  lemma PieceAt(s: string, pos: nat, a: string, b: string)
    requires pos + |a + b| <= |s| && s[pos..pos + |a + b|] == a + b
    ensures s[pos..pos + |a|] == a && s[pos + |a|..pos + |a| + |b|] == b
  {
    assert s[pos..pos + |a + b|][..|a|] == a && s[pos..pos + |a + b|][|a|..] == b;
  }

  /** Escaped text inside quotes is read back literally. */
  lemma {:induction false} ScanEscaped(s: string, pos: nat, text: string, done: seq<string>, cur: string)
    requires forall c :: c in text ==> !IsFinal(c)
    requires pos + |Escaped(text)| < |s| && s[pos..pos + |Escaped(text)|] == Escaped(text)
    ensures Scan(s, pos, true, '"', done, cur) == Scan(s, pos + |Escaped(text)|, true, '"', done, cur + text)
    decreases |text|
  {
    hide Scan;
    if text == "" {
      assert cur + text == cur;
    } else {
      var first, rest := EscapedChar(text[0]), Escaped(text[1..]);
      PieceAt(s, pos, first, rest);
      assert s[pos] == s[pos..pos + |first|][0] == first[0] && text[0] in text;
      if |first| == 2 {
        assert s[pos + 1] == s[pos..pos + |first|][1];
        ScanEscape(s, pos, '"', done, cur);
      } else {
        ScanLiteral(s, pos, '"', done, cur);
      }
      ScanEscaped(s, pos + |first|, text[1..], done, cur + [text[0]]);
      assert cur + [text[0]] + text[1..] == cur + text;
    }
  }

  lemma {:induction false} ScanBare(s: string, pos: nat, text: string, done: seq<string>, cur: string)
    requires forall c :: c in text ==> IsPlain(c)
    requires pos + |text| < |s| && s[pos..pos + |text|] == text
    ensures Scan(s, pos, true, '\0', done, cur) == Scan(s, pos + |text|, true, '\0', done, cur + text)
    decreases |text|
  {
    hide Scan;
    if text == "" {
      assert cur + text == cur;
    } else {
      assert s[pos] == s[pos..pos + |text|][0] == text[0] && text[0] in text;
      assert s[pos + 1..pos + |text|] == s[pos..pos + |text|][1..];
      ScanLiteral(s, pos, '\0', done, cur);
      ScanBare(s, pos + 1, text[1..], done, cur + [text[0]]);
      assert cur + [text[0]] + text[1..] == cur + text;
    }
  }

  lemma ScanWord(s: string, pos: nat, text: string, done: seq<string>)
    requires text != "" && forall c :: c in text ==> IsPlain(c)
    requires pos + |text| < |s| && s[pos..pos + |text|] == text
    ensures Scan(s, pos, false, '\0', done, "") == Scan(s, pos + |text|, true, '\0', done, text)
  {
    hide Scan;
    hide IsPlain;
    assert s[pos] == s[pos..pos + |text|][0] == text[0] && text[0] in text;
    StartArgument(s, pos, done);
    ScanBare(s, pos, text, done, "");
    assert "" + text == text;
  }

  /** One printed item and the blank after it are one argument. */
  lemma ScanItem(s: string, pos: nat, i: Item, done: seq<string>)
    requires Printable(i)
    requires pos + |Written(i)| < |s| && s[pos..pos + |Written(i)|] == Written(i) && s[pos + |Written(i)|] == ' '
    ensures Scan(s, pos, false, '\0', done, "") ==
      if |done| >= MAX_ARGUMENTS - 1 then None
      else Scan(s, pos + |Written(i)| + 1, false, '\0', done + [i.text], "")
  {
    hide Scan;
    hide Escaped;
    if i.Bare? {
      ScanWord(s, pos, i.text, done);
      EndArgument(s, pos + |i.text|, '\0', done, i.text);
    } else {
      ScanQuoted(s, pos, i.text, done);
      if |done| < MAX_ARGUMENTS - 1 {
        SkipBlank(s, pos + |Written(i)|, done + [i.text]);
      }
    }
  }

  lemma ScanLastItem(s: string, pos: nat, i: Item, done: seq<string>)
    requires Printable(i)
    requires pos + |Written(i)| < |s| && s[pos..pos + |Written(i)|] == Written(i) && s[pos + |Written(i)|] == '\n'
    ensures Scan(s, pos, false, '\0', done, "") == if |done| >= MAX_ARGUMENTS - 1 then None else Some(done + [i.text])
  {
    hide Scan;
    hide Escaped;
    if i.Bare? {
      ScanWord(s, pos, i.text, done);
    } else {
      ScanQuoted(s, pos, i.text, done);
    }
    AtNewline(s, pos + |Written(i)|, done, i.text);
  }

  lemma AtNewline(s: string, pos: nat, done: seq<string>, cur: string)
    requires pos < |s| && s[pos] == '\n'
    ensures Scan(s, pos, true, '\0', done, cur) == if |done| >= MAX_ARGUMENTS - 1 then None else Some(done + [cur])
    ensures Scan(s, pos, false, '\0', done, "") == Some(done)
    ensures Scan(s, pos, false, '\0', done + [cur], "") == Some(done + [cur])
  {
  }

  lemma ScanQuoted(s: string, pos: nat, text: string, done: seq<string>)
    requires forall c :: c in text ==> !IsFinal(c)
    requires var w := Written(Quoted(text)); pos + |w| <= |s| && s[pos..pos + |w|] == w
    ensures Scan(s, pos, false, '\0', done, "") ==
      if |done| >= MAX_ARGUMENTS - 1 then None
      else Scan(s, pos + |Written(Quoted(text))|, false, '\0', done + [text], "")
  {
    hide Scan;
    hide Escaped;
    var e := Escaped(text);
    assert "\"" + (e + "\"") == Written(Quoted(text));
    PieceAt(s, pos, "\"", e + "\"");
    PieceAt(s, pos + 1, e, "\"");
    assert s[pos] == s[pos..pos + 1][0] && s[pos + 1 + |e|] == s[pos + 1 + |e|..pos + 2 + |e|][0];
    StartQuoted(s, pos, done);
    ScanEscaped(s, pos + 1, text, done, "");
    assert "" + text == text;
    EndArgument(s, pos + 1 + |e|, '"', done, text);
  }

  lemma StartArgument(s: string, pos: nat, done: seq<string>)
    requires pos < |s| && IsPlain(s[pos])
    ensures Scan(s, pos, false, '\0', done, "") == Scan(s, pos, true, '\0', done, "")
  {
  }

  lemma StartQuoted(s: string, pos: nat, done: seq<string>)
    requires pos < |s| && s[pos] == '"'
    ensures Scan(s, pos, false, '\0', done, "") == Scan(s, pos + 1, true, '"', done, "")
  {
  }

  lemma EndArgument(s: string, pos: nat, quote: char, done: seq<string>, cur: string)
    requires pos < |s| && (quote, s[pos]) in [('"', '"'), ('\0', ' ')]
    ensures Scan(s, pos, true, quote, done, cur) ==
      if |done| >= MAX_ARGUMENTS - 1 then None else Scan(s, pos + 1, false, '\0', done + [cur], "")
  {
  }

  lemma SkipBlank(s: string, pos: nat, done: seq<string>)
    requires pos < |s| && s[pos] == ' '
    ensures Scan(s, pos, false, '\0', done, "") == Scan(s, pos + 1, false, '\0', done, "")
  {
  }

  lemma LastItemAt(s: string, pos: nat, w: string)
    requires pos <= |s| && s[pos..] == w + "\n"
    ensures pos + |w| < |s| && s[pos..pos + |w|] == w && s[pos + |w|] == '\n'
  {
    var t := s[pos..];
    assert t[..|w|] == w && t[|w|] == '\n';
  }

  lemma ItemAt(s: string, pos: nat, w: string, rest: string)
    requires pos <= |s| && s[pos..] == w + " " + rest
    ensures pos + |w| < |s| && s[pos..pos + |w|] == w && s[pos + |w|] == ' ' && s[pos + |w| + 1..] == rest
  {
    var t := s[pos..];
    assert t[..|w|] == w && t[|w|] == ' ' && t[|w| + 1..] == rest;
  }

  lemma {:induction false} ScanMessage(s: string, pos: nat, items: seq<Item>, done: seq<string>)
    requires forall i :: i in items ==> Printable(i)
    requires pos <= |s| && s[pos..] == Message(items)
    requires |done| < MAX_ARGUMENTS
    ensures Scan(s, pos, false, '\0', done, "") ==
      if |done| + |items| < MAX_ARGUMENTS then Some(done + Texts(items)) else None
    decreases |items|
  {
    hide Printable;
    hide Written;
    hide Scan;
    if items == [] {
      assert s[pos..][0] == s[pos];
      assert done + Texts(items) == done;
      AtNewline(s, pos, done, "");
    } else if |items| == 1 {
      LastItemAt(s, pos, Written(items[0]));
      assert items[0] in items;
      ScanLastItem(s, pos, items[0], done);
      assert Texts(items) == [items[0].text];
    } else {
      var w, rest := Written(items[0]), Message(items[1..]);
      ItemAt(s, pos, w, rest);
      assert items[0] in items;
      ScanItem(s, pos, items[0], done);
      if |done| < MAX_ARGUMENTS - 1 {
        ScanMessage(s, pos + |w| + 1, items[1..], done + [items[0].text]);
        assert done + [items[0].text] + Texts(items[1..]) == done + Texts(items);
      }
    }
  }

  /** Up to 39 printed arguments are parsed back exactly; 40 or more are an error. */
  lemma RoundTrip(items: seq<Item>)
    requires forall i :: i in items ==> Printable(i)
    ensures Tokenize(Message(items)) == if |items| < MAX_ARGUMENTS then Some(Texts(items)) else None
  {
    hide Scan;
    hide Message;
    hide Printable;
    assert Message(items)[0..] == Message(items);
    ScanMessage(Message(items), 0, items, []);
    assert [] + Texts(items) == Texts(items);
  }
}
