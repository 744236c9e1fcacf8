/** The console client's line printer: what it sends is what the server parses. */
module LcdLink {
  import opened Common
  import opened Tokenizer
  import opened Numbers
  import opened Snprintf

  /** Control characters and bytes that are negative as signed char become question marks. */
  function Shown(c: char): char {
    if ' ' <= c < 128 as char then c else '?'
  }

  function AllShown(s: string): (r: string)
    ensures |r| == |s| && forall i :: 0 <= i < |s| ==> r[i] == Shown(s[i])
  {
    seq(|s|, i requires 0 <= i < |s| => Shown(s[i]))
  }

  /** The arguments of the command that sets a line. */
  function LineItems(line: nat, text: string): seq<Item> {
    [Bare("widget_set"), Bare("console"), Bare("line" + Decimal(line)), Bare("1"), Bare(Decimal(line + 1)),
      Quoted(AllShown(text))]
  }

  function LinePrefix(line: nat): string {
    "widget_set console line" + Decimal(line) + " 1 " + Decimal(line + 1) + " \""
  }

  lemma DigitsArePlain(n: nat)
    ensures forall c :: c in Digits(n, 10, false) ==> IsPlain(c)
  {
    NumberOfDigits(n, 10);
  }

  /** Any line of console text arrives at the server as the single last argument, character for character. */
  lemma LineIsParsedBack(line: nat, text: string)
    ensures Tokenize(Message(LineItems(line, text))) == Some(Texts(LineItems(line, text)))
    ensures var shown := LineItems(line, text)[5].text;
      |shown| == |text| &&
      forall i :: 0 <= i < |text| ==> shown[i] == if 32 <= text[i] as int < 128 then text[i] else '?'
  {
    hide Tokenize;
    hide Message;
    hide Digits;
    var items := LineItems(line, text);
    DigitsArePlain(line);
    DigitsArePlain(line + 1);
    forall i | i in items ensures Printable(i) {
      PrintableLine(line, text);
    }
    RoundTrip(items);
  }

  lemma PrintableLine(line: nat, text: string)
    requires forall c :: c in Decimal(line) ==> IsPlain(c)
    requires forall c :: c in Decimal(line + 1) ==> IsPlain(c)
    ensures forall i :: i in LineItems(line, text) ==> Printable(i)
  {
    hide Decimal;
    hide AllShown;
    FixedWordsArePlain();
    ShownIsPrintable(text);
    PlainConcat("line", Decimal(line));
    assert Decimal(line + 1) != "" by { NotEmpty(line + 1); }
    forall i | i in LineItems(line, text) ensures Printable(i) {
      var items := LineItems(line, text);
      assert i == items[0] || i == items[1] || i == items[2] || i == items[3] || i == items[4] || i == items[5];
    }
  }

  lemma NotEmpty(n: nat)
    ensures Decimal(n) != ""
  {
  }

  lemma FixedWordsArePlain()
    ensures forall c :: c in "widget_set" ==> IsPlain(c)
    ensures forall c :: c in "console" ==> IsPlain(c)
    ensures forall c :: c in "line" ==> IsPlain(c)
    ensures forall c :: c in "1" ==> IsPlain(c)
  {
  }

  lemma PlainConcat(a: string, b: string)
    requires (forall c :: c in a ==> IsPlain(c)) && forall c :: c in b ==> IsPlain(c)
    ensures forall c :: c in a + b ==> IsPlain(c)
  {
  }

  lemma ShownIsPrintable(text: string)
    ensures Printable(Quoted(AllShown(text)))
  {
  }

  lemma LineMessage(line: nat, text: string)
    ensures Message(LineItems(line, text)) == LinePrefix(line) + Escaped(AllShown(text)) + "\"\n"
  {
    hide Decimal;
    hide Escaped;
    hide AllShown;
    hide Message;
    var d1, d2, last := Decimal(line), Decimal(line + 1), Quoted(AllShown(text));
    MessageCons(last, []);
    MessageCons(Bare(d2), [last]);
    MessageCons(Bare("1"), [Bare(d2)] + [last]);
    MessageCons(Bare("line" + d1), [Bare("1")] + ([Bare(d2)] + [last]));
    MessageCons(Bare("console"), [Bare("line" + d1)] + ([Bare("1")] + ([Bare(d2)] + [last])));
    MessageCons(Bare("widget_set"), [Bare("console")] + ([Bare("line" + d1)] + ([Bare("1")] + ([Bare(d2)] + [last]))));
    assert [last] + [] == [last];
    assert LineItems(line, text) ==
      [Bare("widget_set")] + ([Bare("console")] + ([Bare("line" + d1)] + ([Bare("1")] + ([Bare(d2)] + [last]))));
    OneLine(d1, d2, Escaped(AllShown(text)));
  }

  lemma OneLine(d1: string, d2: string, e: string)
    ensures "widget_set" +
      (" " + ("console" + (" " + ("line" + d1 + (" " + ("1" + (" " + (d2 + (" " + ("\"" + e + "\"" + "\n"))))))))))
      == "widget_set console line" + d1 + " 1 " + d2 + " \"" + e + "\"\n"
  {
    var tail := "\"" + e + "\"" + "\n";
    assert " " + tail == " \"" + e + "\"\n";
    var end := d2 + (" " + tail);
    assert end == d2 + " \"" + e + "\"\n";
    var middle := " " + ("1" + (" " + end));
    assert middle == " 1 " + end;
    assert "widget_set" + (" " + ("console" + (" " + ("line" + d1 + middle)))) ==
      "widget_set console line" + d1 + middle;
  }

  lemma MessageCons(i: Item, rest: seq<Item>)
    ensures Message([i] + rest) == Written(i) + if rest == [] then "\n" else " " + Message(rest)
  {
    assert ([i] + rest)[1..] == rest;
  }

  lemma {:induction false} EscapedAppend(s: string, c: char)
    ensures Escaped(s + [c]) == Escaped(s) + EscapedChar(c)
    decreases |s|
  {
    if s == "" {
      assert (s + [c])[1..] == "" && EscapedChar(c) + "" == EscapedChar(c);
    } else {
      EscapedAppend(s[1..], c);
      assert (s + [c])[1..] == s[1..] + [c];
    }
  }

  lemma {:induction false} EscapedLength(s: string)
    ensures |Escaped(s)| <= 2 * |s|
  {
    if s != "" {
      EscapedLength(s[1..]);
    }
  }

  lemma PrefixLength(line: nat)
    requires line < Power(10, 20) - 1
    ensures |LinePrefix(line)| <= 68
  {
    FewDigits(line, 10, 20);
    FewDigits(line + 1, 10, 20);
    hide Digits;
  }

  method CopyPrefix(prefix: string, buffer: array<char>)
    requires |prefix| <= buffer.Length
    modifies buffer
    ensures buffer[..|prefix|] == prefix
  {
    for a := 0 to |prefix|
      invariant buffer[..a] == prefix[..a]
    {
      buffer[a] := prefix[a];
    }
  }

  /** The escaping loop: a backslash before backslashes and quotes. */
  method EscapeInto(text: string, buffer: array<char>, start: nat) returns (a: nat)
    requires start + 2 * |text| <= buffer.Length
    modifies buffer
    ensures a == start + |Escaped(AllShown(text))| <= start + 2 * |text|
    ensures buffer[..a] == old(buffer[..start]) + Escaped(AllShown(text))
  {
    hide AllShown;
    hide Escaped;
    ghost var shown, before := AllShown(text), buffer[..start];
    a := start;
    NothingEscaped(before);
    assert shown[..0] == "";
    for pos := 0 to |text|
      invariant a == start + |Escaped(shown[..pos])| <= start + 2 * pos
      invariant buffer[..a] == before + Escaped(shown[..pos])
    {
      ghost var done := Escaped(shown[..pos]);
      assert shown[..pos + 1] == shown[..pos] + [shown[pos]];
      EscapedAppend(shown[..pos], shown[pos]);
      if text[pos] == '\\' || text[pos] == '"' {
        buffer[a] := '\\';
        a := a + 1;
      }
      buffer[a] := Shown(text[pos]);
      a := a + 1;
      assert buffer[..a] == before + (done + EscapedChar(shown[pos]));
    }
    assert shown[..|text|] == shown;
  }

  lemma NothingEscaped(s: string)
    ensures Escaped("") == "" && s + "" == s
  {
  }

  /**
    Format one changed line, at most as wide as the display, into a buffer of 80 + 2 * width bytes; it
    never overflows.
   */
  method FormatLine(line: nat, text: string, buffer: array<char>) returns (a: nat)
    requires buffer.Length >= 80 + 2 * |text| && line < Power(10, 20) - 1
    modifies buffer
    ensures a < buffer.Length && buffer[a] == '\0'
    ensures buffer[..a] == Message(LineItems(line, text))
  {
    hide *;
    var prefix := LinePrefix(line);
    PrefixLength(line);
    CopyPrefix(prefix, buffer);
    a := EscapeInto(text, buffer, |prefix|);
    ghost var b := a;
    buffer[a] := '"';
    a := a + 1;
    buffer[a] := '\n';
    a := a + 1;
    buffer[a] := '\0';
    assert buffer[..a] == buffer[..b] + "\"\n";
    LineMessage(line, text);
  }
}
