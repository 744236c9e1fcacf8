/**
  The ways in which a client may write the arguments of a message: words, quotes and braces, each also begun
  as a word, with any escapes and any blanks between them.  Every way is read as the arguments it means.
 */
module MessageForms {
  import opened Common
  import opened Tokenizer

  // ----- written messages -----------------------------------------------------------------------------

  /** A character as it is, or behind a backslash. */
  datatype Mark = Plain(c: char) | Escape(c: char)

  function MarkText(m: Mark): string { if m.Plain? then [m.c] else ['\\', m.c] }

  /** Behind a backslash n, r and t stand for newline, carriage return and tab, any other character for itself. */
  function MarkOf(m: Mark): char {
    if m.Plain? then m.c else if m.c == 'n' then '\n' else if m.c == 'r' then '\r' else if m.c == 't' then '\t' else m.c
  }

  function MarksText(s: seq<Mark>): string {
    if s == [] then "" else MarkText(s[0]) + MarksText(s[1..])
  }

  function MarksOf(s: seq<Mark>): (r: string)
    ensures |r| == |s|
  {
    if s == [] then "" else [MarkOf(s[0])] + MarksOf(s[1..])
  }

  datatype Form = Word | InQuotes | InBraces

  /** An argument behind blanks; one in quotes or braces may begin with a part in front of them. */
  datatype Argument = Argument(blanks: string, head: seq<Mark>, form: Form, marks: seq<Mark>)

  function Opening(form: Form): string {
    match form case Word => "" case InQuotes => "\"" case InBraces => "{"
  }

  function Closing(form: Form): string {
    match form case Word => "" case InQuotes => "\"" case InBraces => "}"
  }

  function WrittenArgument(a: Argument): string {
    a.blanks + (MarksText(a.head) + (Opening(a.form) + (MarksText(a.marks) + Closing(a.form))))
  }

  function WrittenArguments(args: seq<Argument>): string {
    if args == [] then "" else WrittenArgument(args[0]) + WrittenArguments(args[1..])
  }

  function TextOf(a: Argument): string { MarksOf(a.head) + MarksOf(a.marks) }

  function TextsOf(args: seq<Argument>): (r: seq<string>)
    ensures |r| == |args|
  {
    if args == [] then [] else [TextOf(args[0])] + TextsOf(args[1..])
  }

  predicate AreBlanks(s: string) { forall c :: c in s ==> c == ' ' || c == '\t' || c == '\r' }

  /** Anything may stand behind a backslash; otherwise only what does not end or open anything there. */
  predicate IsMark(form: Form, m: Mark) {
    && m.c != '\0'
    && (m.Plain? ==>
      && m.c != '\n' && m.c != '\\'
      && match form
         case Word => m.c !in " \t\r\"{"
         case InQuotes => m.c != '"'
         case InBraces => m.c != '}')
  }

  predicate AreMarks(form: Form, s: seq<Mark>) { forall m :: m in s ==> IsMark(form, m) }

  /** A word is not empty, and has no other part. */
  predicate IsArgument(a: Argument) {
    && AreBlanks(a.blanks) && AreMarks(Word, a.head) && AreMarks(a.form, a.marks)
    && (a.form == Word ==> a.head == [] && a.marks != [])
  }

  /** Behind a word there are blanks; behind a closing quote or brace there need not be. */
  predicate Separated(args: seq<Argument>) {
    forall i :: 0 < i < |args| ==> args[i].blanks != "" || args[i - 1].form != Word
  }

  /** The message ends with its text or at a newline, whatever is behind that. */
  predicate IsEnd(end: string) { end != "" ==> end[0] == '\n' || end[0] == '\0' }

  /** Every character but NUL can be written in every form. */
  function MarkFor(c: char): Mark {
    match c
    case '\n' => Escape('n')
    case '\r' => Escape('r')
    case '\t' => Escape('t')
    case _ => if c in " \\\"{}" then Escape(c) else Plain(c)
  }

  lemma EveryCharacterCanBeWritten(form: Form, c: char)
    requires c != '\0'
    ensures IsMark(form, MarkFor(c)) && MarkOf(MarkFor(c)) == c
  {
  }

  // ----- reading them -----------------------------------------------------------------------------------

  function QuoteOf(form: Form): char {
    match form case Word => '\0' case InQuotes => '"' case InBraces => '{'
  }

  lemma BlankIsSkipped(s: string, pos: nat, done: seq<string>)
    requires pos < |s| && (s[pos] == ' ' || s[pos] == '\t' || s[pos] == '\r')
    ensures Scan(s, pos, false, '\0', done, "") == Scan(s, pos + 1, false, '\0', done, "")
  {
  }

  lemma {:induction false} BlanksAreSkipped(s: string, pos: nat, blanks: string, more: string, done: seq<string>)
    requires AreBlanks(blanks) && pos <= |s| && s[pos..] == blanks + more
    ensures pos + |blanks| <= |s| && s[pos + |blanks|..] == more
    ensures Scan(s, pos, false, '\0', done, "") == Scan(s, pos + |blanks|, false, '\0', done, "")
    decreases |blanks|
  {
    hide Scan;
    Behind(s, pos, blanks, more);
    if blanks != "" {
      var rest := blanks[1..];
      assert blanks[0] in blanks && forall c :: c in rest ==> c in blanks;
      assert blanks + more == [blanks[0]] + (rest + more);
      Suffix(s, pos, [blanks[0]], rest + more);
      assert s[pos + 0] == blanks[0];
      BlankIsSkipped(s, pos, done);
      BlanksAreSkipped(s, pos + 1, rest, more, done);
    }
  }

  /** One character of an argument, at its beginning or further on. */
  lemma CharacterIsRead(s: string, pos: nat, form: Form, m: Mark, first: bool, done: seq<string>, cur: string)
    requires IsMark(form, m) && pos + |MarkText(m)| <= |s|
    requires forall i :: 0 <= i < |MarkText(m)| ==> s[pos + i] == MarkText(m)[i]
    requires first ==> form == Word
    ensures Scan(s, pos, !first, QuoteOf(form), done, cur) ==
      Scan(s, pos + |MarkText(m)|, true, QuoteOf(form), done, cur + [MarkOf(m)])
  {
    assert s[pos + 0] == MarkText(m)[0];
    if m.Escape? {
      assert s[pos + 1] == MarkText(m)[1];
    }
  }

  lemma {:induction false} TextIsRead(
      s: string, pos: nat, form: Form, text: seq<Mark>, more: string, first: bool, done: seq<string>, cur: string)
    requires AreMarks(form, text) && pos <= |s| && s[pos..] == MarksText(text) + more
    requires first ==> form == Word && text != []
    ensures pos + |MarksText(text)| <= |s| && s[pos + |MarksText(text)|..] == more
    ensures Scan(s, pos, !first, QuoteOf(form), done, cur) ==
      Scan(s, pos + |MarksText(text)|, true, QuoteOf(form), done, cur + MarksOf(text))
    decreases |text|
  {
    hide Scan;
    hide MarkText;
    hide MarkOf;
    hide IsMark;
    Behind(s, pos, MarksText(text), more);
    if text == [] {
      assert cur + "" == cur;
    } else {
      var e, rest := MarkText(text[0]), MarksText(text[1..]);
      assert text[0] in text && forall m :: m in text[1..] ==> m in text;
      assert MarksText(text) + more == e + (rest + more);
      Suffix(s, pos, e, rest + more);
      CharacterIsRead(s, pos, form, text[0], first, done, cur);
      TextIsRead(s, pos + |e|, form, text[1..], more, false, done, cur + [MarkOf(text[0])]);
      assert cur + [MarkOf(text[0])] + MarksOf(text[1..]) == cur + MarksOf(text);
    }
  }

  lemma OpeningIsRead(s: string, pos: nat, form: Form, inside: bool, done: seq<string>, cur: string)
    requires form != Word && pos < |s| && s[pos] == Opening(form)[0]
    ensures Scan(s, pos, inside, '\0', done, cur) == Scan(s, pos + 1, true, QuoteOf(form), done, cur)
  {
  }

  lemma ClosingIsRead(s: string, pos: nat, form: Form, done: seq<string>, cur: string)
    requires form != Word && pos < |s| && s[pos] == Closing(form)[0]
    ensures Scan(s, pos, true, QuoteOf(form), done, cur) ==
      if |done| >= 39 then None else Scan(s, pos + 1, false, '\0', done + [cur], "")
  {
  }

  lemma WordEndsAtBlank(s: string, pos: nat, done: seq<string>, cur: string)
    requires pos < |s| && (s[pos] == ' ' || s[pos] == '\t' || s[pos] == '\r')
    ensures Scan(s, pos, true, '\0', done, cur) ==
      if |done| >= 39 then None else Scan(s, pos, false, '\0', done + [cur], "")
  {
  }

  lemma MessageEnds(s: string, pos: nat, end: string, done: seq<string>, cur: string)
    requires pos <= |s| && s[pos..] == end && IsEnd(end)
    ensures Scan(s, pos, false, '\0', done, "") == Some(done)
    ensures Scan(s, pos, true, '\0', done, cur) == if |done| >= 39 then None else Some(done + [cur])
    ensures Scan(s, pos, true, '"', done, cur) == None && Scan(s, pos, true, '{', done, cur) == None
  {
    assert end != "" ==> s[pos] == end[0];
    assert end == "" ==> pos == |s|;
  }

  lemma QuotedIsRead(s: string, pos: nat, form: Form, inside: bool, text: seq<Mark>, more: string, done: seq<string>,
    cur: string)
    requires form != Word && AreMarks(form, text)
    requires pos <= |s| && s[pos..] == Opening(form) + (MarksText(text) + (Closing(form) + more))
    ensures var q := pos + 2 + |MarksText(text)|;
      && q <= |s| && s[q..] == more
      && Scan(s, pos, inside, '\0', done, cur) ==
        if |done| >= 39 then None else Scan(s, q, false, '\0', done + [cur + MarksOf(text)], "")
  {
    hide *;
    var o, t, c := Opening(form), MarksText(text), Closing(form);
    QuotesAreOne(form);
    Suffix(s, pos, o, t + (c + more));
    assert s[pos + 0] == o[0];
    OpeningIsRead(s, pos, form, inside, done, cur);
    TextIsRead(s, pos + 1, form, text, c + more, false, done, cur);
    var p2 := pos + 1 + |t|;
    Suffix(s, p2, c, more);
    assert s[p2 + 0] == c[0];
    ClosingIsRead(s, p2, form, done, cur + MarksOf(text));
  }

  lemma QuotesAreOne(form: Form)
    ensures form != Word ==> |Opening(form)| == 1 && |Closing(form)| == 1
    ensures form == Word ==> Opening(form) == Closing(form) == "" && QuoteOf(form) == '\0'
  {
  }

  lemma WrittenArgumentIs(a: Argument, more: string)
    ensures WrittenArgument(a) + more
      == a.blanks + (MarksText(a.head) + (Opening(a.form) + (MarksText(a.marks) + (Closing(a.form) + more))))
    ensures |WrittenArgument(a)|
      == |a.blanks| + |MarksText(a.head)| + |Opening(a.form)| + |MarksText(a.marks)| + |Closing(a.form)|
  {
    hide Opening;
    hide Closing;
    hide MarksText;
  }

  lemma ArgumentParts(a: Argument)
    requires IsArgument(a)
    ensures AreBlanks(a.blanks) && AreMarks(Word, a.head) && AreMarks(a.form, a.marks)
    ensures a.form == Word ==> a.head == [] && a.marks != [] && TextOf(a) == MarksOf(a.marks)
    ensures a.form == Word ==> MarksText(a.head) == ""
    ensures TextOf(a) == MarksOf(a.head) + MarksOf(a.marks)
  {
    assert a.form == Word ==> MarksOf(a.head) == "";
    assert "" + MarksOf(a.marks) == MarksOf(a.marks);
  }

  /** The part in front of the quote. */
  lemma HeadIsRead(s: string, pos: nat, head: seq<Mark>, more: string, done: seq<string>)
    requires AreMarks(Word, head) && pos <= |s| && s[pos..] == MarksText(head) + more
    ensures var q := pos + |MarksText(head)|;
      && q <= |s| && s[q..] == more
      && Scan(s, pos, false, '\0', done, "") == Scan(s, q, head != [], '\0', done, MarksOf(head))
  {
    hide Scan;
    assert "" + MarksOf(head) == MarksOf(head);
    if head == [] {
      assert "" + more == more;
    } else {
      TextIsRead(s, pos, Word, head, more, true, done, "");
    }
  }

  /** An argument up to its closing character, in whichever form. */
  lemma ArgumentIsRead(s: string, pos: nat, a: Argument, more: string, done: seq<string>)
    requires IsArgument(a) && pos <= |s| && s[pos..] == WrittenArgument(a) + more
    ensures var q := pos + |WrittenArgument(a)|;
      && q <= |s| && s[q..] == more
      && Scan(s, pos, false, '\0', done, "") ==
        (if a.form == Word then Scan(s, q, true, '\0', done, TextOf(a))
         else if |done| >= 39 then None else Scan(s, q, false, '\0', done + [TextOf(a)], ""))
  {
    hide *;
    var h, o, t, c := MarksText(a.head), Opening(a.form), MarksText(a.marks), Closing(a.form);
    var p1 := pos + |a.blanks|;
    ArgumentParts(a);
    WrittenArgumentIs(a, more);
    QuotesAreOne(a.form);
    BlanksAreSkipped(s, pos, a.blanks, h + (o + (t + (c + more))), done);
    if a.form == Word {
      assert "" + TextOf(a) == TextOf(a) && "" + ("" + (t + ("" + more))) == t + more;
      TextIsRead(s, p1, a.form, a.marks, more, true, done, "");
    } else {
      HeadIsRead(s, p1, a.head, o + (t + (c + more)), done);
      QuotedIsRead(s, p1 + |h|, a.form, a.head != [], a.marks, more, done, MarksOf(a.head));
    }
  }

  /** Whatever follows an argument, it is complete, a word with a blank behind it. */
  lemma ArgumentIsDone(s: string, pos: nat, a: Argument, more: string, done: seq<string>)
    requires IsArgument(a) && pos <= |s| && s[pos..] == WrittenArgument(a) + more
    requires a.form == Word ==> BlankFirst(more)
    ensures var q := pos + |WrittenArgument(a)|;
      && q <= |s| && s[q..] == more
      && Scan(s, pos, false, '\0', done, "") ==
        if |done| >= 39 then None else Scan(s, q, false, '\0', done + [TextOf(a)], "")
  {
    hide Scan;
    hide WrittenArgument;
    hide TextOf;
    ArgumentIsRead(s, pos, a, more, done);
    if a.form == Word {
      var q := pos + |WrittenArgument(a)|;
      assert s[q] == s[q..][0];
      WordEndsAtBlank(s, q, done, TextOf(a));
    }
  }

  predicate BlankFirst(s: string) { s != "" && (s[0] == ' ' || s[0] == '\t' || s[0] == '\r') }

  lemma LastIsDone(s: string, pos: nat, a: Argument, end: string, done: seq<string>)
    requires IsArgument(a) && pos <= |s| && s[pos..] == WrittenArgument(a) + end && IsEnd(end)
    ensures Scan(s, pos, false, '\0', done, "") == if |done| >= 39 then None else Some(done + [TextOf(a)])
  {
    hide Scan;
    hide WrittenArgument;
    hide TextOf;
    ArgumentIsRead(s, pos, a, end, done);
    var q := pos + |WrittenArgument(a)|;
    MessageEnds(s, q, end, done, TextOf(a));
    MessageEnds(s, q, end, done + [TextOf(a)], "");
  }

  lemma BlanksBehindWord(args: seq<Argument>, blanks: string, last: string)
    requires Separated(args) && (forall a :: a in args ==> IsArgument(a)) && AreBlanks(blanks)
    requires args != [] && args[0].form == Word && (|args| > 1 || (blanks != "" && blanks <= last))
    ensures BlankFirst(WrittenArguments(args[1..]) + last)
  {
    hide IsMark;
    if |args| == 1 {
      assert WrittenArguments(args[1..]) + last == last;
      assert blanks[0] in blanks && last[0] == blanks[0];
    } else {
      assert args[1].blanks != "" && args[1] in args && args[1].blanks[0] in args[1].blanks;
      assert args[1..][0] == args[1];
      assert WrittenArguments(args[1..])[0] == args[1].blanks[0];
    }
  }

  lemma SeparatedRest(args: seq<Argument>)
    requires args != [] && Separated(args)
    ensures Separated(args[1..])
  {
  }

  lemma {:induction false} ArgumentsAreRead(
      s: string, pos: nat, args: seq<Argument>, blanks: string, end: string, done: seq<string>)
    requires Separated(args) && (forall a :: a in args ==> IsArgument(a)) && AreBlanks(blanks) && IsEnd(end)
    requires pos <= |s| && s[pos..] == WrittenArguments(args) + (blanks + end) && |done| <= 39
    ensures Scan(s, pos, false, '\0', done, "") ==
      if |done| + |args| <= 39 then Some(done + TextsOf(args)) else None
    decreases |args|
  {
    hide Scan;
    hide WrittenArgument;
    hide IsArgument;
    hide BlankFirst;
    hide TextOf;
    if args == [] {
      assert WrittenArguments(args) + (blanks + end) == blanks + end;
      BlanksAreSkipped(s, pos, blanks, end, done);
      MessageEnds(s, pos + |blanks|, end, done, "");
      assert done + [] == done;
    } else {
      var a, more := args[0], WrittenArguments(args[1..]) + (blanks + end);
      assert a in args;
      assert WrittenArguments(args) + (blanks + end) == WrittenArgument(a) + more;
      assert done + [TextOf(a)] + TextsOf(args[1..]) == done + TextsOf(args);
      SeparatedRest(args);
      if |args| == 1 && blanks == "" {
        assert more == end && TextsOf(args) == [TextOf(a)];
        LastIsDone(s, pos, a, end, done);
      } else {
        if a.form == Word {
          BlanksBehindWord(args, blanks, blanks + end);
        }
        ArgumentIsDone(s, pos, a, more, done);
        if |done| < 39 {
          ArgumentsAreRead(s, pos + |WrittenArgument(a)|, args[1..], blanks, end, done + [TextOf(a)]);
        }
      }
    }
  }

  /** Up to 39 arguments, however written, are read as their texts; 40 are an error. */
  lemma MessageIsRead(args: seq<Argument>, blanks: string, end: string)
    requires Separated(args) && (forall a :: a in args ==> IsArgument(a)) && AreBlanks(blanks) && IsEnd(end)
    ensures Tokenize(WrittenArguments(args) + (blanks + end)) == if |args| <= 39 then Some(TextsOf(args)) else None
  {
    hide *;
    var s := WrittenArguments(args) + (blanks + end);
    assert s[0..] == s;
    ArgumentsAreRead(s, 0, args, blanks, end, []);
    TokenizeIs(s);
    assert [] + TextsOf(args) == TextsOf(args);
  }

  lemma TokenizeIs(s: string)
    ensures Tokenize(s) == Scan(s, 0, false, '\0', [], "")
  {
  }

  // ----- messages cut short -----------------------------------------------------------------------------------

  /** An argument that the end of the message leaves in an open quote or brace, or behind a lone backslash. */
  predicate IsCut(a: Argument, end: string) {
    && AreBlanks(a.blanks) && AreMarks(Word, a.head) && AreMarks(a.form, a.marks)
    && (a.form == Word ==> a.head == [])
    && ((a.form != Word && IsEnd(end)) || end == "\\")
  }

  function CutText(a: Argument, end: string): string {
    a.blanks + (MarksText(a.head) + (Opening(a.form) + (MarksText(a.marks) + end)))
  }

  lemma BackslashIsError(s: string, pos: nat, inside: bool, quote: char, done: seq<string>, cur: string)
    requires pos < |s| && s[pos..] == "\\"
    ensures Scan(s, pos, inside, quote, done, cur) == None
  {
    assert s[pos] == s[pos..][0];
  }

  lemma CutIsError(s: string, pos: nat, a: Argument, end: string, done: seq<string>)
    requires IsCut(a, end) && pos <= |s| && s[pos..] == CutText(a, end)
    ensures Scan(s, pos, false, '\0', done, "") == None
  {
    hide *;
    var h, o, t := MarksText(a.head), Opening(a.form), MarksText(a.marks);
    var p1, p2 := pos + |a.blanks|, pos + |a.blanks| + |h|;
    CutParts(a, end);
    QuotesAreOne(a.form);
    BlanksAreSkipped(s, pos, a.blanks, h + (o + (t + end)), done);
    HeadIsRead(s, p1, a.head, o + (t + end), done);
    if a.form == Word {
      assert "" + (t + end) == t + end;
      HeadIsRead(s, p2, a.marks, end, done);
      BackslashIsError(s, p2 + |t|, a.marks != [], '\0', done, MarksOf(a.marks));
    } else {
      OpenIsError(s, p2, a.form, a.head != [], a.marks, end, done, MarksOf(a.head));
    }
  }

  lemma OpenIsError(s: string, pos: nat, form: Form, inside: bool, marks: seq<Mark>, end: string, done: seq<string>,
    cur: string)
    requires form != Word && AreMarks(form, marks) && (IsEnd(end) || end == "\\")
    requires pos <= |s| && s[pos..] == Opening(form) + (MarksText(marks) + end)
    ensures Scan(s, pos, inside, '\0', done, cur) == None
  {
    hide *;
    var o, q := Opening(form), pos + 1 + |MarksText(marks)|;
    QuotesAreOne(form);
    Suffix(s, pos, o, MarksText(marks) + end);
    assert s[pos + 0] == o[0];
    OpeningIsRead(s, pos, form, inside, done, cur);
    TextIsRead(s, pos + 1, form, marks, end, false, done, cur);
    if end == "\\" {
      BackslashIsError(s, q, true, QuoteOf(form), done, cur + MarksOf(marks));
    } else {
      MessageEnds(s, q, end, done, cur + MarksOf(marks));
      QuoteIs(form);
    }
  }

  lemma QuoteIs(form: Form)
    ensures form != Word ==> QuoteOf(form) == '"' || QuoteOf(form) == '{'
  {
  }

  lemma CutParts(a: Argument, end: string)
    requires IsCut(a, end)
    ensures AreBlanks(a.blanks) && AreMarks(Word, a.head) && AreMarks(a.form, a.marks)
    ensures a.form == Word ==> end == "\\" && a.head == [] && MarksText(a.head) == ""
    ensures end == "\\" || IsEnd(end)
    ensures CutText(a, end) == a.blanks + (MarksText(a.head) + (Opening(a.form) + (MarksText(a.marks) + end)))
    ensures a.head == [] ==> MarksOf(a.head) == ""
  {
  }

  lemma {:induction false} CutBehind(s: string, pos: nat, args: seq<Argument>, a: Argument, end: string,
    done: seq<string>)
    requires Separated(args + [a]) && (forall b :: b in args ==> IsArgument(b)) && IsCut(a, end)
    requires pos <= |s| && s[pos..] == WrittenArguments(args) + CutText(a, end)
    ensures Scan(s, pos, false, '\0', done, "") == None
    decreases |args|
  {
    hide Scan;
    hide WrittenArgument;
    hide IsArgument;
    hide IsCut;
    hide CutText;
    hide BlankFirst;
    hide TextOf;
    var last := CutText(a, end);
    if args == [] {
      assert "" + last == last;
      CutIsError(s, pos, a, end, done);
    } else {
      var more := WrittenArguments(args[1..]) + last;
      assert args[0] in args && WrittenArguments(args) + last == WrittenArgument(args[0]) + more;
      SeparatedRest(args + [a]);
      assert (args + [a])[1..] == args[1..] + [a];
      if args[0].form == Word {
        BlanksBeforeCut(args, a, end);
      }
      ArgumentIsDone(s, pos, args[0], more, done);
      if |done| < 39 {
        CutBehind(s, pos + |WrittenArgument(args[0])|, args[1..], a, end, done + [TextOf(args[0])]);
      }
    }
  }

  lemma BlanksBeforeCut(args: seq<Argument>, a: Argument, end: string)
    requires args != [] && Separated(args + [a]) && (forall b :: b in args ==> IsArgument(b)) && IsCut(a, end)
    requires args[0].form == Word
    ensures BlankFirst(WrittenArguments(args[1..]) + CutText(a, end))
  {
    hide IsArgument;
    hide WrittenArguments;
    hide BlankFirst;
    hide IsMark;
    var all := args + [a];
    assert all[0] == args[0] && all[1].blanks != "";
    assert forall i :: 0 <= i < |args| ==> all[i] == args[i];
    assert |args| == 1 ==> all[1] == a;
    BlanksBehindWord(args, a.blanks, CutText(a, end));
  }

  /** A message that ends in an open quote or brace, or in a lone backslash, is an error. */
  lemma CutMessageIsError(args: seq<Argument>, a: Argument, end: string)
    requires Separated(args + [a]) && (forall b :: b in args ==> IsArgument(b)) && IsCut(a, end)
    ensures Tokenize(WrittenArguments(args) + CutText(a, end)) == None
  {
    hide *;
    var s := WrittenArguments(args) + CutText(a, end);
    assert s[0..] == s;
    CutBehind(s, 0, args, a, end, []);
    TokenizeIs(s);
  }
}
