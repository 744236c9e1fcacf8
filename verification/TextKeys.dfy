/**
  What each key writes in a text or number item, and what typing a text or a number commits.
 */
module TextKeys {
  import opened Common
  import opened Numbers
  import opened Snprintf
  import opened CStrings
  import opened IpEditor
  import opened TextEditors

  // ----- numbers as they are scanned ------------------------------------------------------------------

  predicate IsDecimalText(s: string) { forall c :: c in s ==> '0' <= c <= '9' }

  /** An optional sign and digits are read up to the first other character. */
  lemma NumberIsScanned(sign: string, digits: string, rest: string)
    requires sign in ["", "+", "-"] && digits != "" && IsDecimalText(digits)
    requires rest != "" ==> !('0' <= rest[0] <= '9')
    ensures Scan(sign + (digits + rest)) == Some(if sign == "-" then 0 - Number(digits, 10) else Number(digits, 10))
  {
    hide Number;
    var s, t := sign + (digits + rest), digits + rest;
    assert digits[0] in digits && t[0] == digits[0];
    assert AllDigits(digits, 10) by { forall i | 0 <= i < |digits| ensures digits[i] in digits {} }
    DigitCountIs(digits, rest, 10);
    assert t[..|digits|] == digits;
    assert sign == "" ==> s == t;
    assert sign != "" ==> s[0] == sign[0] && s[1..] == t;
  }

  /** Without a digit there nothing is read. */
  lemma NothingIsScanned(sign: string, rest: string)
    requires sign in ["+", "-"] || (sign == "" && (rest != "" ==> rest[0] != '+' && rest[0] != '-'))
    requires rest != "" ==> !('0' <= rest[0] <= '9')
    ensures Scan(sign + rest) == None
  {
    assert sign == "" ==> sign + rest == rest;
    assert sign != "" ==> (sign + rest)[0] == sign[0] && (sign + rest)[1..] == rest;
  }

  /** Every number is read back from the text it is shown as, with its sign. */
  lemma FormattedIsScanned(m: Numeric, v: int)
    ensures Scan(Formatted(m, v)) == Some(v)
    ensures Formatted(m, v) != "" && (Formatted(m, v)[0] == '-' <==> v < 0)
    ensures Formatted(m, v)[0] == '+' <==> v >= 0 && m.min < 0
  {
    hide Digits;
    hide Number;
    hide Scan;
    var n := if v < 0 then -v else v;
    var d := Digits(n, 10, false);
    NumberOfDigits(n, 10);
    assert IsDecimalText(d) by { forall c | c in d ensures '0' <= c <= '9' { var i :| 0 <= i < |d| && d[i] == c; } }
    assert d != "" by { DigitsNotEmpty(n); }
    var sign := if v < 0 then "-" else if Signed(m) then "+" else "";
    NumberIsScanned(sign, d, "");
    assert d + "" == d && "" + d == d && d[0] in d;
  }

  lemma {:induction false} DigitsGrow(a: nat, b: nat)
    requires a <= b
    ensures |Digits(a, 10, false)| <= |Digits(b, 10, false)|
    decreases b
  {
    if a >= 10 {
      DigitsGrow(a / 10, b / 10);
    }
  }

  /** Every number in range fits the length of the longer limit. */
  lemma NumbersInRangeFit(m: Numeric, v: int)
    requires m.min <= v <= m.max
    ensures |Formatted(m, v)| <= MaxLength(m)
  {
    if v < 0 {
      DigitsGrow(-v, -m.min);
    } else {
      DigitsGrow(v, m.max);
    }
    hide Digits;
  }

  lemma DigitsNotEmpty(n: nat)
    ensures Digits(n, 10, false) != ""
  {
  }

  /**
    The allowed characters are the capitals, the small letters and the digits, as far as allowed, and
    the extra ones.
   */
  lemma AlphabetInOrder(caps: bool, noncaps: bool, numbers: bool, extra: string, k: nat)
    ensures var s, a := Alphabet(caps, noncaps, numbers, extra), if caps then 26 else 0;
      var b := a + if noncaps then 26 else 0;
      var c := b + if numbers then 10 else 0;
      && |s| == c + |extra| && s[c..] == extra
      && (caps && k < 26 ==> s[k] == (65 + k) as char)
      && (noncaps && k < 26 ==> s[a + k] == (97 + k) as char)
      && (numbers && k < 10 ==> s[b + k] == (48 + k) as char)
  {
    ClassRuns();
    hide CAPITALS;
    hide SMALL;
    hide DIGITS;
  }

  // ----- the keys of a text item ------------------------------------------------------------------------

  /** UP takes the next allowed character, from the end of the text the first, and from the last the end. */
  lemma UpTakesNext(f: EditField, value: string, a: Alpha, width: nat, extended: bool, i: nat)
    requires IsAlpha(a) && SoundField(f, a.maxlen, width)
    ensures var c := f.buf[f.pos]; var (g, v, outcome) := PressAlpha(f, value, a, width, extended, UpKey);
      && v == value && outcome == Stay
      && (f.pos == a.maxlen ==> g == f.(pos := 0, offs := 0, error := 2))
      && (f.pos < a.maxlen ==> g == f.(buf := f.buf[f.pos := g.buf[f.pos]], error := 0) && |g.buf| == |f.buf|)
      && (f.pos < a.maxlen && c == NUL ==> g.buf[f.pos] == if a.chars == "" then NUL else a.chars[0])
      && (f.pos < a.maxlen && c != NUL && c !in a.chars ==> g.buf[f.pos] == NUL)
      && (f.pos < a.maxlen && i < |a.chars| && a.chars[i] == c && c !in a.chars[..i] ==>
        g.buf[f.pos] == if i + 1 < |a.chars| then a.chars[i + 1] else NUL)
  {
    FirstAt(a.chars, f.buf[f.pos], i);
    hide FirstIndex;
  }

  lemma FirstAt(chars: string, c: char, i: nat)
    ensures i < |chars| && chars[i] == c && c !in chars[..i] ==> FirstIndex(chars, c) == i
    ensures c !in chars ==> FirstIndex(chars, c) == |chars|
  {
    hide FirstIndex;
    if i < |chars| && chars[i] == c && c !in chars[..i] {
      FirstIndexIs(chars[..i], chars[i..], c);
      assert chars[..i] + chars[i..] == chars;
    }
    if c !in chars {
      FirstIndexIs(chars, "", c);
      assert chars + "" == chars;
    }
  }

  /** DOWN takes the one before, from the end of the text the last, and from the first the end. */
  lemma DownTakesPrevious(f: EditField, value: string, a: Alpha, width: nat, extended: bool, i: nat)
    requires IsAlpha(a) && SoundField(f, a.maxlen, width)
    ensures var c := f.buf[f.pos]; var (g, v, outcome) := PressAlpha(f, value, a, width, extended, DownKey);
      && v == value && outcome == Stay
      && (f.pos == a.maxlen ==> g == f.(pos := 0, offs := 0, error := 2))
      && (f.pos < a.maxlen ==> g == f.(buf := f.buf[f.pos := g.buf[f.pos]], error := 0) && |g.buf| == |f.buf|)
      && (f.pos < a.maxlen && c == NUL ==>
        g.buf[f.pos] == if a.chars == "" then a.below else a.chars[|a.chars| - 1])
      && (f.pos < a.maxlen && c != NUL && c !in a.chars ==> g.buf[f.pos] == NUL)
      && (f.pos < a.maxlen && i < |a.chars| && a.chars[i] == c && c !in a.chars[..i] ==>
        g.buf[f.pos] == if i > 0 then a.chars[i - 1] else NUL)
  {
    FirstAt(a.chars, f.buf[f.pos], i);
    hide FirstIndex;
  }

  /** The window when the cursor goes one to the right. */
  function Scrolled(f: EditField, width: nat): nat { if f.pos + 2 >= width then f.offs + 1 else f.offs }

  /** RIGHT goes on over the text but not behind its last place, LEFT goes back; neither writes. */
  lemma MoveKeysOfText(f: EditField, value: string, a: Alpha, width: nat, extended: bool)
    requires IsAlpha(a) && SoundField(f, a.maxlen, width)
    ensures PressAlpha(f, value, a, width, extended, RightKey) ==
      (if f.buf[f.pos] != NUL && f.pos + 1 < a.maxlen then f.(pos := f.pos + 1, offs := Scrolled(f, width), error := 0)
       else f.(error := 0), value, Stay)
    ensures PressAlpha(f, value, a, width, extended, LeftKey) ==
      (if f.pos > 0 then f.(pos := f.pos - 1, offs := Min(f.offs, f.pos - 1), error := 0)
       else f.(error := 0), value, Stay)
  {
  }

  /** A typed character is written if it is allowed and printable in ASCII, and the cursor goes on. */
  lemma TypedIsWritten(f: EditField, value: string, a: Alpha, width: nat, extended: bool, key: string)
    requires IsAlpha(a) && SoundField(f, a.maxlen, width)
    ensures PressAlpha(f, value, a, width, extended, OtherKey(key)) ==
      (if f.pos == a.maxlen then f.(pos := 0, offs := 0, error := 2)
       else if |key| == 1 && ' ' <= key[0] && key[0] as int < 128 && key[0] in a.chars then
         f.(buf := f.buf[f.pos := key[0]], pos := f.pos + 1, offs := Scrolled(f, width), error := 0)
       else f.(error := 0), value, Stay)
  {
  }

  /**
    ENTER at the end of the text makes it the value, or reports error 3 when it is too short; before
    the end it goes on.
   */
  lemma EnterTakesText(f: EditField, value: string, a: Alpha, width: nat, extended: bool, text: string)
    requires IsAlpha(a) && SoundField(f, a.maxlen, width)
    requires |text| < |f.buf| && NUL !in text && f.buf[..|text|] == text && f.buf[|text|] == NUL
    ensures PressAlpha(f, value, a, width, extended, EnterKey) ==
      if extended || f.buf[f.pos] == NUL then
        (if |text| < a.minlen then (f.(error := 3), value, Stay) else (f.(error := 0), text, ToSuccessor))
      else (if f.pos < a.maxlen then f.(pos := f.pos + 1, offs := Scrolled(f, width), error := 0)
            else f.(error := 0), value, Stay)
  {
    hide FirstIndex;
    EndsAt(f.buf, |text|);
    TextEnds(f, a.maxlen, width);
    hide CString;
  }

  lemma MenuOfText(f: EditField, value: string, a: Alpha, width: nat, extended: bool)
    requires IsAlpha(a) && SoundField(f, a.maxlen, width)
    ensures PressAlpha(f, value, a, width, extended, MenuKey) ==
      if f.pos == 0 then (f.(error := 0), value, ToPredecessor) else (Loaded(value, a.maxlen + 1), value, Stay)
  {
  }

  function Typing(s: string): (r: seq<Token>)
    ensures |r| == |s|
  {
    seq(|s|, i requires 0 <= i < |s| => OtherKey([s[i]]))
  }

  /** The text so far, and nothing behind it. */
  predicate Holds(f: EditField, s: string) {
    f.pos == |s| < |f.buf| && f.buf[..|s|] == s && forall i :: |s| <= i < |f.buf| ==> f.buf[i] == NUL
  }

  lemma {:induction false} TypingFills(
      f: EditField, value: string, a: Alpha, width: nat, extended: bool, before: string, s: string)
    requires IsAlpha(a) && SoundField(f, a.maxlen, width) && width >= 2 && |value| <= a.maxlen
    requires Holds(f, before) && |before + s| <= a.maxlen && |f.buf| == a.maxlen + 1
    requires forall c :: c in s ==> c in a.chars && ' ' <= c && c as int < 128
    ensures var (g, v) := RunAlpha(f, value, a, width, extended, Typing(s));
      Holds(g, before + s) && SoundField(g, a.maxlen, width) && v == value && |g.buf| == a.maxlen + 1
    decreases |s|
  {
    if s == "" {
      assert before + s == before;
    } else {
      var c, rest := s[0], s[1..];
      assert c in s && forall d :: d in rest ==> d in s;
      TypedIsWritten(f, value, a, width, extended, [c]);
      PressAlphaKeeps(f, value, a, width, extended, OtherKey([c]));
      hide PressAlpha;
      hide SoundField;
      var r := PressAlpha(f, value, a, width, extended, OtherKey([c]));
      assert r.0.buf[..|before| + 1] == before + [c];
      assert Typing(s)[0] == OtherKey([c]) && Typing(s)[1..] == Typing(rest);
      assert before + [c] + rest == before + s;
      TypingFills(r.0, value, a, width, extended, before + [c], rest);
    }
  }

  /** Typing a text of allowed characters into an empty item and pressing ENTER makes it the value. */
  lemma TypedTextIsCommitted(value: string, a: Alpha, width: nat, extended: bool, s: string)
    requires IsAlpha(a) && width >= 2 && |value| <= a.maxlen && a.minlen <= |s| <= a.maxlen
    requires forall c :: c in s ==> c in a.chars && ' ' <= c && c as int < 128
    ensures var e := Loaded("", a.maxlen + 1);
      && SoundField(e, a.maxlen, width)
      && var f := RunAlpha(e, value, a, width, extended, Typing(s)).0;
        SoundField(f, a.maxlen, width) &&
        PressAlpha(f, value, a, width, extended, EnterKey) == (f.(error := 0), s, ToSuccessor)
  {
    var e := Loaded("", a.maxlen + 1);
    assert e.buf[..0] == "";
    TypingFills(e, value, a, width, extended, "", s);
    var f := RunAlpha(e, value, a, width, extended, Typing(s)).0;
    assert "" + s == s && f.buf[|s|] == NUL;
    assert NUL !in s;
    EnterTakesText(f, value, a, width, extended, s);
  }

  // ----- the keys of a number item --------------------------------------------------------------------------

  /** UP and DOWN: minus becomes plus and anything else minus where a signed item has its sign. */
  lemma SignIsToggled(f: EditField, value: int, m: Numeric, width: nat, extended: bool)
    requires SoundNumeric(f, value, m, width) && m.min < 0 && f.pos == 0
    ensures var r := (f.(buf := f.buf[0 := if f.buf[0] == '-' then '+' else '-'], error := 0), value, Done(Stay));
      && PressNumeric(f, value, m, width, extended, UpKey) == r
      && PressNumeric(f, value, m, width, extended, DownKey) == r
  {
    SignFits(m);
    hide MaxLength;
  }

  lemma SignFits(m: Numeric)
    ensures MaxLength(m) >= 1
  {
    DigitsNotEmpty(if m.min < 0 then -m.min else m.min);
    hide Digits;
  }

  /** Elsewhere they go from digit to digit, over 9 and 0 to the end of the text; other characters stay. */
  lemma DigitIsStepped(f: EditField, value: int, m: Numeric, width: nat, extended: bool)
    requires SoundNumeric(f, value, m, width) && (m.min >= 0 || f.pos > 0)
    ensures var c := f.buf[f.pos]; var (g, v, answer) := PressNumeric(f, value, m, width, extended, UpKey);
      && v == value && answer == Done(Stay)
      && g == (if f.pos == MaxLength(m) then f.(pos := 0, offs := 0, error := 2) else f.(error := 0, buf :=
           f.buf[f.pos := if c == NUL then '0' else if c == '9' then NUL
             else if '0' <= c < '9' then (c as int + 1) as char else c]))
    ensures var c := f.buf[f.pos]; var (g, v, answer) := PressNumeric(f, value, m, width, extended, DownKey);
      && v == value && answer == Done(Stay)
      && g == (if f.pos == MaxLength(m) then f.(pos := 0, offs := 0, error := 2) else f.(error := 0, buf :=
           f.buf[f.pos := if c == NUL then '9' else if c == '0' then NUL
             else if '0' < c <= '9' then (c as int - 1) as char else c]))
  {
    hide MaxLength;
  }

  lemma MoveKeysOfNumber(f: EditField, value: int, m: Numeric, width: nat, extended: bool)
    requires SoundNumeric(f, value, m, width)
    ensures PressNumeric(f, value, m, width, extended, RightKey) ==
      (if f.buf[f.pos] != NUL && f.pos < MaxLength(m) then
         f.(pos := f.pos + 1, offs := Scrolled(f, width), error := 0)
       else f.(error := 0), value, Done(Stay))
    ensures PressNumeric(f, value, m, width, extended, LeftKey) ==
      (if f.pos > 0 then f.(pos := f.pos - 1, offs := Min(f.offs, f.pos - 1), error := 0)
       else f.(error := 0), value, Done(Stay))
    ensures PressNumeric(f, value, m, width, extended, MenuKey) ==
      if f.pos == 0 then (f.(error := 0), value, Done(ToPredecessor))
      else (Loaded(Formatted(m, value), 40), value, Done(Stay))
  {
    hide MaxLength;
    hide Formatted;
  }

  /** A typed digit is written, and the cursor goes on; at the length of the longest number it is error 2. */
  lemma TypedDigitIsWritten(f: EditField, value: int, m: Numeric, width: nat, extended: bool, key: string)
    requires SoundNumeric(f, value, m, width)
    ensures PressNumeric(f, value, m, width, extended, OtherKey(key)) ==
      (if f.pos == MaxLength(m) then f.(pos := 0, offs := 0, error := 2)
       else if |key| == 1 && '0' <= key[0] <= '9' then
         f.(buf := f.buf[f.pos := key[0]], pos := f.pos + 1, offs := Scrolled(f, width), error := 0)
       else f.(error := 0), value, Done(Stay))
  {
    hide MaxLength;
  }

  lemma TextOfField(f: EditField, value: int, m: Numeric, width: nat, text: string)
    requires SoundNumeric(f, value, m, width)
    requires NUL !in text && |text| < |f.buf| && f.buf[..|text|] == text && f.buf[|text|] == NUL
    ensures CString(f.buf) == text
  {
    hide MaxLength;
    hide FirstIndex;
    EndsAt(f.buf, |text|);
  }

  lemma EnterIs(f: EditField, value: int, m: Numeric, width: nat, extended: bool)
    requires SoundNumeric(f, value, m, width)
    ensures PressNumeric(f, value, m, width, extended, EnterKey) ==
      if extended || f.buf[f.pos] == NUL then
        (match Scan(CString(f.buf))
         case None => (f.(error := 0), value, Failed)
         case Some(n) =>
           if m.min <= n <= m.max then (f.(error := 0), n, Done(ToSuccessor))
           else (f.(pos := 0, offs := 0, error := 1), value, Done(Stay)))
      else (if f.pos < MaxLength(m) then f.(pos := f.pos + 1, offs := Scrolled(f, width), error := 0)
            else f.(error := 0), value, Done(Stay))
  {
    hide Scan;
    hide CString;
    hide MaxLength;
    TextEnds(f, 39, width);
  }

  /** ENTER at the end of the text takes the number it begins with, if it is in range; before the end it goes on. */
  lemma EnterTakesNumber(
      f: EditField, value: int, m: Numeric, width: nat, extended: bool, sign: string, digits: string, rest: string)
    requires SoundNumeric(f, value, m, width) && sign in ["", "+", "-"] && digits != "" && IsDecimalText(digits)
    requires (rest != "" ==> !('0' <= rest[0] <= '9')) && NUL !in rest
    requires var text := sign + (digits + rest); |text| < |f.buf| && f.buf[..|text|] == text && f.buf[|text|] == NUL
    ensures var n := if sign == "-" then 0 - Number(digits, 10) else Number(digits, 10);
      PressNumeric(f, value, m, width, extended, EnterKey) ==
        if extended || f.buf[f.pos] == NUL then
          (if m.min <= n <= m.max then (f.(error := 0), n, Done(ToSuccessor))
           else (f.(pos := 0, offs := 0, error := 1), value, Done(Stay)))
        else (if f.pos < MaxLength(m) then f.(pos := f.pos + 1, offs := Scrolled(f, width), error := 0)
              else f.(error := 0), value, Done(Stay))
  {
    hide *;
    NoNulInNumber(sign, digits, rest);
    NumberIsScanned(sign, digits, rest);
    TextOfField(f, value, m, width, sign + (digits + rest));
    EnterIs(f, value, m, width, extended);
  }

  lemma NoNulInNumber(sign: string, digits: string, rest: string)
    requires sign in ["", "+", "-"] && IsDecimalText(digits) && NUL !in rest
    ensures NUL !in sign + (digits + rest)
  {
    assert NUL !in digits && NUL !in sign;
  }

  /** A text that begins with no number is refused. */
  lemma EnterTakesNothing(
      f: EditField, value: int, m: Numeric, width: nat, extended: bool, sign: string, rest: string)
    requires SoundNumeric(f, value, m, width)
    requires sign in ["+", "-"] || (sign == "" && (rest != "" ==> rest[0] != '+' && rest[0] != '-'))
    requires (rest != "" ==> !('0' <= rest[0] <= '9')) && NUL !in rest
    requires var text := sign + rest; |text| < |f.buf| && f.buf[..|text|] == text && f.buf[|text|] == NUL
    ensures PressNumeric(f, value, m, width, extended, EnterKey) ==
      if extended || f.buf[f.pos] == NUL then (f.(error := 0), value, Failed)
      else (if f.pos < MaxLength(m) then f.(pos := f.pos + 1, offs := Scrolled(f, width), error := 0)
            else f.(error := 0), value, Done(Stay))
  {
    NoNulInNumber(sign, "", rest);
    assert "" + rest == rest;
    hide *;
    NothingIsScanned(sign, rest);
    TextOfField(f, value, m, width, sign + rest);
    EnterIs(f, value, m, width, extended);
  }

  lemma {:induction false} TypingDigitsFills(
      f: EditField, value: int, m: Numeric, width: nat, extended: bool, before: string, s: string)
    requires SoundNumeric(f, value, m, width) && width >= 2
    requires Holds(f, before) && |before + s| <= MaxLength(m) && IsDecimalText(s)
    ensures var (g, v) := RunNumeric(f, value, m, width, extended, Typing(s));
      Holds(g, before + s) && SoundNumeric(g, v, m, width) && v == value
    decreases |s|
  {
    hide MaxLength;
    if s == "" {
      assert before + s == before;
    } else {
      var c, rest := s[0], s[1..];
      assert c in s && forall d :: d in rest ==> d in s;
      TypedDigitIsWritten(f, value, m, width, extended, [c]);
      PressNumericKeeps(f, value, m, width, extended, OtherKey([c]));
      hide PressNumeric;
      hide SoundNumeric;
      SizeOfField(f, value, m, width);
      var r := PressNumeric(f, value, m, width, extended, OtherKey([c]));
      SizeOfField(r.0, value, m, width);
      assert r.0.buf[..|before| + 1] == before + [c];
      assert Typing(s)[0] == OtherKey([c]) && Typing(s)[1..] == Typing(rest);
      assert before + [c] + rest == before + s;
      TypingDigitsFills(r.0, value, m, width, extended, before + [c], rest);
    }
  }

  lemma SizeOfField(f: EditField, value: int, m: Numeric, width: nat)
    requires SoundNumeric(f, value, m, width)
    ensures |f.buf| == 40 && f.pos <= MaxLength(m) <= 11
  {
    LengthFits(m);
    hide MaxLength;
  }

  /** Typing digits into an empty item, behind a minus sign or not, and pressing ENTER makes their number the value. */
  lemma TypedNumberIsCommitted(
      f: EditField, value: int, m: Numeric, width: nat, extended: bool, sign: string, s: string)
    requires SoundNumeric(f, value, m, width) && width >= 2 && Holds(f, sign) && sign in ["", "+", "-"]
    requires s != "" && IsDecimalText(s) && |sign + s| <= MaxLength(m)
    requires m.min <= (if sign == "-" then 0 - Number(s, 10) else Number(s, 10)) <= m.max
    ensures var g := RunNumeric(f, value, m, width, extended, Typing(s)).0;
      && SoundNumeric(g, value, m, width)
      && PressNumeric(g, value, m, width, extended, EnterKey) ==
        (g.(error := 0), if sign == "-" then 0 - Number(s, 10) else Number(s, 10), Done(ToSuccessor))
  {
    TypingDigitsFills(f, value, m, width, extended, sign, s);
    var g := RunNumeric(f, value, m, width, extended, Typing(s)).0;
    SizeOfField(g, value, m, width);
    hide PressNumeric;
    hide RunNumeric;
    hide SoundNumeric;
    hide MaxLength;
    hide Number;
    assert sign + (s + "") == sign + s && g.buf[|sign + s|] == NUL;
    EnterTakesNumber(g, value, m, width, extended, sign, s, "");
  }

  /** A signed item begins with its sign: UP on the empty item and RIGHT. */
  lemma MinusIsTyped(value: int, m: Numeric, width: nat, extended: bool)
    requires IsNumeric(m) && IsInt(value) && m.min < 0 && width >= 2
    ensures var e := Loaded("", 40);
      && SoundNumeric(e, value, m, width)
      && var f := RunNumeric(e, value, m, width, extended, [UpKey, RightKey]).0;
        Holds(f, "-") && SoundNumeric(f, value, m, width)
  {
    var e := Loaded("", 40);
    SignFits(m);
    hide MaxLength;
    SignIsToggled(e, value, m, width, extended);
    PressNumericKeeps(e, value, m, width, extended, UpKey);
    var f := PressNumeric(e, value, m, width, extended, UpKey).0;
    MoveKeysOfNumber(f, value, m, width, extended);
    PressNumericKeeps(f, value, m, width, extended, RightKey);
    hide PressNumeric;
    hide SoundNumeric;
    var tokens := [UpKey, RightKey];
    assert tokens[1..] == [RightKey] && tokens[1..][1..] == [];
    var g := PressNumeric(f, value, m, width, extended, RightKey).0;
    assert g.buf[..1] == "-";
  }
}
