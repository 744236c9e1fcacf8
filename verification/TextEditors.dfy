/**
  The alphanumeric and numeric menu items, edited key by key.
 */
module TextEditors {
  import opened Common
  import opened Snprintf
  import opened Numbers
  import opened CStrings
  import opened IpEditor

  /** The buffer with all it holds, also behind the end of its text, and the window on it. */
  datatype EditField = EditField(buf: seq<char>, pos: nat, offs: nat, error: nat)

  datatype Answer = Done(outcome: Outcome) | Failed

  /** The cursor is on the text or at its end, at most at maxlen, and in the window. */
  predicate SoundField(f: EditField, maxlen: nat, width: nat) {
    && f.pos <= maxlen < |f.buf| && f.buf[maxlen] == NUL
    && (forall i :: 0 <= i < f.pos ==> f.buf[i] != NUL)
    && f.offs <= f.pos && f.pos - f.offs <= width - 2
  }

  function Right(f: EditField, width: nat): EditField {
    f.(pos := f.pos + 1, offs := if f.pos + 2 >= width then f.offs + 1 else f.offs)
  }

  function Left(f: EditField): EditField {
    if f.pos == 0 then f
    else f.(pos := f.pos - 1, offs := if f.offs > f.pos - 1 then f.pos - 1 else f.offs)
  }

  function Written(f: EditField, c: char): EditField
    requires f.pos < |f.buf|
  {
    f.(buf := f.buf[f.pos := c])
  }

  /** Nothing may be added at the end of the field: back to the left, with an error. */
  function Full(f: EditField): EditField {
    f.(pos := 0, offs := 0, error := 2)
  }

  /** The string s in a field of size n, as memset and strcpy leave it. */
  function Loaded(s: string, n: nat): EditField {
    EditField(seq(n, i => if 0 <= i < |s| then s[i] else NUL), 0, 0, 0)
  }

  /** A text that ends in its field is behind the cursor entirely, and not longer than the field allows. */
  lemma TextEnds(f: EditField, maxlen: nat, width: nat)
    requires SoundField(f, maxlen, width)
    ensures Ends(f.buf) && f.pos <= |CString(f.buf)| <= maxlen
  {
    hide FirstIndex;
    CStrings.Terminated(f.buf);
    FirstIndexFacts(f.buf, NUL);
    var k := FirstIndex(f.buf, NUL);
    assert forall i :: 0 <= i < k ==> f.buf[..k][i] == f.buf[i];
  }

  // ----- letters ------------------------------------------------------------------------------------------

  /** UP: the next character, the end of the text behind the last. */
  function NextChar(chars: string, c: char): char {
    if c == NUL then (if chars == "" then NUL else chars[0])
    else
      var i := FirstIndex(chars, c);
      if i + 1 < |chars| then chars[i + 1] else NUL
  }

  /** DOWN: the one before. */
  function PreviousChar(chars: string, c: char): char
    requires chars != "" || c != NUL
  {
    if c == NUL then chars[|chars| - 1]
    else
      var i := FirstIndex(chars, c);
      if 0 < i < |chars| then chars[i - 1] else NUL
  }

  /** The characters that the keys go through. */
  predicate InCycle(chars: string, c: char) { c == NUL || c in chars }

  lemma FirstInDistinct(chars: string, i: nat)
    requires Distinct(chars) && i < |chars|
    ensures FirstIndex(chars, chars[i]) == i
  {
  }

  /** Over an alphabet without duplicates each key takes the other back exactly on its characters and the end. */
  lemma {:induction false} KeysAreInverse(chars: string, c: char)
    requires chars != "" && NUL !in chars && Distinct(chars)
    ensures PreviousChar(chars, NextChar(chars, c)) == c <==> InCycle(chars, c)
    ensures NextChar(chars, PreviousChar(chars, c)) == c <==> InCycle(chars, c)
  {
    FirstInDistinct(chars, 0);
    FirstInDistinct(chars, |chars| - 1);
    if c in chars {
      var i :| 0 <= i < |chars| && chars[i] == c;
      FirstInDistinct(chars, i);
      if i + 1 < |chars| {
        FirstInDistinct(chars, i + 1);
      }
      if i > 0 {
        FirstInDistinct(chars, i - 1);
      }
    }
  }

  /** With a duplicate there is a character in the alphabet that DOWN after UP does not give back. */
  lemma DuplicatesBreakTheCycle(chars: string)
    requires chars != "" && NUL !in chars && !Distinct(chars)
    ensures exists c :: c in chars && PreviousChar(chars, NextChar(chars, c)) != c
  {
    var j := FirstDuplicate(chars);
    var before := chars[j - 1];
    assert FirstIndex(chars, before) == j - 1 by { FirstUnrepeated(chars, j, j - 1); }
    assert NextChar(chars, before) == chars[j];
    var i := FirstIndex(chars, chars[j]);
    assert before in chars;
    assert PreviousChar(chars, chars[j]) == if i > 0 then chars[i - 1] else NUL;
  }

  /** The first character that repeats an earlier one. */
  lemma FirstDuplicate(chars: string) returns (j: nat)
    requires !Distinct(chars)
    ensures 0 < j < |chars| && Distinct(chars[..j]) && FirstIndex(chars, chars[j]) < j
  {
    j := 1;
    while j + 1 < |chars| && Distinct(chars[..j + 1])
      invariant 0 < j < |chars| && Distinct(chars[..j])
      decreases |chars| - j
    {
      j := j + 1;
    }
    assert chars[..|chars|] == chars;
    var a, b :| 0 <= a < b < j + 1 && chars[..j + 1][a] == chars[..j + 1][b];
    DistinctPrefix(chars, j);
    assert chars[a] == chars[b];
  }

  lemma DistinctPrefix(chars: string, j: nat)
    requires j <= |chars|
    ensures Distinct(chars[..j]) <==> forall p, q :: 0 <= p < q < j ==> chars[p] != chars[q]
  {
    assert forall p :: 0 <= p < j ==> chars[..j][p] == chars[p];
  }

  lemma FirstUnrepeated(chars: string, j: nat, i: nat)
    requires i < j <= |chars| && Distinct(chars[..j])
    ensures FirstIndex(chars, chars[i]) == i
  {
    DistinctPrefix(chars, j);
  }

  /** UP from the end of the text goes through the whole alphabet in order. */
  lemma {:induction false} UpGoesThrough(chars: string, n: nat)
    requires chars != "" && NUL !in chars && Distinct(chars) && n <= |chars|
    ensures Ups(chars, NUL, n) == if n == 0 then NUL else chars[n - 1]
    ensures n == |chars| ==> NextChar(chars, Ups(chars, NUL, n)) == NUL
  {
    if n > 0 {
      UpGoesThrough(chars, n - 1);
      FirstInDistinct(chars, n - 1);
      if n > 1 {
        FirstInDistinct(chars, n - 2);
      }
    }
  }

  function Ups(chars: string, c: char, n: nat): char {
    if n == 0 then c else NextChar(chars, Ups(chars, c, n - 1))
  }

  /** The alphabet of an item: the allowed classes of characters, then the extra ones. */
  function Alphabet(caps: bool, noncaps: bool, numbers: bool, extra: string): string {
    (if caps then CAPITALS else "") + (if noncaps then SMALL else "") + (if numbers then DIGITS else "") + extra
  }

  const CAPITALS := "ABCDEFGHIJKLMNOPQRSTUVWXYZ"
  const SMALL := "abcdefghijklmnopqrstuvwxyz"

  predicate InClasses(caps: bool, noncaps: bool, numbers: bool, c: char) {
    (caps && 'A' <= c <= 'Z') || (noncaps && 'a' <= c <= 'z') || (numbers && '0' <= c <= '9')
  }

  /**
    An alphabet is free of duplicates exactly when its extra characters are, and are in none of the
    allowed classes.
   */
  lemma AlphabetIsDistinctIff(caps: bool, noncaps: bool, numbers: bool, extra: string)
    ensures Distinct(Alphabet(caps, noncaps, numbers, extra)) <==>
      Distinct(extra) && forall c :: c in extra ==> !InClasses(caps, noncaps, numbers, c)
  {
    ClassRuns();
    hide Distinct;
    var a, b, d := if caps then CAPITALS else "", if noncaps then SMALL else "", if numbers then DIGITS else "";
    RunIsDistinct(a, 'A');
    RunIsDistinct(b, 'a');
    RunIsDistinct(d, '0');
    DistinctAppend(a, b);
    DistinctAppend(a + b, d);
    DistinctAppend(a + b + d, extra);
    assert forall c :: c in a + b + d <==> InClasses(caps, noncaps, numbers, c);
  }

  /** Consecutive characters. */
  predicate IsRun(s: string, first: char) {
    |s| <= 26 && forall i :: 0 <= i < |s| ==> s[i] as int == first as int + i
  }

  lemma ClassRuns()
    ensures IsRun(CAPITALS, 'A') && |CAPITALS| == 26 && IsRun(SMALL, 'a') && |SMALL| == 26
    ensures IsRun(DIGITS, '0') && |DIGITS| == 10
    ensures forall c: char :: c in CAPITALS <==> 'A' <= c <= 'Z'
    ensures forall c: char :: c in SMALL <==> 'a' <= c <= 'z'
    ensures forall c: char :: c in DIGITS <==> '0' <= c <= '9'
  {
    RunMembers(CAPITALS, 'A');
    RunMembers(SMALL, 'a');
    RunMembers(DIGITS, '0');
  }

  lemma RunMembers(s: string, first: char)
    requires IsRun(s, first)
    ensures forall c: char :: c in s <==> first as int <= c as int < first as int + |s|
  {
    forall c: char | first as int <= c as int < first as int + |s| ensures c in s {
      assert s[c as int - first as int] == c;
    }
  }

  lemma RunIsDistinct(s: string, first: char)
    requires s == "" || IsRun(s, first)
    ensures Distinct(s)
  {
  }

  lemma DistinctAppend(s: string, t: string)
    ensures Distinct(s + t) <==> Distinct(s) && Distinct(t) && forall c :: c in t ==> c !in s
  {
    if Distinct(s + t) {
      assert forall i :: 0 <= i < |s| ==> (s + t)[i] == s[i];
      forall i, j | 0 <= i < j < |t| ensures t[i] != t[j] {
        assert (s + t)[|s| + i] == t[i] && (s + t)[|s| + j] == t[j];
      }
      forall i, j | 0 <= i < |s| && 0 <= j < |t| ensures s[i] != t[j] {
        assert (s + t)[i] == s[i] && (s + t)[|s| + j] == t[j];
      }
    }
    if Distinct(s) && Distinct(t) && forall c :: c in t ==> c !in s {
      forall i, j | 0 <= i < j < |s + t| ensures (s + t)[i] != (s + t)[j] {
        if j < |s| {
          assert (s + t)[i] == s[i] && (s + t)[j] == s[j];
        } else if i < |s| {
          assert (s + t)[i] == s[i] && (s + t)[j] == t[j - |s|] && t[j - |s|] in t;
        } else {
          assert (s + t)[i] == t[i - |s|] && (s + t)[j] == t[j - |s|];
        }
      }
    }
  }

  // ----- the alphanumeric item ------------------------------------------------------------------------------

  /** The lengths and the allowed characters, and the byte in memory in front of the list of these. */
  datatype Alpha = Alpha(minlen: nat, maxlen: nat, chars: string, below: char)

  predicate IsAlpha(a: Alpha) { NUL !in a.chars }

  /** DOWN at the end of the text takes what is in front of the list when no character is allowed. */
  function CharBelow(a: Alpha, c: char): char {
    if a.chars == "" && c == NUL then a.below else PreviousChar(a.chars, c)
  }

  /** Characters are signed: a byte above 127 is below the blank. */
  function PressAlpha(f: EditField, value: string, a: Alpha, width: nat, extended: bool, token: Token)
    : (EditField, string, Outcome)
    requires IsAlpha(a) && SoundField(f, a.maxlen, width)
  {
    var f := f.(error := 0);
    match token
    case MenuKey => if f.pos == 0 then (f, value, ToPredecessor) else (Loaded(value, a.maxlen + 1), value, Stay)
    case EnterKey =>
      if extended || f.buf[f.pos] == NUL then
        TextEnds(f, a.maxlen, width);
        if |CString(f.buf)| < a.minlen then (f.(error := 3), value, Stay) else (f, CString(f.buf), ToSuccessor)
      else (if f.pos < a.maxlen then Right(f, width) else f, value, Stay)
    case UpKey => (if f.pos >= a.maxlen then Full(f) else Written(f, NextChar(a.chars, f.buf[f.pos])), value, Stay)
    case DownKey => (if f.pos >= a.maxlen then Full(f) else Written(f, CharBelow(a, f.buf[f.pos])), value, Stay)
    case RightKey => (if f.buf[f.pos] != NUL && f.pos < a.maxlen - 1 then Right(f, width) else f, value, Stay)
    case LeftKey => (Left(f), value, Stay)
    case OtherKey(key) =>
      (if f.pos >= a.maxlen then Full(f)
       else if |key| == 1 && ' ' <= key[0] < 128 as char && key[0] in a.chars then Right(Written(f, key[0]), width)
       else f, value, Stay)
  }

  /** Every key keeps the field sound, and only a text of an allowed length becomes the value. */
  lemma {:induction false} PressAlphaKeeps(f: EditField, value: string, a: Alpha, width: nat, extended: bool,
    token: Token)
    requires IsAlpha(a) && SoundField(f, a.maxlen, width) && width >= 2 && |value| <= a.maxlen
    ensures var r := PressAlpha(f, value, a, width, extended, token);
      && SoundField(r.0, a.maxlen, width) && |r.1| <= a.maxlen
      && (r.2 == ToSuccessor ==> a.minlen <= |r.1| && r.1 == CString(f.buf))
      && (r.2 != ToSuccessor ==> r.1 == value)
  {
    hide CString;
    hide NextChar;
    hide CharBelow;
    TextEnds(f, a.maxlen, width);
  }

  // ----- the numeric item -----------------------------------------------------------------------------------

  const MAX_NUMERIC_LEN := 40

  datatype Numeric = Numeric(min: int, max: int)

  function Signed(m: Numeric): bool { m.min < 0 }

  function Formatted(m: Numeric, v: int): string {
    if Signed(m) && v >= 0 then "+" + Digits(v, 10, false) else Decimal(v)
  }

  function MaxLength(m: Numeric): nat {
    var a, b := |Formatted(m, m.min)|, |Formatted(m, m.max)|;
    if a < b then b else a
  }

  predicate IsInt(v: int) { -0x8000_0000 <= v <= 0x7fff_ffff }

  predicate IsNumeric(m: Numeric) { IsInt(m.min) && IsInt(m.max) }

  lemma FormattedFits(m: Numeric, v: int)
    requires IsInt(v)
    ensures |Formatted(m, v)| <= 11
  {
    assert Power(10, 5) == 100000 && Power(10, 10) == 10000000000 by { TenDigits(); }
    FewDigits(if v < 0 then -v else v, 10, 10);
  }

  lemma TenDigits()
    ensures Power(10, 5) == 100000 && Power(10, 10) == 10000000000
  {
    assert Power(10, 4) == 10000;
    assert Power(10, 7) == 100 * Power(10, 5);
    assert Power(10, 9) == 100 * Power(10, 7);
  }

  lemma LengthFits(m: Numeric)
    requires IsNumeric(m)
    ensures MaxLength(m) <= 11
  {
    FormattedFits(m, m.min);
    FormattedFits(m, m.max);
  }

  /** sscanf with %d: an optional sign and digits; anything may follow. */
  function Scan(s: string): Option<int> {
    var signed := s != "" && (s[0] == '+' || s[0] == '-');
    var rest := if signed then s[1..] else s;
    if DigitCount(rest, 10) == 0 then None
    else if signed && s[0] == '-' then Some(0 - Strtol(rest, 10)) else Some(Strtol(rest, 10))
  }

  function DigitUp(c: char): char {
    if '0' <= c < '9' then (c as int + 1) as char else if c == '9' then NUL else if c == NUL then '0' else c
  }

  function DigitDown(c: char): char {
    if '0' < c <= '9' then (c as int - 1) as char else if c == '0' then NUL else if c == NUL then '9' else c
  }

  /** The digit keys go round the ten digits and the end of the text, each taking the other back. */
  lemma {:induction false} DigitKeysAreInverse(c: char)
    requires IsDigit(c) || c == NUL
    ensures DigitDown(DigitUp(c)) == c && DigitUp(DigitDown(c)) == c
    ensures DigitUp(c) == NextChar(DIGITS, c) && DigitDown(c) == PreviousChar(DIGITS, c)
  {
    DigitCycle();
    hide FirstIndex;
    if c != NUL {
      DigitAt(c);
    }
  }

  lemma {:induction false} DigitAt(c: char)
    requires IsDigit(c)
    ensures FirstIndex(DIGITS, c) == c as int - '0' as int
  {
    DigitCycle();
    hide FirstIndex;
    FirstInDistinct(DIGITS, c as int - '0' as int);
  }

  const DIGITS := "0123456789"

  lemma DigitCycle()
    ensures |DIGITS| == 10 && forall i :: 0 <= i < 10 ==> DIGITS[i] == ('0' as int + i) as char
    ensures Distinct(DIGITS)
  {
    assert DIGITS == seq(10, i requires 0 <= i < 10 => ('0' as int + i) as char);
  }

  function Toggled(c: char): char { if c == '-' then '+' else '-' }

  function Stepped(f: EditField, m: Numeric, up: bool): EditField
    requires f.pos < |f.buf|
  {
    if f.pos >= MaxLength(m) then Full(f)
    else if Signed(m) && f.pos == 0 then Written(f, Toggled(f.buf[0]))
    else Written(f, if up then DigitUp(f.buf[f.pos]) else DigitDown(f.buf[f.pos]))
  }

  /** The cursor stays within the longest number of the range. */
  predicate SoundNumeric(f: EditField, value: int, m: Numeric, width: nat) {
    && IsNumeric(m) && IsInt(value) && |f.buf| == MAX_NUMERIC_LEN
    && SoundField(f, MAX_NUMERIC_LEN - 1, width) && f.pos <= MaxLength(m)
  }

  function PressNumeric(f: EditField, value: int, m: Numeric, width: nat, extended: bool, token: Token)
    : (EditField, int, Answer)
    requires SoundNumeric(f, value, m, width)
  {
    var f := f.(error := 0);
    match token
    case MenuKey =>
      if f.pos == 0 then (f, value, Done(ToPredecessor))
      else (Loaded(Formatted(m, value), MAX_NUMERIC_LEN), value, Done(Stay))
    case EnterKey =>
      if extended || f.buf[f.pos] == NUL then
        TextEnds(f, MAX_NUMERIC_LEN - 1, width);
        match Scan(CString(f.buf)) {
          case None => (f, value, Failed)
          case Some(v) =>
            if v < m.min || v > m.max then (f.(pos := 0, offs := 0, error := 1), value, Done(Stay))
            else (f, v, Done(ToSuccessor))
        }
      else (if f.pos < MaxLength(m) then Right(f, width) else f, value, Done(Stay))
    case UpKey => (Stepped(f, m, true), value, Done(Stay))
    case DownKey => (Stepped(f, m, false), value, Done(Stay))
    case RightKey => (if f.buf[f.pos] != NUL && f.pos < MaxLength(m) then Right(f, width) else f, value, Done(Stay))
    case LeftKey => (Left(f), value, Done(Stay))
    case OtherKey(key) =>
      (if f.pos >= MaxLength(m) then Full(f)
       else if |key| == 1 && IsDigit(key[0]) then Right(Written(f, key[0]), width)
       else f, value, Done(Stay))
  }

  /**
    Every key keeps the field sound and the cursor within the longest number; only a number in range
    becomes the value.
   */
  lemma {:induction false} PressNumericKeeps(f: EditField, value: int, m: Numeric, width: nat, extended: bool,
    token: Token)
    requires SoundNumeric(f, value, m, width) && width >= 2
    ensures var r := PressNumeric(f, value, m, width, extended, token);
      && SoundNumeric(r.0, r.1, m, width)
      && (r.2 == Done(ToSuccessor) ==> m.min <= r.1 <= m.max && Scan(CString(f.buf)) == Some(r.1))
      && (r.2 != Done(ToSuccessor) ==> r.1 == value)
  {
    hide CString;
    hide Scan;
    hide Formatted;
    hide MaxLength;
    hide FirstIndex;
    hide Signed;
    LengthFits(m);
    FormattedFits(m, value);
    TextEnds(f, MAX_NUMERIC_LEN - 1, width);
  }

  // ----- whole runs -----------------------------------------------------------------------------------------

  function RunAlpha(f: EditField, value: string, a: Alpha, width: nat, extended: bool, tokens: seq<Token>)
    : (EditField, string)
    requires IsAlpha(a) && SoundField(f, a.maxlen, width) && width >= 2 && |value| <= a.maxlen
    decreases |tokens|
  {
    if tokens == [] then (f, value)
    else
      PressAlphaKeeps(f, value, a, width, extended, tokens[0]);
      var r := PressAlpha(f, value, a, width, extended, tokens[0]);
      RunAlpha(r.0, r.1, a, width, extended, tokens[1..])
  }

  /** After any keys the field is sound, and a value that changed has an allowed length. */
  lemma {:induction false} RunAlphaKeeps(f: EditField, value: string, a: Alpha, width: nat, extended: bool,
    tokens: seq<Token>)
    requires IsAlpha(a) && SoundField(f, a.maxlen, width) && width >= 2 && |value| <= a.maxlen
    ensures var r := RunAlpha(f, value, a, width, extended, tokens);
      SoundField(r.0, a.maxlen, width) && (r.1 == value || a.minlen <= |r.1| <= a.maxlen)
    decreases |tokens|
  {
    hide PressAlpha;
    hide SoundField;
    if tokens != [] {
      PressAlphaKeeps(f, value, a, width, extended, tokens[0]);
      var r := PressAlpha(f, value, a, width, extended, tokens[0]);
      RunAlphaKeeps(r.0, r.1, a, width, extended, tokens[1..]);
    }
  }

  function RunNumeric(f: EditField, value: int, m: Numeric, width: nat, extended: bool, tokens: seq<Token>)
    : (EditField, int)
    requires SoundNumeric(f, value, m, width) && width >= 2
    decreases |tokens|
  {
    if tokens == [] then (f, value)
    else
      PressNumericKeeps(f, value, m, width, extended, tokens[0]);
      var r := PressNumeric(f, value, m, width, extended, tokens[0]);
      RunNumeric(r.0, r.1, m, width, extended, tokens[1..])
  }

  /** After any keys the field is sound, and a value that changed is in range. */
  lemma {:induction false} RunNumericKeeps(f: EditField, value: int, m: Numeric, width: nat, extended: bool,
    tokens: seq<Token>)
    requires SoundNumeric(f, value, m, width) && width >= 2
    ensures var r := RunNumeric(f, value, m, width, extended, tokens);
      SoundNumeric(r.0, r.1, m, width) && (r.1 == value || m.min <= r.1 <= m.max)
    decreases |tokens|
  {
    hide PressNumeric;
    hide SoundNumeric;
    if tokens != [] {
      PressNumericKeeps(f, value, m, width, extended, tokens[0]);
      var r := PressNumeric(f, value, m, width, extended, tokens[0]);
      RunNumericKeeps(r.0, r.1, m, width, extended, tokens[1..]);
    }
  }
}
