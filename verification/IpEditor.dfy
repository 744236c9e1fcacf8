/**
  The IP address item of the menu, edited key by key in a fixed buffer behind a scrolling window.
 */
module IpEditor {
  import opened Common
  import opened Numbers
  import opened Snprintf
  import opened IpText

  datatype Token = MenuKey | EnterKey | UpKey | DownKey | LeftKey | RightKey | OtherKey(key: string)

  datatype Outcome = Stay | ToPredecessor | ToSuccessor

  /** value is the committed address, text the one being edited; the window shows text from offs on. */
  datatype Edit = Edit(value: string, text: string, pos: nat, offs: nat, error: nat)

  function GroupCount(p: Info): nat { (p.maxlen + 1) / (p.width + 1) }

  predicate IsIp(p: Info) { p == IPV4 || p == IPV6 }

  function Separators(s: string, sep: char): nat
    decreases |s|
  {
    var k := FirstIndex(s, sep);
    if k < |s| then 1 + Separators(s[k + 1..], sep) else 0
  }

  /** Every group starts with an unsigned number that fits its width; an empty group counts as zero. */
  predicate NumbersFit(s: string, p: Info)
    decreases |s|
  {
    var k := FirstIndex(s, p.sep);
    IsUnsigned(s) && Strtol(s, p.base) < Power(p.base, p.width) && (k < |s| ==> NumbersFit(s[k + 1..], p))
  }

  /** The values that reset turns into an edit text: see ResettableIff. */
  predicate Resettable(s: string, p: Info)
    requires IsIp(p)
  {
    NumbersFit(s, p) && Separators(s, p.sep) + 1 == GroupCount(p)
  }

  /** What every key keeps; width is the width of the display. */
  predicate Sound(e: Edit, p: Info, width: nat)
    requires IsIp(p)
  {
    && Resettable(e.value, p)
    && |e.text| == p.maxlen && WellFormed(e.text, p)
    && e.pos < p.maxlen && e.pos % (p.width + 1) != p.width
    && e.offs <= e.pos && e.pos - e.offs <= width - 2
  }

  // ----- one key --------------------------------------------------------------------------------------

  function ResetEdit(e: Edit, p: Info): Edit
    requires IsIp(p)
  {
    e.(text := PadAll(e.value, p), pos := 0, offs := 0)
  }

  /** One digit to the right, over a separator. */
  function MovedRight(e: Edit, p: Info, width: nat): Edit
    requires width >= 2 && e.pos + 1 < |e.text|
  {
    var pos := if e.text[e.pos + 1] == p.sep then e.pos + 2 else e.pos + 1;
    e.(pos := pos, offs := Max(e.offs, pos - (width - 2)))
  }

  function MovedLeft(e: Edit, p: Info): Edit
    requires 0 < e.pos <= |e.text|
  {
    var pos := if e.text[e.pos - 1] == p.sep && e.pos > 1 then e.pos - 2 else e.pos - 1;
    e.(pos := pos, offs := if e.offs > pos then pos else e.offs)
  }

  function GroupStart(p: Info, pos: nat): nat { pos - pos % (p.width + 1) }

  function PlaceValue(p: Info, pos: nat): nat
    requires IsIp(p)
  {
    p.posValue[(pos - pos / (p.width + 1)) % p.width]
  }

  function Raised(n: nat, step: nat, limit: nat): nat { if n + step > limit then 0 else n + step }

  function Lowered(n: nat, step: nat, limit: nat): nat { if n < step then limit else n - step }

  function WithGroup(text: string, p: Info, start: nat, n: nat): string
    requires IsIp(p) && start + p.width <= |text|
  {
    text[..start] + Padded(n, p.width, p.base) + text[start + p.width..]
  }

  function Bumped(e: Edit, p: Info, up: bool): Edit
    requires IsIp(p) && GroupStart(p, e.pos) + p.width <= |e.text|
  {
    var start := GroupStart(p, e.pos);
    var n := Strtol(e.text[start..], p.base);
    var step := PlaceValue(p, e.pos);
    e.(text := WithGroup(e.text, p, start, if up then Raised(n, step, p.limit) else Lowered(n, step, p.limit)))
  }

  predicate Types(p: Info, key: string) {
    |key| == 1 && IsPrintedDigit(Lower(key[0]), p.base)
  }

  function Typed(e: Edit, p: Info, width: nat, key: string): Edit
    requires width >= 2 && |e.text| == p.maxlen && e.pos < p.maxlen && Types(p, key)
  {
    var f := e.(text := e.text[e.pos := Lower(key[0])]);
    if e.pos + 1 < p.maxlen then MovedRight(f, p, width) else f
  }

  /** ENTER on the last digit, or on any with the extended keys. */
  function Committed(e: Edit, p: Info, verify: string -> bool): (Edit, Outcome) {
    var stripped := StripAll(e.text, p.sep);
    if verify(stripped) then (e.(value := stripped), ToSuccessor) else (e.(error := 4), Stay)
  }

  function Press(e: Edit, p: Info, width: nat, verify: string -> bool, extended: bool, token: Token): (Edit, Outcome)
    requires IsIp(p) && width >= 2 && Sound(e, p, width)
  {
    var e := e.(error := 0);
    InGroup(p, e.pos);
    match token
    case MenuKey => if e.pos == 0 then (e, ToPredecessor) else (ResetEdit(e, p), Stay)
    case EnterKey =>
      if extended || e.pos >= p.maxlen - 1 then Committed(e, p, verify) else (MovedRight(e, p, width), Stay)
    case UpKey => (Bumped(e, p, true), Stay)
    case DownKey => (Bumped(e, p, false), Stay)
    case RightKey => (if e.pos < p.maxlen - 1 then MovedRight(e, p, width) else e, Stay)
    case LeftKey => (if e.pos > 0 then MovedLeft(e, p) else e, Stay)
    case OtherKey(key) => (if Types(p, key) then Typed(e, p, width, key) else e, Stay)
  }

  function PressAll(e: Edit, p: Info, width: nat, verify: string -> bool, extended: bool, tokens: seq<Token>): Edit
    requires IsIp(p) && width >= 2 && Sound(e, p, width)
    decreases |tokens|
  {
    if tokens == [] then e
    else
      PressKeeps(e, p, width, verify, extended, tokens[0]);
      PressAll(Press(e, p, width, verify, extended, tokens[0]).0, p, width, verify, extended, tokens[1..])
  }

  // ----- positions ------------------------------------------------------------------------------------

  /** A position on a digit, by group and place in the group. */
  lemma InGroup(p: Info, pos: nat)
    requires IsIp(p) && pos < p.maxlen
    ensures GroupStart(p, pos) + p.width <= p.maxlen && GroupStart(p, pos) % (p.width + 1) == 0
    ensures pos == GroupStart(p, pos) + pos % (p.width + 1)
  {
  }

  lemma PlaceIndex(pos: nat, w: nat)
    requires w in {3, 4} && pos % (w + 1) != w
    ensures pos - pos / (w + 1) >= 0 && (pos - pos / (w + 1)) % w == pos % (w + 1)
  {
    var q, r := pos / (w + 1), pos % (w + 1);
    assert pos - q == q * w + r && r < w;
  }

  lemma TableIsPowers(p: Info, r: nat)
    requires IsIp(p) && r < p.width
    ensures r < |p.posValue| && p.posValue[r] == Power(p.base, p.width - 1 - r)
  {
    assert Power(p.base, 1) == p.base && Power(p.base, 2) == p.base * p.base;
    if p == IPV6 && r == 0 {
      assert Power(16, 3) == 16 * Power(16, 2);
    }
  }

  /** The table entry that UP and DOWN pick is the place value of the digit under the cursor. */
  lemma PlaceValueIsPower(p: Info, pos: nat)
    requires IsIp(p) && pos % (p.width + 1) != p.width
    ensures PlaceValue(p, pos) == Power(p.base, p.width - 1 - pos % (p.width + 1))
  {
    hide Power;
    PlaceIndex(pos, p.width);
    TableIsPowers(p, pos % (p.width + 1));
  }

  lemma PlaceIs(p: Info, text: string, i: nat)
    requires IsIp(p) && |text| == p.maxlen && WellFormed(text, p) && i < p.maxlen
    ensures text[i] == p.sep <==> i % (p.width + 1) == p.width
  {
    assert InPlace(text[i], i, p);
  }

  /** Next to a digit there is a digit, or a separator with a digit behind it. */
  lemma Neighbours(p: Info, pos: nat)
    requires IsIp(p) && pos < p.maxlen && pos % (p.width + 1) != p.width
    ensures pos + 1 < p.maxlen && (pos + 1) % (p.width + 1) == p.width ==>
      pos + 2 < p.maxlen && (pos + 2) % (p.width + 1) != p.width
    ensures pos > 0 && (pos - 1) % (p.width + 1) == p.width ==> pos > 1 && (pos - 2) % (p.width + 1) != p.width
  {
  }

  // ----- numbers of groups ----------------------------------------------------------------------------

  lemma {:induction false} NumberOfZeros(k: nat, g: string, base: nat)
    ensures Number(Repeat('0', k) + g, base) == Number(g, base)
    decreases |g| + k
  {
    var s := Repeat('0', k) + g;
    if g != "" {
      NumberOfZeros(k, g[..|g| - 1], base);
      assert s[..|s| - 1] == Repeat('0', k) + g[..|g| - 1];
    } else if k > 0 {
      NumberOfZeros(k - 1, g, base);
      assert s[..|s| - 1] == Repeat('0', k - 1) + g;
    }
  }

  /** A number printed in full width fills the width and reads back. */
  lemma NumberOfPadded(n: nat, width: nat, base: nat)
    requires base in {10, 16} && width > 0 && n < Power(base, width)
    ensures var t := Padded(n, width, base);
      |t| == width && AllPrinted(t, base) && Number(t, base) == n
  {
    hide Digits;
    hide Number;
    hide Power;
    FewDigits(n, base, width);
    NumberOfDigits(n, base);
    var d := Digits(n, base, false);
    NumberOfZeros(width - |d|, d, base);
  }

  lemma Limits(p: Info)
    requires IsIp(p)
    ensures p.limit < Power(p.base, p.width)
  {
    assert Power(p.base, 2) == p.base * p.base;
    assert Power(p.base, 3) == p.base * p.base * p.base;
  }

  /** The group at a start as a number, and its width in front of the rest of the text. */
  lemma {:induction false} GroupNumber(text: string, p: Info, start: nat)
    requires IsIp(p) && |text| == p.maxlen && WellFormed(text, p) && start % (p.width + 1) == 0
    requires start + p.width <= |text|
    ensures AllPrinted(text[start..start + p.width], p.base) && AllDigits(text[start..start + p.width], p.base)
    ensures Strtol(text[start..], p.base) == Number(text[start..start + p.width], p.base) < Power(p.base, p.width)
  {
    hide Number;
    var g, rest := text[start..start + p.width], text[start + p.width..];
    forall i | 0 <= i < |g| ensures IsPrintedDigit(g[i], p.base) {
      assert InPlace(text[start + i], start + i, p);
      PlaceInGroup(start, i, p);
    }
    if rest != "" {
      assert InPlace(text[start + p.width], start + p.width, p);
      PlaceInGroup(start, p.width, p);
      assert rest[0] == p.sep;
    }
    FirstGroup(g, rest, p);
    assert text[start..] == g + rest;
    NumberBound(g, p.base);
  }

  lemma PlaceInGroup(start: nat, i: nat, p: Info)
    requires IsIp(p) && start % (p.width + 1) == 0 && i <= p.width
    ensures (start + i) % (p.width + 1) == i
  {
  }

  /** Writing a number in a group changes that group to it and nothing else, and keeps the text well formed. */
  lemma WithGroupIs(text: string, p: Info, start: nat, n: nat)
    requires IsIp(p) && |text| == p.maxlen && WellFormed(text, p) && start % (p.width + 1) == 0
    requires start + p.width <= |text| && n < Power(p.base, p.width)
    ensures var t := WithGroup(text, p, start, n);
      && |t| == |text| && WellFormed(t, p)
      && t[..start] == text[..start] && t[start + p.width..] == text[start + p.width..]
      && Strtol(t[start..], p.base) == n
      && t[start..start + p.width] == Padded(n, p.width, p.base)
  {
    hide Number;
    hide Padded;
    hide InPlace;
    hide Power;
    hide Strtol;
    NumberOfPadded(n, p.width, p.base);
    var g := Padded(n, p.width, p.base);
    var t := WithGroup(text, p, start, n);
    assert t[start..start + p.width] == g;
    forall i | 0 <= i < |t| ensures InPlace(t[i], i, p) {
      if start <= i < start + p.width {
        assert t[i] == g[i - start];
        PlaceInGroup(start, i - start, p);
        DigitInPlace(g[i - start], i, p);
      } else {
        assert t[i] == text[i];
      }
    }
    GroupNumber(t, p, start);
  }

  lemma DigitInPlace(c: char, i: nat, p: Info)
    requires IsPrintedDigit(c, p.base) && i % (p.width + 1) != p.width
    ensures InPlace(c, i, p)
  {
  }

  // ----- every key ------------------------------------------------------------------------------------

  lemma MovesKeep(e: Edit, p: Info, width: nat)
    requires IsIp(p) && width >= 2 && Sound(e, p, width)
    ensures e.pos < p.maxlen - 1 ==> Sound(MovedRight(e, p, width), p, width)
    ensures e.pos > 0 ==> Sound(MovedLeft(e, p), p, width)
  {
    hide Resettable;
    hide WellFormed;
    Neighbours(p, e.pos);
    if e.pos < p.maxlen - 1 {
      PlaceIs(p, e.text, e.pos + 1);
    }
    if e.pos > 0 {
      PlaceIs(p, e.text, e.pos - 1);
    }
  }

  /** The number that UP or DOWN puts in a group. */
  function NextNumber(n: nat, p: Info, pos: nat, up: bool): nat
    requires IsIp(p)
  {
    if up then Raised(n, PlaceValue(p, pos), p.limit) else Lowered(n, PlaceValue(p, pos), p.limit)
  }

  /**
    UP and DOWN add or subtract the place value of the digit under the cursor, wrapping at the limit and
    at zero; the rest of the text, the cursor and the value stay.
   */
  lemma BumpIs(e: Edit, p: Info, width: nat, up: bool)
    requires IsIp(p) && width >= 2 && Sound(e, p, width)
    requires GroupStart(p, e.pos) + p.width <= |e.text|
    ensures Sound(Bumped(e, p, up), p, width)
    ensures var start := GroupStart(p, e.pos);
      var n := Number(e.text[start..start + p.width], p.base);
      var step := Power(p.base, p.width - 1 - e.pos % (p.width + 1));
      && Bumped(e, p, up) ==
        e.(text := WithGroup(e.text, p, start, if up then Raised(n, step, p.limit) else Lowered(n, step, p.limit)))
      && Strtol(Bumped(e, p, up).text[start..], p.base) ==
        (if up then Raised(n, step, p.limit) else Lowered(n, step, p.limit))
      && Bumped(e, p, up).text[..start] == e.text[..start]
      && Bumped(e, p, up).text[start + p.width..] == e.text[start + p.width..]
  {
    hide Resettable;
    hide WellFormed;
    hide Padded;
    hide Strtol;
    hide Power;
    hide PlaceValue;
    hide WithGroup;
    var start := GroupStart(p, e.pos);
    InGroup(p, e.pos);
    PlaceValueIsPower(p, e.pos);
    GroupNumber(e.text, p, start);
    Limits(p);
    WithGroupIs(e.text, p, start, NextNumber(Strtol(e.text[start..], p.base), p, e.pos, up));
  }

  /** DOWN takes UP back exactly when UP did not wrap, or wrapped from the limit itself. */
  lemma DownUndoesUp(e: Edit, p: Info, width: nat)
    requires IsIp(p) && width >= 2 && Sound(e, p, width)
    requires GroupStart(p, e.pos) + p.width <= |e.text|
    ensures var start := GroupStart(p, e.pos);
      var n := Number(e.text[start..start + p.width], p.base);
      GroupStart(p, Bumped(e, p, true).pos) + p.width <= |Bumped(e, p, true).text| &&
      (Bumped(Bumped(e, p, true), p, false) == e <==> n + PlaceValue(p, e.pos) <= p.limit || n == p.limit)
  {
    hide Resettable;
    hide WellFormed;
    hide Padded;
    hide Strtol;
    hide Power;
    hide PlaceValue;
    hide WithGroup;
    hide Number;
    var start := GroupStart(p, e.pos);
    var g := e.text[start..start + p.width];
    var n, step := Number(g, p.base), PlaceValue(p, e.pos);
    var f := Bumped(e, p, true);
    InGroup(p, e.pos);
    PlaceValueIsPower(p, e.pos);
    PlaceValuePositive(p, e.pos);
    GroupNumber(e.text, p, start);
    BumpIs(e, p, width, true);
    BumpIs(f, p, width, false);
    GroupNumber(f.text, p, start);
    Limits(p);
    var n1 := Raised(n, step, p.limit);
    var n2 := Lowered(n1, step, p.limit);
    var h := Bumped(f, p, false);
    assert Strtol(h.text[start..], p.base) == n2;
    if n2 == n {
      PrintedBack(e.text, p, start);
      WithGroupTwice(e.text, p, start, n1, n);
      assert h.text == e.text;
    } else {
      assert h.text != e.text;
    }
  }

  lemma PlaceValuePositive(p: Info, pos: nat)
    requires IsIp(p)
    ensures 0 < PlaceValue(p, pos) <= p.limit
  {
  }

  /** Printing the number of a group gives the group. */
  lemma PrintedBack(text: string, p: Info, start: nat)
    requires IsIp(p) && |text| == p.maxlen && WellFormed(text, p) && start % (p.width + 1) == 0
    requires start + p.width <= |text|
    ensures WithGroup(text, p, start, Number(text[start..start + p.width], p.base)) == text
  {
    IpBases(p);
    hide Number;
    hide Padded;
    hide WellFormed;
    hide IsIp;
    hide WithGroup;
    hide Power;
    hide Strtol;
    hide Repeat;
    hide AllDigits;
    hide AllPrinted;
    hide LowerCase;
    var g := text[start..start + p.width];
    GroupNumber(text, p, start);
    PaddedNumber(g, p.width, p.base);
    PrintedIsLower(g, p.base);
    NoZeros(g);
    WithGroupUnfolds(text, p, start, Number(g, p.base));
    hide *;
    Sliced(text, start, start + p.width);
  }

  lemma NoZeros(g: string)
    ensures Repeat('0', 0) + g == g
  {
  }

  lemma WithGroupUnfolds(text: string, p: Info, start: nat, n: nat)
    requires IsIp(p) && start + p.width <= |text|
    ensures WithGroup(text, p, start, n) == text[..start] + Padded(n, p.width, p.base) + text[start + p.width..]
  {
  }

  lemma Sliced(s: string, i: nat, j: nat)
    requires i <= j <= |s|
    ensures s[..i] + s[i..j] + s[j..] == s
  {
  }

  lemma WithGroupTwice(text: string, p: Info, start: nat, n: nat, m: nat)
    requires IsIp(p) && |text| == p.maxlen && WellFormed(text, p) && start % (p.width + 1) == 0
    requires start + p.width <= |text| && n < Power(p.base, p.width)
    ensures start + p.width <= |WithGroup(text, p, start, n)|
    ensures WithGroup(WithGroup(text, p, start, n), p, start, m) == WithGroup(text, p, start, m)
  {
    hide Padded;
    hide WellFormed;
    hide Power;
    WithGroupIs(text, p, start, n);
  }

  lemma TypedKeeps(e: Edit, p: Info, width: nat, key: string)
    requires IsIp(p) && width >= 2 && Sound(e, p, width) && Types(p, key)
    ensures Sound(Typed(e, p, width, key), p, width)
  {
    hide Resettable;
    var f := e.(text := e.text[e.pos := Lower(key[0])]);
    assert WellFormed(f.text, p) by {
      hide InPlace;
      DigitInPlace(Lower(key[0]), e.pos, p);
      assert forall i :: 0 <= i < |f.text| && i != e.pos ==> f.text[i] == e.text[i];
    }
    MovesKeep(f, p, width);
  }

  // ----- resetting --------------------------------------------------------------------------------------

  lemma FullLength(s: string, p: Info, n: nat)
    requires FullGroups(s, p, n)
    ensures n > 0 && |s| == n * (p.width + 1) - 1
  {
  }

  lemma {:induction false} PadUnfolds(s: string, p: Info)
    requires p.base in {10, 16}
    ensures var k := FirstIndex(s, p.sep);
      var t := Padded(Strtol(s, p.base), p.width, p.base);
      PadAll(s, p) == if k < |s| then t + ([p.sep] + PadAll(s[k + 1..], p)) else t
  {
    hide Padded;
    hide Strtol;
    hide FirstIndex;
    hide DigitCount;
    hide Number;
    hide AllDigits;
    hide AllPrinted;
    hide Digits;
    hide Repeat;
    hide IsBaseDigit;
    hide IsUnsigned;
    if FirstIndex(s, p.sep) == |s| {
      AppendNothing(Padded(Strtol(s, p.base), p.width, p.base));
    }
  }

  lemma {:induction false} FitUnfolds(s: string, p: Info)
    requires NumbersFit(s, p)
    ensures var k := FirstIndex(s, p.sep);
      && Strtol(s, p.base) < Power(p.base, p.width)
      && (if k < |s| then NumbersFit(s[k + 1..], p) && Separators(s, p.sep) == Separators(s[k + 1..], p.sep) + 1
          else Separators(s, p.sep) == 0)
  {
    hide Strtol;
    hide Power;
    hide FirstIndex;
    hide IsUnsigned;
  }

  /** Reset prints one full group for every group of the value. */
  lemma {:induction false} PadFillsGroups(s: string, p: Info)
    requires IsIp(p) && NumbersFit(s, p)
    ensures FullGroups(PadAll(s, p), p, Separators(s, p.sep) + 1)
    decreases |s|
  {
    hide *;
    IpBases(p);
    var k := FirstIndex(s, p.sep);
    var t := Padded(Strtol(s, p.base), p.width, p.base);
    PadUnfolds(s, p);
    FitUnfolds(s, p);
    NumberOfPadded(Strtol(s, p.base), p.width, p.base);
    if k < |s| {
      PadFillsGroups(s[k + 1..], p);
      FullStep(t, PadAll(s[k + 1..], p), p, Separators(s[k + 1..], p.sep) + 1);
    } else {
      OneFullGroup(t, p);
    }
  }

  lemma IpBases(p: Info)
    requires IsIp(p)
    ensures p.base in {10, 16} && p.width in {3, 4} && IsInfo(p) && p.maxlen == GroupCount(p) * (p.width + 1) - 1
  {
  }

  /**
    Reset makes a sound edit text exactly of the values with as many groups as the item has.  A compressed
    IPv6 address passes the check of the item and need not have them.
   */
  lemma {:induction false} ResettableIff(e: Edit, p: Info, width: nat)
    requires IsIp(p) && width >= 2 && NumbersFit(e.value, p)
    ensures Sound(ResetEdit(e, p), p, width) <==> Separators(e.value, p.sep) + 1 == GroupCount(p)
  {
    hide NumbersFit;
    hide Separators;
    hide WellFormed;
    hide PadAll;
    hide FullGroups;
    var text, n := PadAll(e.value, p), Separators(e.value, p.sep) + 1;
    PadFillsGroups(e.value, p);
    FullLength(text, p, n);
    FullIsWellFormed(text, p, n);
  }

  /** The loopback address in compressed form gives an edit text that is too short. */
  lemma CompressedIsShort(e: Edit, width: nat)
    requires width >= 2 && e.value == "::1"
    ensures NumbersFit(e.value, IPV6) && |ResetEdit(e, IPV6).text| == 14 && !Sound(ResetEdit(e, IPV6), IPV6, width)
  {
    var p := IPV6;
    CompressedFits();
    CompressedGroups(e);
    hide *;
    PadFillsGroups("::1", p);
    FullLength(PadAll("::1", p), p, 3);
    ResettableIff(e, p, width);
  }

  lemma CompressedFits()
    ensures IsIp(IPV6) && IPV6.width == 4 && IPV6.base == 16 && NumbersFit("::1", IPV6)
      && Separators("::1", IPV6.sep) == 2
  {
    var p := IPV6;
    FirstSeparators();
    SmallNumbers();
    Powers16();
    hide Strtol;
    hide FirstIndex;
    hide Power;
    assert NumbersFit("1", p) && Separators("1", ':') == 0;
    assert NumbersFit(":1", p) && Separators(":1", ':') == 1;
  }

  lemma FirstSeparators()
    ensures FirstIndex("::1", ':') == 0 && FirstIndex(":1", ':') == 0 && FirstIndex("1", ':') == 1
    ensures "::1"[1..] == ":1" && ":1"[1..] == "1"
  {
    assert "1"[1..] == "";
  }

  lemma CompressedGroups(e: Edit)
    ensures GroupCount(IPV6) == 8 && ResetEdit(e, IPV6).text == PadAll(e.value, IPV6)
  {
  }

  lemma Powers16()
    ensures Power(16, 4) == 65536
  {
    assert Power(16, 2) == 256;
  }

  lemma SmallNumbers()
    ensures Strtol("::1", 16) == 0 && Strtol(":1", 16) == 0 && Strtol("1", 16) == 1
  {
    assert DigitCount("1", 16) == 1 && "1"[..1] == "1" && "1"[..0] == "";
    assert Number("1", 16) == Number("", 16) * 16 + DigitValue('1');
  }

  /** An address of full groups can be reset. */
  lemma {:induction false} GroupsAreResettable(s: string, p: Info, n: nat)
    requires IsIp(p) && Groups(s, p, n)
    ensures NumbersFit(s, p) && Separators(s, p.sep) + 1 == n
    decreases n
  {
    hide IsIp;
    IpBases(p);
    FirstNumberFits(s, p, n);
    GroupsUnfold(s, p, n);
    hide IsUnsigned;
    hide Power;
    hide Strtol;
    hide FirstIndex;
    hide Groups;
    var k := FirstIndex(s, p.sep);
    if n > 1 {
      GroupsAreResettable(s[k + 1..], p, n - 1);
    }
  }

  lemma {:induction false} FirstNumberFits(s: string, p: Info, n: nat)
    requires IsIp(p) && Groups(s, p, n)
    ensures IsUnsigned(s) && Strtol(s, p.base) < Power(p.base, p.width)
  {
    IpBases(p);
    hide *;
    var g, rest := FirstOfGroups(s, p, n);
    NumberBound(g, p.base);
    PowerGrows(p.base, |g|, p.width);
    var tail := if n == 1 then "" else [p.sep] + rest;
    assert s == g + tail by { AppendNothing(g); }
    FirstGroup(g, tail, p);
    DigitsAreUnsigned(g, tail, p);
  }

  lemma DigitsAreUnsigned(g: string, tail: string, p: Info)
    requires IsInfo(p) && g != "" && AllDigits(g, p.base) && (tail != "" ==> tail[0] == p.sep)
    ensures IsUnsigned(g + tail)
  {
    var s := g + tail;
    assert s[0] == g[0];
    if |s| > 1 {
      assert s[1] == if |g| > 1 then g[1] else tail[0];
    }
  }

  /** Groups with a separator between each two. */
  function Joined(groups: seq<string>, sep: char): string
    requires groups != []
  {
    if |groups| == 1 then groups[0] else groups[0] + ([sep] + Joined(groups[1..], sep))
  }

  predicate IsCanonicalGroup(g: string, p: Info) {
    0 < |g| <= p.width && AllDigits(g, p.base) && StripZeros(g) == g
  }

  lemma {:induction false} JoinedIsCanonical(groups: seq<string>, p: Info)
    requires IsInfo(p) && groups != [] && forall g :: g in groups ==> IsCanonicalGroup(g, p)
    ensures CanonicalGroups(Joined(groups, p.sep), p, |groups|)
    decreases |groups|
  {
    hide CanonicalGroups;
    hide StripZeros;
    hide AllDigits;
    assert groups[0] in groups;
    if |groups| == 1 {
      OneCanonical(groups[0], p);
    } else {
      JoinedIsCanonical(groups[1..], p);
      MoreCanonical(groups[0], Joined(groups[1..], p.sep), p, |groups| - 1);
    }
  }

  lemma {:induction false} JoinedHas(groups: seq<string>, sep: char, g: string, c: char)
    requires g in groups && c in g
    ensures c in Joined(groups, sep)
    decreases |groups|
  {
    if |groups| > 1 && g != groups[0] {
      assert g in groups[1..];
      JoinedHas(groups[1..], sep, g, c);
    }
  }

  /** 1080:0:0:0:8:800:200C:417A, as in the server's own test menu. */
  const TEST_ADDRESS := ["1080", "0", "0", "0", "8", "800", "200C", "417A"]

  /** It comes back from an editor in lower case. */
  lemma UpperCaseIsLost()
    ensures var s := Joined(TEST_ADDRESS, IPV6.sep);
      && CanonicalGroups(s, IPV6, 8) && NumbersFit(s, IPV6)
      && StripAll(PadAll(s, IPV6), IPV6.sep) == LowerCase(s) != s
  {
    TestGroups();
    IpBases(IPV6);
    hide *;
    var s := Joined(TEST_ADDRESS, IPV6.sep);
    JoinedIsCanonical(TEST_ADDRESS, IPV6);
    JoinedHas(TEST_ADDRESS, IPV6.sep, "200C", 'C');
    UpperCaseIn(s, 'C');
    StripOfPad(s, IPV6, 8);
    StripOfPadIff(s, IPV6, 8);
    CanonicalIsGroups(s, IPV6, 8);
    GroupsAreResettable(s, IPV6, 8);
  }

  lemma UpperCaseIn(s: string, c: char)
    requires c in s && 'A' <= c <= 'Z'
    ensures HasUpperCase(s)
  {
  }

  lemma CanonicalIsGroups(s: string, p: Info, n: nat)
    requires CanonicalGroups(s, p, n)
    ensures Groups(s, p, n)
  {
  }

  lemma TestGroups()
    ensures IsIp(IPV6) && |TEST_ADDRESS| == 8 && "200C" in TEST_ADDRESS && 'C' in "200C"
    ensures forall g :: g in TEST_ADDRESS ==> IsCanonicalGroup(g, IPV6)
  {
    assert TEST_ADDRESS[6] == "200C" && "200C"[3] == 'C';
    ShortGroups();
  }

  lemma ShortGroups()
    ensures IsCanonicalGroup("1080", IPV6) && IsCanonicalGroup("0", IPV6) && IsCanonicalGroup("8", IPV6)
    ensures IsCanonicalGroup("800", IPV6) && IsCanonicalGroup("200C", IPV6) && IsCanonicalGroup("417A", IPV6)
  {
  }

  lemma {:induction false} CommitKeeps(e: Edit, p: Info, width: nat, verify: string -> bool)
    requires IsIp(p) && width >= 2 && Sound(e, p, width)
    ensures Sound(Committed(e, p, verify).0, p, width)
    ensures Groups(StripAll(e.text, p.sep), p, GroupCount(p)) && Canonical(StripAll(e.text, p.sep), p, GroupCount(p))
    ensures ResetEdit(Committed(e, p, verify).0, p).text == if verify(StripAll(e.text, p.sep)) then e.text
      else PadAll(e.value, p)
  {
    hide Groups;
    hide NumbersFit;
    hide Separators;
    hide Canonical;
    hide WellFormed;
    hide PadAll;
    hide StripAll;
    hide FullGroups;
    FullIsWellFormed(e.text, p, GroupCount(p));
    StripIsCanonical(e.text, p, GroupCount(p));
    GroupsAreResettable(StripAll(e.text, p.sep), p, GroupCount(p));
    PadOfStrip(e.text, p, GroupCount(p));
  }

  /** Every key keeps the edit text well formed, the cursor on a digit and the cursor in the window. */
  lemma PressKeeps(e: Edit, p: Info, width: nat, verify: string -> bool, extended: bool, token: Token)
    requires IsIp(p) && width >= 2 && Sound(e, p, width)
    ensures Sound(Press(e, p, width, verify, extended, token).0, p, width)
  {
    hide NumbersFit;
    hide Separators;
    hide WellFormed;
    hide Bumped;
    hide MovedLeft;
    hide MovedRight;
    hide Typed;
    hide ResetEdit;
    hide Committed;
    var e := e.(error := 0);
    InGroup(p, e.pos);
    MovesKeep(e, p, width);
    match token
    case MenuKey => ResettableIff(e, p, width);
    case EnterKey => CommitKeeps(e, p, width, verify);
    case UpKey => BumpIs(e, p, width, true);
    case DownKey => BumpIs(e, p, width, false);
    case OtherKey(key) => if Types(p, key) { TypedKeeps(e, p, width, key); }
    case _ =>
  }

  /** So does every sequence of keys. */
  lemma {:induction false} RunKeeps(e: Edit, p: Info, width: nat, verify: string -> bool, extended: bool,
    tokens: seq<Token>)
    requires IsIp(p) && width >= 2 && Sound(e, p, width)
    ensures Sound(PressAll(e, p, width, verify, extended, tokens), p, width)
    decreases |tokens|
  {
    hide Press;
    hide Sound;
    if tokens != [] {
      PressKeeps(e, p, width, verify, extended, tokens[0]);
      RunKeeps(Press(e, p, width, verify, extended, tokens[0]).0, p, width, verify, extended, tokens[1..]);
    }
  }
}
