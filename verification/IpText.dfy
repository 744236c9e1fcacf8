/**
  The two texts of an address in an IP menu item: the edit text, in which every group has all its
  digits, and the value, in which leading zeros are stripped.  They are IPv4 dotted decimal and the
  full form of section 2.2 (item 1) of RFC 4291.
 */
module IpText {
  import opened Common
  import opened Numbers
  import opened Snprintf

  datatype Info = Info(maxlen: nat, sep: char, base: nat, width: nat, limit: nat, posValue: seq<nat>)

  const IPV4 := Info(15, '.', 10, 3, 255, [100, 10, 1])
  const IPV6 := Info(39, ':', 16, 4, 65535, [4096, 256, 16, 1])

  // ----- groups -----------------------------------------------------------------------------------

  /** Leading zeros removed, but not the last digit. */
  function StripZeros(g: string): (r: string)
    ensures |r| <= |g| && (g != "" ==> r != "")
  {
    if |g| > 1 && g[0] == '0' then StripZeros(g[1..]) else g
  }

  /** printf with a zero-padded minimal width. */
  function Padded(n: nat, width: nat, base: nat): (r: string)
    requires base in {10, 16}
  {
    Repeat('0', width - |Digits(n, base, false)|) + Digits(n, base, false)
  }

  lemma {:induction false} StripAppend(g: string, c: char)
    requires g != ""
    ensures StripZeros(g + [c]) == if StripZeros(g) == "0" then [c] else StripZeros(g) + [c]
    decreases |g|
  {
    assert (g + [c])[1..] == g[1..] + [c];
    if |g| > 1 && g[0] == '0' {
      StripAppend(g[1..], c);
    } else if g == "0" {
      assert g + [c] == "0" + [c];
    }
  }

  /** The digits of a number read from digits are those digits in lower case, without leading zeros. */
  lemma {:induction false} DigitsOfNumber(g: string, base: nat)
    requires base in {10, 16} && g != "" && AllDigits(g, base)
    ensures Digits(Number(g, base), base, false) == LowerCase(StripZeros(g))
    decreases |g|
  {
    hide *;
    var n := |g| - 1;
    var h, c := g[..n], g[n];
    DigitsApart(g, base);
    DigitOfValue(c, base);
    var k := Number(h, base);
    DigitsAppend(k, DigitValue(c), base);
    LowerOne(c);
    if h == "" {
      StripOne(c);
    } else {
      DigitsOfNumber(h, base);
      StripAppend(h, c);
      ZeroDigits(k, base);
      LowerZero(StripZeros(h));
      LowerCaseOfBoth(StripZeros(h), [c]);
    }
  }

  lemma DigitsApart(g: string, base: nat)
    requires g != "" && AllDigits(g, base)
    ensures var n := |g| - 1; var h, c := g[..n], g[n];
      && g == h + [c] && (h == "" ==> g == [c] && Number(h, base) == 0)
      && AllDigits(h, base) && IsBaseDigit(c, base) && Number(g, base) == Number(h, base) * base + DigitValue(c)
  {
  }

  lemma DigitsAppend(k: nat, d: nat, base: nat)
    requires base in {10, 16} && d < base
    ensures Digits(k * base + d, base, false) == (if k == 0 then "" else Digits(k, base, false)) + [DigitChar(d, false)]
  {
    LastDigit(k, d, base);
    assert "" + [DigitChar(d, false)] == [DigitChar(d, false)];
  }

  lemma LowerOne(c: char)
    ensures LowerCase([c]) == [Lower(c)]
  {
  }

  lemma StripOne(c: char)
    ensures StripZeros([c]) == [c]
  {
  }

  lemma LowerZero(s: string)
    ensures LowerCase(s) == "0" <==> s == "0"
  {
    if LowerCase(s) == "0" {
      assert Lower(s[0]) == '0';
    }
  }

  lemma {:induction false} StripOfLower(g: string)
    ensures StripZeros(LowerCase(g)) == LowerCase(StripZeros(g))
    decreases |g|
  {
    if |g| > 1 && g[0] == '0' {
      StripOfLower(g[1..]);
      assert LowerCase(g)[1..] == LowerCase(g[1..]);
    } else if |g| > 1 {
      assert LowerCase(g)[0] == Lower(g[0]) != '0';
    }
  }

  lemma LowerZeros(n: nat)
    ensures LowerCase(Repeat('0', n)) == Repeat('0', n)
  {
  }

  lemma LastDigit(k: nat, d: nat, base: nat)
    requires base in {10, 16} && d < base
    ensures (k * base + d) / base == k && (k * base + d) % base == d
  {
  }

  lemma ZeroDigits(k: nat, base: nat)
    requires base in {10, 16}
    ensures Digits(k, base, false) == "0" <==> k == 0
  {
  }

  lemma {:induction false} ZerosBefore(g: string)
    requires g != ""
    ensures Repeat('0', |g| - |StripZeros(g)|) + StripZeros(g) == g
    decreases |g|
  {
    if |g| > 1 && g[0] == '0' {
      ZerosBefore(g[1..]);
      var n := |g| - |StripZeros(g)|;
      assert Repeat('0', n) == "0" + Repeat('0', n - 1);
    } else {
      assert Repeat('0', 0) + g == g;
    }
  }

  lemma ZerosAdd(a: nat, b: nat)
    ensures Repeat('0', a + b) == Repeat('0', a) + Repeat('0', b)
  {
  }

  /** Reading a group and printing it in full width puts zeros in front, and the digits in lower case. */
  lemma {:induction false} PaddedNumber(g: string, width: nat, base: nat)
    requires base in {10, 16} && 0 < |g| <= width && AllDigits(g, base)
    ensures Padded(Number(g, base), width, base) == Repeat('0', width - |g|) + LowerCase(g)
    ensures |Padded(Number(g, base), width, base)| == width
  {
    hide *;
    DigitsOfNumber(g, base);
    ZerosBefore(g);
    var a, b := width - |g|, |g| - |StripZeros(g)|;
    ZerosAdd(a, b);
    LowerZeros(b);
    LowerCaseOfBoth(Repeat('0', b), StripZeros(g));
    LowerLength(StripZeros(g));
    ThreePieces(Repeat('0', a), Repeat('0', b), LowerCase(StripZeros(g)));
    StripShortens(g);
    RepeatLength(a, LowerCase(g));
    LowerLength(g);
    PaddedIs(Number(g, base), width, base);
  }

  lemma LowerLength(s: string)
    ensures |LowerCase(s)| == |s|
  {
  }

  lemma StripShortens(g: string)
    ensures |StripZeros(g)| <= |g|
  {
  }

  lemma RepeatLength(n: nat, s: string)
    ensures |Repeat('0', n) + s| == n + |s|
  {
  }

  lemma PaddedIs(n: nat, width: nat, base: nat)
    requires base in {10, 16}
    ensures Padded(n, width, base) == Repeat('0', width - |Digits(n, base, false)|) + Digits(n, base, false)
  {
  }

  lemma {:induction false} StripOfPadded(zeros: nat, g: string)
    requires g != ""
    ensures StripZeros(Repeat('0', zeros) + g) == StripZeros(g)
    decreases zeros
  {
    if zeros == 0 {
      assert Repeat('0', 0) + g == g;
    } else {
      StripOfPadded(zeros - 1, g);
      assert (Repeat('0', zeros) + g)[1..] == Repeat('0', zeros - 1) + g;
    }
  }

  // ----- whole addresses ----------------------------------------------------------------------------

  /** What the strip loop leaves of a group: it skips blanks, and zeros that are not the last character. */
  function StripGroup(g: string): (r: string)
    ensures |r| <= |g|
  {
    if g != "" && (g[0] == ' ' || (g[0] == '0' && |g| > 1)) then StripGroup(g[1..]) else g
  }

  lemma {:induction false} StripDigits(g: string, base: nat)
    requires AllDigits(g, base)
    ensures StripGroup(g) == StripZeros(g)
    decreases |g|
  {
    if |g| > 1 && g[0] == '0' {
      StripDigits(g[1..], base);
    }
  }

  /** Strip every group. */
  function StripAll(s: string, sep: char): string
    decreases |s|
  {
    var k := FirstIndex(s, sep);
    StripGroup(s[..k]) + if k < |s| then [sep] + StripAll(s[k + 1..], sep) else ""
  }

  /** Print every group in full width. */
  function PadAll(s: string, p: Info): string
    requires p.base in {10, 16}
    decreases |s|
  {
    var k := FirstIndex(s, p.sep);
    Padded(Strtol(s, p.base), p.width, p.base) + if k < |s| then [p.sep] + PadAll(s[k + 1..], p) else ""
  }

  /** n groups of 1 to width digits, separated. */
  predicate Groups(s: string, p: Info, n: nat)
    decreases n
  {
    n > 0 &&
    var k := FirstIndex(s, p.sep);
    && 0 < k <= p.width && AllDigits(s[..k], p.base)
    && (if n == 1 then k == |s| else k < |s| && Groups(s[k + 1..], p, n - 1))
  }

  /** n groups of exactly width digits. */
  predicate FullGroups(s: string, p: Info, n: nat)
    decreases n
  {
    n > 0 && |s| == n * (p.width + 1) - 1 && AllPrinted(s[..p.width], p.base)
    && (n > 1 ==> s[p.width] == p.sep && FullGroups(s[p.width + 1..], p, n - 1))
  }

  /** No group has a superfluous leading zero. */
  predicate Canonical(s: string, p: Info, n: nat)
    requires Groups(s, p, n)
    decreases n
  {
    var k := FirstIndex(s, p.sep);
    StripZeros(s[..k]) == s[..k] && (n > 1 ==> Canonical(s[k + 1..], p, n - 1))
  }

  predicate IsInfo(p: Info) {
    p.base in {10, 16} && p.width > 0 && !IsBaseDigit(p.sep, p.base) && Lower(p.sep) == p.sep && p.sep != 'x'
  }

  /** The first group of a text, as both functions see it. */
  lemma FirstGroup(g: string, rest: string, p: Info)
    requires IsInfo(p) && AllDigits(g, p.base) && (rest != "" ==> rest[0] == p.sep)
    ensures FirstIndex(g + rest, p.sep) == |g| && (g + rest)[..|g|] == g
      && Strtol(g + rest, p.base) == Number(g, p.base)
    ensures rest != "" ==> (g + rest)[|g| + 1..] == rest[1..]
  {
    assert p.sep !in g;
    FirstIndexIs(g, rest, p.sep);
    DigitCountIs(g, rest, p.base);
    assert (g + rest)[..|g|] == g;
  }

  /** Both functions on a text of one group, and of a group and more. */
  lemma {:induction false} OneGroup(g: string, p: Info)
    requires IsInfo(p) && AllDigits(g, p.base)
    ensures StripAll(g, p.sep) == StripZeros(g) && PadAll(g, p) == Padded(Number(g, p.base), p.width, p.base)
  {
    hide Padded;
    hide Strtol;
    hide StripZeros;
    hide StripGroup;
    StripDigits(g, p.base);
    FirstGroup(g, "", p);
    assert g + "" == g && StripZeros(g) + "" == StripZeros(g);
    var t := Padded(Number(g, p.base), p.width, p.base);
    assert t + "" == t;
  }

  lemma {:induction false} MoreGroups(g: string, rest: string, p: Info)
    requires IsInfo(p) && AllDigits(g, p.base)
    ensures StripAll(g + ([p.sep] + rest), p.sep) == StripZeros(g) + ([p.sep] + StripAll(rest, p.sep))
    ensures PadAll(g + ([p.sep] + rest), p) == Padded(Number(g, p.base), p.width, p.base) + ([p.sep] + PadAll(rest, p))
  {
    hide Padded;
    hide Strtol;
    hide StripZeros;
    hide StripGroup;
    StripDigits(g, p.base);
    FirstGroup(g, [p.sep] + rest, p);
    assert ([p.sep] + rest)[1..] == rest;
  }

  /** Padding after stripping restores every edit text. */
  lemma {:induction false} PadOfStrip(s: string, p: Info, n: nat)
    requires IsInfo(p) && FullGroups(s, p, n)
    ensures PadAll(StripAll(s, p.sep), p) == s
    decreases n
  {
    hide PadAll;
    hide StripAll;
    hide Padded;
    hide StripZeros;
    hide Number;
    hide AllDigits;
    hide AllPrinted;
    hide IsInfo;
    var g, rest := s[..p.width], if n == 1 then "" else s[p.width + 1..];
    PadOfStrippedGroup(g, p);
    if n == 1 {
      assert s == g;
      OneGroup(g, p);
      OneGroup(StripZeros(g), p);
    } else {
      assert s == g + ([p.sep] + rest);
      PadOfStrip(rest, p, n - 1);
      MoreGroups(g, rest, p);
      MoreGroups(StripZeros(g), StripAll(rest, p.sep), p);
    }
  }

  lemma {:induction false} PadOfStrippedGroup(g: string, p: Info)
    requires IsInfo(p) && |g| == p.width && AllPrinted(g, p.base)
    ensures AllDigits(g, p.base) && AllDigits(StripZeros(g), p.base)
    ensures Padded(Number(StripZeros(g), p.base), p.width, p.base) == g
  {
    var t := StripZeros(g);
    InfoBase(p);
    hide *;
    StripKeepsPrinted(g, p.base);
    PrintedIsLower(g, p.base);
    PrintedIsLower(t, p.base);
    ZerosBefore(g);
    StripShortens(g);
    StripNotEmpty(g);
    PaddedNumber(t, p.width, p.base);
  }

  lemma StripNotEmpty(g: string)
    requires g != ""
    ensures StripZeros(g) != ""
  {
  }

  lemma {:induction false} StripKeepsPrinted(g: string, base: nat)
    requires AllPrinted(g, base)
    ensures AllPrinted(StripZeros(g), base)
    decreases |g|
  {
    if |g| > 1 && g[0] == '0' {
      StripKeepsPrinted(g[1..], base);
    }
  }

  lemma {:induction false} StripOfPaddedGroup(g: string, p: Info)
    requires IsInfo(p) && 0 < |g| <= p.width && AllDigits(g, p.base)
    ensures var t := Padded(Number(g, p.base), p.width, p.base);
      && |t| == p.width && AllPrinted(t, p.base) && AllDigits(t, p.base)
      && StripZeros(t) == LowerCase(StripZeros(g))
  {
    InfoBase(p);
    hide *;
    PaddedNumber(g, p.width, p.base);
    LowerIsPrinted(g, p.base);
    ZerosArePrinted(p.width - |g|, LowerCase(g), p.base);
    LowerLength(g);
    StripOfPadded(p.width - |g|, LowerCase(g));
    StripOfLower(g);
    PrintedIsLower(Padded(Number(g, p.base), p.width, p.base), p.base);
  }

  lemma ZerosArePrinted(n: nat, s: string, base: nat)
    requires AllPrinted(s, base)
    ensures AllPrinted(Repeat('0', n) + s, base)
  {
  }

  /** Stripping after padding restores every canonical address, in lower case. */
  lemma {:induction false} StripOfPad(s: string, p: Info, n: nat)
    requires IsInfo(p) && CanonicalGroups(s, p, n)
    ensures StripAll(PadAll(s, p), p.sep) == LowerCase(s)
    decreases n
  {
    InfoBase(p);
    hide *;
    var g, rest := FirstOfCanonical(s, p, n);
    StripOfPaddedGroup(g, p);
    var t := Padded(Number(g, p.base), p.width, p.base);
    if n == 1 {
      OneGroup(g, p);
      OneGroup(t, p);
    } else {
      StripOfPad(rest, p, n - 1);
      MoreGroups(g, rest, p);
      MoreGroups(t, PadAll(rest, p), p);
      LowerGroups(g, rest, p);
    }
  }

  lemma LowerGroups(g: string, rest: string, p: Info)
    requires IsInfo(p)
    ensures LowerCase(g + ([p.sep] + rest)) == LowerCase(g) + ([p.sep] + LowerCase(rest))
  {
    LowerCaseOfBoth(g, [p.sep] + rest);
    LowerCaseOfBoth([p.sep], rest);
    assert LowerCase([p.sep]) == [p.sep];
  }

  /** So it restores exactly the canonical addresses without a digit in upper case. */
  lemma StripOfPadIff(s: string, p: Info, n: nat)
    requires IsInfo(p) && CanonicalGroups(s, p, n)
    ensures StripAll(PadAll(s, p), p.sep) == s <==> !HasUpperCase(s)
  {
    hide *;
    StripOfPad(s, p, n);
    LowerCaseIff(s);
  }

  lemma {:induction false} FullStep(t: string, rest: string, p: Info, n: nat)
    requires FullGroups(rest, p, n) && |t| == p.width && AllPrinted(t, p.base)
    ensures FullGroups(t + ([p.sep] + rest), p, n + 1)
  {
    var r := t + ([p.sep] + rest);
    assert r[..p.width] == t && r[p.width + 1..] == rest;
  }

  lemma OneFullGroup(t: string, p: Info)
    requires |t| == p.width && AllPrinted(t, p.base)
    ensures FullGroups(t, p, 1)
  {
    assert t[..p.width] == t;
  }

  lemma {:induction false} GroupsUnfold(s: string, p: Info, n: nat)
    requires Groups(s, p, n)
    ensures var k := FirstIndex(s, p.sep);
      && n > 0 && 0 < k <= p.width && AllDigits(s[..k], p.base)
      && (if n == 1 then k == |s| && s == s[..k]
          else k < |s| && Groups(s[k + 1..], p, n - 1) && s == s[..k] + ([p.sep] + s[k + 1..]))
      && (k < |s| ==> s[k] == p.sep && s[k..] == [p.sep] + s[k + 1..])
  {
    hide AllDigits;
    hide FirstIndex;
    FirstIndexFacts(s, p.sep);
  }

  /** The first group and what is behind its separator. */
  lemma {:induction false} FirstOfGroups(s: string, p: Info, n: nat) returns (g: string, rest: string)
    requires Groups(s, p, n)
    ensures n > 0 && 0 < |g| <= p.width && AllDigits(g, p.base)
    ensures if n == 1 then s == g else s == g + ([p.sep] + rest) && Groups(rest, p, n - 1)
  {
    GroupsUnfold(s, p, n);
    hide *;
    var k := FirstIndex(s, p.sep);
    g, rest := s[..k], if n == 1 then "" else s[k + 1..];
  }

  lemma {:induction false} OnePadded(g: string, p: Info)
    requires IsInfo(p) && 0 < |g| <= p.width && AllDigits(g, p.base)
    ensures FullGroups(PadAll(g, p), p, 1)
  {
    InfoBase(p);
    hide *;
    StripOfPaddedGroup(g, p);
    OneGroup(g, p);
    OneFullGroup(Padded(Number(g, p.base), p.width, p.base), p);
  }

  lemma {:induction false} MorePadded(g: string, rest: string, p: Info, n: nat)
    requires IsInfo(p) && 0 < |g| <= p.width && AllDigits(g, p.base) && FullGroups(PadAll(rest, p), p, n)
    ensures FullGroups(PadAll(g + ([p.sep] + rest), p), p, n + 1)
  {
    InfoBase(p);
    hide *;
    StripOfPaddedGroup(g, p);
    MoreGroups(g, rest, p);
    FullStep(Padded(Number(g, p.base), p.width, p.base), PadAll(rest, p), p, n);
  }

  /** Padding an address gives an edit text. */
  lemma {:induction false} PadIsFull(s: string, p: Info, n: nat)
    requires IsInfo(p) && Groups(s, p, n)
    ensures FullGroups(PadAll(s, p), p, n)
    decreases n
  {
    hide *;
    var g, rest := FirstOfGroups(s, p, n);
    if n == 1 {
      OnePadded(g, p);
    } else {
      PadIsFull(rest, p, n - 1);
      MorePadded(g, rest, p, n - 1);
    }
  }

  lemma InfoBase(p: Info)
    requires IsInfo(p)
    ensures p.base in {10, 16} && p.width > 0
  {
  }

  lemma {:induction false} FullUnfold(s: string, p: Info, n: nat)
    requires FullGroups(s, p, n)
    ensures |s| >= p.width && n > 0
    ensures var g := s[..p.width];
      && |g| == p.width && AllPrinted(g, p.base)
      && (if n == 1 then s == g
          else |s| > p.width && FullGroups(s[p.width + 1..], p, n - 1) && s == g + ([p.sep] + s[p.width + 1..]))
  {
    hide AllPrinted;
  }

  predicate CanonicalGroups(s: string, p: Info, n: nat) {
    Groups(s, p, n) && Canonical(s, p, n)
  }

  /** The first group and what is behind its separator. */
  lemma {:induction false} FirstOfCanonical(s: string, p: Info, n: nat) returns (g: string, rest: string)
    requires CanonicalGroups(s, p, n)
    ensures n > 0 && 0 < |g| <= p.width && AllDigits(g, p.base) && StripZeros(g) == g
    ensures if n == 1 then s == g else s == g + ([p.sep] + rest) && CanonicalGroups(rest, p, n - 1)
  {
    GroupsUnfold(s, p, n);
    hide FirstIndex;
    hide AllDigits;
    hide StripZeros;
    var k := FirstIndex(s, p.sep);
    g, rest := s[..k], if n == 1 then "" else s[k + 1..];
  }

  lemma {:induction false} OneCanonical(t: string, p: Info)
    requires IsInfo(p) && 0 < |t| <= p.width && AllDigits(t, p.base) && StripZeros(t) == t
    ensures CanonicalGroups(t, p, 1)
  {
    hide StripZeros;
    hide FirstIndex;
    FirstGroup(t, "", p);
    assert t + "" == t;
  }

  lemma {:induction false} MoreCanonical(t: string, rest: string, p: Info, n: nat)
    requires IsInfo(p) && 0 < |t| <= p.width && AllDigits(t, p.base) && StripZeros(t) == t
    requires CanonicalGroups(rest, p, n)
    ensures CanonicalGroups(t + ([p.sep] + rest), p, n + 1)
  {
    hide StripZeros;
    hide FirstIndex;
    hide AllDigits;
    hide Number;
    hide DigitCount;
    FirstGroup(t, [p.sep] + rest, p);
    MoreIsLonger(t, rest, p.sep);
    assert CanonicalGroups(rest, p, n) && n > 0;
    hide Strtol;
  }

  lemma MoreIsLonger(t: string, rest: string, sep: char)
    ensures var s := t + ([sep] + rest);
      |t| < |s| && s[..|t|] == t && s[|t| + 1..] == rest && ([sep] + rest)[1..] == rest
  {
  }

  /** Stripping an edit text gives a canonical address. */
  lemma {:induction false} StripIsCanonical(s: string, p: Info, n: nat)
    requires IsInfo(p) && FullGroups(s, p, n)
    ensures CanonicalGroups(StripAll(s, p.sep), p, n)
    decreases n
  {
    InfoBase(p);
    FullUnfold(s, p, n);
    hide *;
    var g := s[..p.width];
    StripKeepsPrinted(g, p.base);
    PrintedIsLower(g, p.base);
    PrintedIsLower(StripZeros(g), p.base);
    StripShortens(g);
    StripNotEmpty(g);
    StripTwice(g);
    if n == 1 {
      OneGroup(g, p);
      OneCanonical(StripZeros(g), p);
    } else {
      StripIsCanonical(s[p.width + 1..], p, n - 1);
      MoreGroups(g, s[p.width + 1..], p);
      MoreCanonical(StripZeros(g), StripAll(s[p.width + 1..], p.sep), p, n - 1);
    }
  }

  lemma {:induction false} StripTwice(g: string)
    ensures StripZeros(StripZeros(g)) == StripZeros(g)
    decreases |g|
  {
    if |g| > 1 && g[0] == '0' {
      StripTwice(g[1..]);
    }
  }

  // ----- edit texts by position ---------------------------------------------------------------------

  /** The character that belongs at place i of an edit text. */
  predicate InPlace(c: char, i: nat, p: Info) {
    if i % (p.width + 1) == p.width then c == p.sep else IsPrintedDigit(c, p.base)
  }

  /** Separators at their places and digits everywhere else. */
  predicate WellFormed(s: string, p: Info) {
    forall i :: 0 <= i < |s| ==> InPlace(s[i], i, p)
  }

  lemma InPlaceNextGroup(c: char, i: nat, p: Info)
    requires p.width in {3, 4}
    ensures InPlace(c, i + (p.width + 1), p) <==> InPlace(c, i, p)
  {
    hide IsPrintedDigit;
    if p.width == 3 {
      assert (i + 4) % 4 == i % 4;
    } else {
      assert (i + 5) % 5 == i % 5;
    }
  }

  lemma FirstPlaces(s: string, p: Info)
    requires |s| >= p.width
    ensures AllPrinted(s[..p.width], p.base) <==> forall i :: 0 <= i < p.width ==> InPlace(s[i], i, p)
    ensures |s| > p.width ==> (InPlace(s[p.width], p.width, p) <==> s[p.width] == p.sep)
  {
    hide InPlace;
    hide IsPrintedDigit;
    forall i | 0 <= i < p.width ensures InPlace(s[i], i, p) <==> IsPrintedDigit(s[..p.width][i], p.base) {
      FirstPlace(s[i], i, p);
    }
    if |s| > p.width {
      FirstPlace(s[p.width], p.width, p);
    }
  }

  lemma FirstPlace(c: char, i: nat, p: Info)
    requires i <= p.width
    ensures InPlace(c, i, p) <==> if i == p.width then c == p.sep else IsPrintedDigit(c, p.base)
  {
  }

  lemma LaterPlaces(s: string, p: Info)
    requires p.width in {3, 4} && |s| > p.width
    ensures WellFormed(s[p.width + 1..], p) <==> forall i :: p.width < i < |s| ==> InPlace(s[i], i, p)
  {
    hide InPlace;
    var m := p.width + 1;
    var rest := s[m..];
    if WellFormed(rest, p) {
      forall i | p.width < i < |s| ensures InPlace(s[i], i, p) {
        assert s[i] == rest[i - m];
        InPlaceNextGroup(s[i], i - m, p);
      }
    }
    if forall i :: p.width < i < |s| ==> InPlace(s[i], i, p) {
      forall i | 0 <= i < |rest| ensures InPlace(rest[i], i, p) {
        assert rest[i] == s[i + m];
        InPlaceNextGroup(s[i + m], i, p);
      }
    }
  }

  lemma {:induction false} FullIsWellFormed(s: string, p: Info, n: nat)
    requires p.width in {3, 4} && n > 0 && |s| == n * (p.width + 1) - 1
    ensures FullGroups(s, p, n) <==> WellFormed(s, p)
    decreases n
  {
    hide InPlace;
    hide AllPrinted;
    FirstPlaces(s, p);
    if n > 1 {
      FullIsWellFormed(s[p.width + 1..], p, n - 1);
      LaterPlaces(s, p);
    }
  }
}
