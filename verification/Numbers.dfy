/** Numbers and their digits, as strtol reads and printf prints them. */
module Numbers {
  import opened Common
  import opened Snprintf

  /** The digits that strtol reads: letters in either case. */
  predicate IsBaseDigit(c: char, base: nat) {
    '0' <= c <= '9' || (base == 16 && ('a' <= c <= 'f' || 'A' <= c <= 'F'))
  }

  /** The digits that printf prints: letters in lower case. */
  predicate IsPrintedDigit(c: char, base: nat) {
    '0' <= c <= '9' || (base == 16 && 'a' <= c <= 'f')
  }

  function DigitValue(c: char): nat {
    if '0' <= c <= '9' then c as int - '0' as int
    else if 'a' <= c then c as int - 'a' as int + 10
    else if 'A' <= c then c as int - 'A' as int + 10
    else 0
  }

  predicate AllPrinted(s: string, base: nat) {
    forall i :: 0 <= i < |s| ==> IsPrintedDigit(s[i], base)
  }

  predicate AllDigits(s: string, base: nat) {
    forall i :: 0 <= i < |s| ==> IsBaseDigit(s[i], base)
  }

  function Number(s: string, base: nat): nat {
    if s == "" then 0 else Number(s[..|s| - 1], base) * base + DigitValue(s[|s| - 1])
  }

  /** strtol on a text without a sign: it stops at the first character that is no digit. */
  function Strtol(s: string, base: nat): nat {
    Number(s[..DigitCount(s, base)], base)
  }

  /** strtol skips nothing: no blanks, no sign and no 0x. */
  predicate IsUnsigned(s: string) {
    s != "" ==> s[0] !in " \t\n\r+-" && s[0] as int !in {11, 12} && (|s| > 1 ==> s[1] != 'x' && s[1] != 'X')
  }

  function DigitCount(s: string, base: nat): (n: nat)
    ensures n <= |s| && AllDigits(s[..n], base)
    ensures n < |s| ==> !IsBaseDigit(s[n], base)
  {
    if s == "" || !IsBaseDigit(s[0], base) then 0
    else
      var n := DigitCount(s[1..], base);
      assert s[..n + 1] == [s[0]] + s[1..][..n];
      n + 1
  }

  function Power(b: nat, k: nat): nat { if k == 0 then 1 else b * Power(b, k - 1) }

  lemma DigitOfValue(c: char, base: nat)
    requires base in {10, 16} && IsBaseDigit(c, base)
    ensures DigitValue(c) < base && DigitChar(DigitValue(c), false) == Lower(c)
  {
  }

  lemma PrintedIsLower(s: string, base: nat)
    requires AllPrinted(s, base)
    ensures AllDigits(s, base) && LowerCase(s) == s
  {
  }

  lemma LowerIsPrinted(s: string, base: nat)
    requires AllDigits(s, base)
    ensures AllPrinted(LowerCase(s), base)
  {
  }

  lemma {:induction false} DigitCountIs(g: string, rest: string, base: nat)
    requires AllDigits(g, base) && (rest != "" ==> !IsBaseDigit(rest[0], base))
    ensures DigitCount(g + rest, base) == |g|
    decreases |g|
  {
    if g != "" {
      DigitCountIs(g[1..], rest, base);
      assert (g + rest)[1..] == g[1..] + rest;
    } else {
      assert g + rest == rest;
    }
  }

  lemma {:induction false} NumberOfDigits(n: nat, base: nat)
    requires base in {10, 16}
    ensures AllPrinted(Digits(n, base, false), base) && Number(Digits(n, base, false), base) == n
    decreases n
  {
    DigitIs(n % base, base);
    if n >= base {
      NumberOfDigits(n / base, base);
      var h, c := Digits(n / base, base, false), DigitChar(n % base, false);
      assert (h + [c])[..|h + [c]| - 1] == h;
    }
  }

  lemma DigitIs(k: nat, base: nat)
    requires base in {10, 16} && k < base
    ensures IsPrintedDigit(DigitChar(k, false), base) && DigitValue(DigitChar(k, false)) == k
  {
  }

  lemma {:induction false} FewDigits(n: nat, base: nat, k: nat)
    requires base in {10, 16} && k > 0 && n < Power(base, k)
    ensures |Digits(n, base, false)| <= k
    decreases k
  {
    if n >= base {
      assert k > 1;
      FewDigits(n / base, base, k - 1);
    }
  }

  lemma {:induction false} NumberBound(g: string, base: nat)
    requires base in {10, 16} && AllDigits(g, base)
    ensures Number(g, base) < Power(base, |g|)
    decreases |g|
  {
    if g != "" {
      var h, c := g[..|g| - 1], g[|g| - 1];
      NumberBound(h, base);
      DigitOfValue(c, base);
      BoundStep(Number(h, base), Power(base, |h|), base, DigitValue(c));
    }
  }

  lemma BoundStep(x: nat, y: nat, base: nat, d: nat)
    requires x < y && d < base
    ensures x * base + d < base * y
  {
    assert x * base <= (y - 1) * base;
  }

  lemma {:induction false} PowerGrows(b: nat, i: nat, k: nat)
    requires i <= k && b > 0
    ensures 0 < Power(b, i) <= Power(b, k)
    decreases k
  {
    if k > 0 {
      PowerGrows(b, if i < k then i else k - 1, k - 1);
      TimesGrows(b, Power(b, k - 1));
    }
  }

  lemma TimesGrows(b: nat, x: nat)
    requires b > 0
    ensures x <= b * x
  {
    assert b * x == (b - 1) * x + x;
  }
}
