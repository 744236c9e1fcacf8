/**
  The order of network interface names: by the text before the trailing number, then by that number,
  then by the number of the alias.
 */
module NameOrder {
  import opened Snprintf
  import opened Common
  import opened Numbers
  import opened CStrings

  // ----- the key of a name ----------------------------------------------------------------------------

  /** Where the trailing digits start. */
  function DigitsFrom(s: string): (k: nat)
    ensures k <= |s|
    ensures forall i :: k <= i < |s| ==> IsDigit(s[i])
    ensures k > 0 ==> !IsDigit(s[k - 1])
  {
    if s != "" && IsDigit(s[|s| - 1]) then DigitsFrom(s[..|s| - 1]) else |s|
  }

  /** A colon and at least one digit end the name. */
  predicate HasAlias(s: string) {
    var k := DigitsFrom(s);
    0 < k < |s| && s[k - 1] == ':'
  }

  function Base(s: string): string {
    if HasAlias(s) then s[..DigitsFrom(s) - 1] else s
  }

  /** The alias is -1 when there is none; a missing number is 0. */
  datatype Key = Key(prefix: string, number: nat, alias: int)

  function Alias(s: string): int {
    if HasAlias(s) then Number(s[DigitsFrom(s)..], 10) else -1
  }

  function KeyOf(s: string): Key {
    var b := Base(s);
    Key(b[..DigitsFrom(b)], Number(b[DigitsFrom(b)..], 10), Alias(s))
  }

  // ----- the order of keys ------------------------------------------------------------------------------

  function CompareInts(x: int, y: int): int { if x < y then -1 else if x > y then 1 else 0 }

  /** strcmp, as a sign. */
  function CompareStrings(a: string, b: string): int
    decreases |a|
  {
    if a == "" then (if b == "" then 0 else -1)
    else if b == "" then 1
    else if a[0] != b[0] then CompareInts(a[0] as int, b[0] as int)
    else CompareStrings(a[1..], b[1..])
  }

  function CompareKeys(x: Key, y: Key): int {
    var c := CompareStrings(x.prefix, y.prefix);
    if c != 0 then c
    else if x.number != y.number then CompareInts(x.number, y.number)
    else CompareInts(x.alias, y.alias)
  }

  lemma {:induction false} StringsOpposite(a: string, b: string)
    ensures CompareStrings(a, b) == -CompareStrings(b, a)
    ensures CompareStrings(a, b) in {-1, 0, 1}
    ensures CompareStrings(a, b) == 0 <==> a == b
    decreases |a|
  {
    if a != "" && b != "" {
      StringsOpposite(a[1..], b[1..]);
      assert a == [a[0]] + a[1..] && b == [b[0]] + b[1..];
    }
  }

  lemma {:induction false} StringsTransitive(a: string, b: string, c: string)
    requires CompareStrings(a, b) <= 0 && CompareStrings(b, c) <= 0
    ensures CompareStrings(a, c) <= 0
    ensures CompareStrings(a, b) < 0 || CompareStrings(b, c) < 0 ==> CompareStrings(a, c) < 0
    decreases |a|
  {
    if a != "" && b != "" && c != "" && a[0] == b[0] == c[0] {
      StringsTransitive(a[1..], b[1..], c[1..]);
    }
  }

  /** The order is antisymmetric in sign, and two names are equal in it exactly when their keys are the same. */
  lemma KeysOpposite(x: Key, y: Key)
    ensures CompareKeys(x, y) == -CompareKeys(y, x) && CompareKeys(x, y) in {-1, 0, 1}
    ensures CompareKeys(x, y) == 0 <==> x == y
  {
    StringsOpposite(x.prefix, y.prefix);
  }

  lemma KeysTransitive(x: Key, y: Key, z: Key)
    requires CompareKeys(x, y) <= 0 && CompareKeys(y, z) <= 0
    ensures CompareKeys(x, z) <= 0
    ensures CompareKeys(x, y) < 0 || CompareKeys(y, z) < 0 ==> CompareKeys(x, z) < 0
  {
    hide CompareStrings;
    StringsOpposite(x.prefix, y.prefix);
    StringsOpposite(y.prefix, z.prefix);
    StringsTransitive(x.prefix, y.prefix, z.prefix);
  }

  /** a is in front of b: they first differ where a ends or has the smaller character. */
  ghost predicate StringBefore(a: string, b: string) {
    exists k :: 0 <= k <= |a| && k < |b| && a[..k] == b[..k] && (k == |a| || a[k] < b[k])
  }

  lemma {:induction false} StringsInOrder(a: string, b: string)
    ensures CompareStrings(a, b) < 0 <==> StringBefore(a, b)
    decreases |a|
  {
    assert a[..0] == b[..0];
    if a != "" && b != "" {
      if a[0] == b[0] {
        StringsInOrder(a[1..], b[1..]);
        BeforeBehindFirst(a, b);
      } else {
        forall k | 0 < k <= |a| && k < |b| ensures a[..k] != b[..k] {
          assert a[..k][0] == a[0] && b[..k][0] == b[0];
        }
      }
    }
  }

  lemma BeforeBehindFirst(a: string, b: string)
    requires a != "" && b != "" && a[0] == b[0]
    ensures StringBefore(a, b) <==> StringBefore(a[1..], b[1..])
  {
    if StringBefore(a, b) {
      var k :| 0 <= k <= |a| && k < |b| && a[..k] == b[..k] && (k == |a| || a[k] < b[k]);
      assert k > 0;
      assert a[1..][..k - 1] == a[..k][1..] && b[1..][..k - 1] == b[..k][1..];
    }
    if StringBefore(a[1..], b[1..]) {
      var k :| 0 <= k <= |a[1..]| && k < |b[1..]| && a[1..][..k] == b[1..][..k]
        && (k == |a[1..]| || a[1..][k] < b[1..][k]);
      assert a[..k + 1] == [a[0]] + a[1..][..k] && b[..k + 1] == [b[0]] + b[1..][..k];
    }
  }

  /** Names are in the order of their prefixes, then of their numbers as numbers, then of their aliases. */
  lemma KeysInOrder(x: Key, y: Key)
    ensures CompareKeys(x, y) < 0 <==>
      StringBefore(x.prefix, y.prefix)
      || (x.prefix == y.prefix && (x.number < y.number || (x.number == y.number && x.alias < y.alias)))
  {
    hide CompareStrings;
    hide StringBefore;
    StringsInOrder(x.prefix, y.prefix);
    StringsOpposite(x.prefix, y.prefix);
  }

  // ----- keys and names ---------------------------------------------------------------------------------

  predicate NoTrailingDigit(s: string) { s == "" || !IsDigit(s[|s| - 1]) }

  function PrintKey(k: Key): string
    requires k.alias >= -1
  {
    k.prefix + Digits(k.number, 10, false) + if k.alias < 0 then "" else ":" + Digits(k.alias, 10, false)
  }

  lemma {:induction false} DigitsFromIs(s: string, d: string)
    requires NoTrailingDigit(s) && AllDigits(d, 10)
    ensures DigitsFrom(s + d) == |s|
    decreases |d|
  {
    if d == "" {
      assert s + d == s;
    } else {
      assert (s + d)[..|s + d| - 1] == s + d[..|d| - 1];
      DigitsFromIs(s, d[..|d| - 1]);
    }
  }

  lemma {:induction false} NumberedBase(prefix: string, number: nat)
    requires NoTrailingDigit(prefix)
    ensures var b := prefix + Digits(number, 10, false);
      DigitsFrom(b) == |prefix| && b[..|prefix|] == prefix && Number(b[|prefix|..], 10) == number && |b| > |prefix|
  {
    hide Digits;
    hide Number;
    hide DigitsFrom;
    var d := Digits(number, 10, false);
    NumberOfDigits(number, 10);
    DigitsFromIs(prefix, d);
    assert (prefix + d)[|prefix|..] == d;
  }

  /**
    A name printed with its number has the key it is printed from, so such names compare equal only when
    they are the same.  A prefix that ends in a colon would make the number an alias.
   */
  lemma {:induction false} KeyOfPrinted(k: Key)
    requires NoTrailingDigit(k.prefix) && k.alias >= -1 && (k.prefix != "" ==> k.prefix[|k.prefix| - 1] != ':')
    ensures KeyOf(PrintKey(k)) == k
  {
    hide Digits;
    hide Number;
    hide DigitsFrom;
    var b := k.prefix + Digits(k.number, 10, false);
    NumberedBase(k.prefix, k.number);
    PrintedBase(k);
    hide Base;
    hide Alias;
    hide HasAlias;
    assert KeyOf(PrintKey(k)) == Key(b[..DigitsFrom(b)], Number(b[DigitsFrom(b)..], 10), k.alias);
  }

  lemma PrintedBase(k: Key)
    requires NoTrailingDigit(k.prefix) && k.alias >= -1 && (k.prefix != "" ==> k.prefix[|k.prefix| - 1] != ':')
    ensures var s, b := PrintKey(k), k.prefix + Digits(k.number, 10, false); Base(s) == b && Alias(s) == k.alias
  {
    hide Digits;
    hide Number;
    hide DigitsFrom;
    var b := k.prefix + Digits(k.number, 10, false);
    if k.alias < 0 {
      NumberedBase(k.prefix, k.number);
      assert PrintKey(k) == b;
      assert !HasAlias(b);
    } else {
      var s := b + ":";
      var d := Digits(k.alias, 10, false);
      assert PrintKey(k) == s + d;
      NumberedBase(s, k.alias);
      assert (s + d)[..|s| - 1] == b;
    }
  }

  /** Names that differ compare equal when one lacks the number 0 or pads it. */
  lemma NamesThatCompareEqual()
    ensures KeyOf("eth") == KeyOf("eth0") == KeyOf("eth00") == Key("eth", 0, -1)
  {
    NumbersOfZero();
    assert "eth" + "" == "eth" && "eth" + "0" == "eth0" && "eth" + "00" == "eth00";
    hide Number;
    hide KeyOf;
    NamePlain("eth", "");
    NamePlain("eth", "0");
    NamePlain("eth", "00");
  }

  lemma NumbersOfZero()
    ensures Number("", 10) == Number("0", 10) == Number("00", 10) == 0
  {
    assert "0"[..0] == "" && "00"[..1] == "0";
  }

  lemma {:induction false} NamePlain(prefix: string, d: string)
    requires NoTrailingDigit(prefix) && (prefix != "" ==> prefix[|prefix| - 1] != ':')
    requires AllDigits(d, 10)
    ensures KeyOf(prefix + d) == Key(prefix, Number(d, 10), -1)
  {
    hide Number;
    hide DigitsFrom;
    DigitsFromIs(prefix, d);
    assert (prefix + d)[..|prefix|] == prefix && (prefix + d)[|prefix|..] == d;
  }

  // ----- the comparison itself ----------------------------------------------------------------------------

  const INT_MAX := 0x7fff_ffff

  /** atoi does not overflow on the name. */
  predicate NumbersInRange(s: string) {
    KeyOf(s).number <= INT_MAX && Alias(s) <= INT_MAX
  }

  /** The digits of the alias in the buffer, or -1; the colon before them is overwritten. */
  method CutAlias(name: array<char>) returns (digits: int)
    requires Ends(name[..])
    modifies name
    ensures Ends(name[..])
    ensures var s := CString(old(name[..]));
      && CString(name[..]) == Base(s) && digits == (if HasAlias(s) then DigitsFrom(s) else -1)
      && (HasAlias(s) ==> digits < name.Length && Ends(name[digits..]) && CString(name[digits..]) == s[digits..])
  {
    ghost var before := name[..];
    ghost var s := CString(before);
    var pos := FirstIndex(name[..], NUL);
    StringInBuffer(before);
    hide FirstIndex;
    hide CString;
    hide DigitsFrom;
    assert s[..|s|] == s;
    var digit := false;
    while pos > 0
      invariant 0 <= pos <= |s| && name[..] == before && digit == (pos < |s|) && DigitsFrom(s) == DigitsFrom(s[..pos])
      decreases pos
    {
      CharacterAt(before, pos - 1);
      DigitsFromStep(s, pos);
      if name[pos - 1] == ':' && digit {
        name[pos - 1] := NUL;
        CutAt(before, name[..], pos);
        assert name[..][pos..] == name[pos..];
        return pos;
      }
      if !IsDigit(name[pos - 1]) {
        break;
      }
      digit := true;
      pos := pos - 1;
    }
    NoDigitsFrom();
    return -1;
  }

  lemma CharacterAt(b: seq<char>, i: nat)
    requires Ends(b) && i < |CString(b)|
    ensures |CString(b)| < |b| && b[i] == CString(b)[i]
  {
  }

  lemma NoDigitsFrom()
    ensures DigitsFrom("") == 0
  {
  }

  lemma DigitsFromStep(s: string, pos: nat)
    requires 0 < pos <= |s|
    ensures DigitsFrom(s[..pos]) == if IsDigit(s[pos - 1]) then DigitsFrom(s[..pos - 1]) else pos
  {
    assert s[..pos][..pos - 1] == s[..pos - 1];
  }

  lemma StringInBuffer(b: seq<char>)
    requires Ends(b)
    ensures FirstIndex(b, NUL) < |b| && b[FirstIndex(b, NUL)] == NUL && |CString(b)| == FirstIndex(b, NUL)
      && NUL !in CString(b)
  {
    hide FirstIndex;
    CStrings.Terminated(b);
    FirstIndexFacts(b, NUL);
  }

  lemma CutAt(before: seq<char>, after: seq<char>, pos: nat)
    requires Ends(before) && 0 < pos < |CString(before)| && |CString(before)| < |before|
      && after == before[pos - 1 := NUL]
    ensures Ends(after) && CString(after) == CString(before)[..pos - 1]
    ensures Ends(after[pos..]) && CString(after[pos..]) == CString(before)[pos..]
  {
    hide FirstIndex;
    StringInBuffer(before);
    var s := CString(before);
    assert after[..pos - 1] == s[..pos - 1];
    EndsAt(after, pos - 1);
    assert after[pos..][..|s| - pos] == s[pos..];
    EndsAt(after[pos..], |s| - pos);
  }

  method RindexNonDigit(name: array<char>) returns (pos: nat)
    requires Ends(name[..])
    ensures pos == DigitsFrom(CString(name[..]))
  {
    ghost var s := CString(name[..]);
    StringInBuffer(name[..]);
    pos := FirstIndex(name[..], NUL);
    assert s[..|s|] == s;
    while pos > 0
      invariant pos <= |s| && DigitsFrom(s) == DigitsFrom(s[..pos])
    {
      assert name[pos - 1] == s[pos - 1] == s[..pos][pos - 1];
      if !IsDigit(name[pos - 1]) {
        return;
      }
      assert s[..pos][..pos - 1] == s[..pos - 1];
      pos := pos - 1;
    }
  }

  /** Comparing as much as both prefixes have, and then their lengths, compares the prefixes. */
  lemma {:induction false} ComparePieces(a: string, b: string, n: nat)
    requires n == (if |a| < |b| then |a| else |b|)
    ensures CompareStrings(a, b) ==
      if CompareStrings(a[..n], b[..n]) != 0 then CompareStrings(a[..n], b[..n]) else CompareInts(|a|, |b|)
    decreases |a|
  {
    if a != "" && b != "" {
      ComparePieces(a[1..], b[1..], n - 1);
      assert a[..n][1..] == a[1..][..n - 1] && b[..n][1..] == b[1..][..n - 1];
    }
  }

  method Strdup(s: string) returns (a: array<char>)
    requires NUL !in s
    ensures fresh(a) && Ends(a[..]) && CString(a[..]) == s
  {
    hide FirstIndex;
    a := new char[|s| + 1];
    forall i | 0 <= i < a.Length { a[i] := if i < |s| then s[i] else NUL; }
    assert a[..][..|s|] == s;
    EndsAt(a[..], |s|);
  }

  /** The digits that end a string in a buffer. */
  lemma TailInBuffer(b: seq<char>, k: nat)
    requires Ends(b) && k <= |CString(b)|
    ensures k < |b| && Ends(b[k..]) && CString(b[k..]) == CString(b)[k..]
  {
    hide FirstIndex;
    StringInBuffer(b);
    DropOfCString(b, k);
  }

  /** Negative, zero or positive as the key of the first name is before, equal to or after that of the second. */
  method Nstrcmp(ap: string, bp: string) returns (r: int)
    requires NUL !in ap && NUL !in bp && NumbersInRange(ap) && NumbersInRange(bp)
    ensures CompareInts(r, 0) == CompareKeys(KeyOf(ap), KeyOf(bp))
  {
    hide DigitsFrom;
    hide Number;
    hide CString;
    hide Ends;
    hide FirstIndex;
    hide CompareStrings;
    var a := Strdup(ap);
    var b := Strdup(bp);
    var aalias := CutAlias(a);
    var balias := CutAlias(b);
    var aindex := RindexNonDigit(a);
    var bindex := RindexNonDigit(b);
    ghost var x, y := KeyOf(ap), KeyOf(bp);
    var complen := if aindex < bindex then aindex else bindex;
    ComparePieces(x.prefix, y.prefix, complen);
    assert x.prefix[..complen] == CString(a[..])[..complen] && y.prefix[..complen] == CString(b[..])[..complen];
    StringsOpposite(x.prefix, y.prefix);
    var res := CompareStrings(CString(a[..])[..complen], CString(b[..])[..complen]);
    if res != 0 {
      return res;
    }
    if aindex > bindex {
      return 1;
    }
    if aindex < bindex {
      return -1;
    }
    TailInBuffer(a[..], aindex);
    TailInBuffer(b[..], bindex);
    assert a[..][aindex..] == a[aindex..] && b[..][bindex..] == b[bindex..];
    var av, bv := Number(CString(a[aindex..]), 10), Number(CString(b[bindex..]), 10);
    if av < bv {
      return -1;
    }
    if av > bv {
      return 1;
    }
    var an: int, bn: int := -1, -1;
    if aalias != -1 {
      an := Number(CString(a[aalias..]), 10);
    }
    if balias != -1 {
      bn := Number(CString(b[balias..]), 10);
    }
    if an < bn {
      return -1;
    }
    if an > bn {
      return 1;
    }
    return 0;
  }
}
