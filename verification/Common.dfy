/** Definitions shared by the models: C's nullable pointers, and small functions of its library. */
module Common {
  datatype Option<+T> = None | Some(value: T)

  function Min(a: int, b: int): int { if a < b then a else b }

  function Max(a: int, b: int): int { if a < b then b else a }

  /** No element occurs twice. */
  ghost predicate Distinct<X>(s: seq<X>) {
    forall i, j :: 0 <= i < j < |s| ==> s[i] != s[j]
  }

  /** The first position of x in s, or |s|. */
  function FirstIndex<X(==)>(s: seq<X>, x: X): (k: nat)
    ensures k <= |s| && x !in s[..k] && (k < |s| ==> s[k] == x)
  {
    if s == [] || s[0] == x then 0 else 1 + FirstIndex(s[1..], x)
  }

  lemma FirstIndexFacts<X>(s: seq<X>, x: X)
    ensures x !in s[..FirstIndex(s, x)]
    ensures FirstIndex(s, x) < |s| ==> s[FirstIndex(s, x)] == x
  {
  }

  lemma {:induction false} FirstIndexIs<X>(s: seq<X>, rest: seq<X>, x: X)
    requires x !in s && (rest != [] ==> rest[0] == x)
    ensures FirstIndex(s + rest, x) == |s|
    decreases |s|
  {
    if s != [] {
      FirstIndexIs(s[1..], rest, x);
      assert (s + rest)[1..] == s[1..] + rest;
    } else {
      assert s + rest == rest;
    }
  }

  // A text of which the rest from p on begins with a.

  lemma Suffix(s: string, p: nat, a: string, b: string)
    requires p <= |s| && s[p..] == a + b
    ensures p + |a| <= |s| && s[p + |a|..] == b && (forall i :: 0 <= i < |a| ==> s[p + i] == a[i])
    ensures b != "" ==> p + |a| < |s| && s[p + |a|] == b[0]
  {
    var t := s[p..];
    assert t[|a|..] == b && t[..|a|] == a;
    assert forall i :: 0 <= i < |t| ==> t[i] == s[p + i];
    assert forall i :: 0 <= i < |a| ==> t[i] == a[i];
    assert b != "" ==> t[|a|] == b[0];
  }

  lemma Behind(s: string, p: nat, a: string, b: string)
    requires p <= |s| && s[p..] == a + b
    ensures p + |a| <= |s| && s[p + |a|..] == b
  {
    Suffix(s, p, a, b);
  }

  lemma ThreePieces(a: string, b: string, c: string)
    ensures a + (b + c) == a + b + c
  {
  }

  /** At most n characters, as strncpy and strncat take them. */
  function Prefix(s: string, n: nat): (r: string)
    ensures |r| == if |s| < n then |s| else n
  {
    if |s| <= n then s else s[..n]
  }

  function Lower(c: char): char {
    if 'A' <= c <= 'Z' then c - 'A' + 'a' else c
  }

  function LowerCase(s: string): (r: string)
    ensures |r| == |s| && forall i :: 0 <= i < |s| ==> r[i] == Lower(s[i])
  {
    seq(|s|, i requires 0 <= i < |s| => Lower(s[i]))
  }

  predicate HasUpperCase(s: string) {
    exists c :: c in s && 'A' <= c <= 'Z'
  }

  lemma LowerCaseOfBoth(s: string, t: string)
    ensures LowerCase(s + t) == LowerCase(s) + LowerCase(t)
  {
  }

  lemma LowerCaseIff(s: string)
    ensures LowerCase(s) == s <==> !HasUpperCase(s)
  {
    if LowerCase(s) == s {
      forall c | c in s ensures !('A' <= c <= 'Z') {
        var i :| 0 <= i < |s| && s[i] == c;
        assert LowerCase(s)[i] == Lower(c);
      }
    }
    if !HasUpperCase(s) {
      forall i | 0 <= i < |s| ensures LowerCase(s)[i] == s[i] {
        assert s[i] in s;
      }
    }
  }
}
