/** Strings in buffers, up to their first NUL. */
module CStrings {
  import opened Common

  const NUL: char := 0 as char

  /** The string in a buffer. */
  function CString(b: seq<char>): string {
    b[..FirstIndex(b, NUL)]
  }

  /** The buffer holds a string. */
  predicate Ends(b: seq<char>) { NUL in b }

  predicate Endless(b: seq<char>) { NUL !in b }

  lemma {:induction false} Terminated(b: seq<char>)
    requires Ends(b)
    ensures FirstIndex(b, NUL) < |b|
    decreases |b|
  {
    if b[0] != NUL {
      Terminated(b[1..]);
    }
  }

  /** The first NUL. */
  lemma EndsAt(b: seq<char>, n: nat)
    requires n < |b| && b[n] == NUL && NUL !in b[..n]
    ensures Ends(b) && FirstIndex(b, NUL) == n && CString(b) == b[..n]
  {
    hide FirstIndex;
    assert b == b[..n] + b[n..];
    FirstIndexIs(b[..n], b[n..], NUL);
  }

  lemma DropOfCString(b: seq<char>, k: nat)
    requires Ends(b) && k <= FirstIndex(b, NUL)
    ensures Ends(b[k..]) && CString(b[k..]) == CString(b)[k..]
  {
    hide FirstIndex;
    Terminated(b);
    FirstIndexFacts(b, NUL);
    var n := FirstIndex(b, NUL);
    assert b[k..][..n - k] == b[..n][k..];
    EndsAt(b[k..], n - k);
  }

  lemma EndlessBoth(a: seq<char>, b: seq<char>)
    requires Endless(a) && Endless(b)
    ensures Endless(a + b)
  {
  }

  /** What the characters at and after a place in a buffer say about the string there. */
  lemma NextInString(b: seq<char>, i: nat)
    requires i < |b| && Ends(b[i..])
    ensures b[i] == NUL <==> CString(b[i..]) == ""
    ensures b[i] != NUL ==>
      && i + 1 < |b| && Ends(b[i + 1..]) && CString(b[i..])[0] == b[i] && CString(b[i + 1..]) == CString(b[i..])[1..]
      && (b[i + 1] == NUL <==> |CString(b[i..])| == 1)
        && (b[i + 1] != NUL ==> |CString(b[i..])| > 1 && CString(b[i..])[1] == b[i + 1])
  {
    var s := b[i..];
    Terminated(s);
    if b[i] != NUL {
      FirstIndexFacts(s, NUL);
      DropOfCString(s, 1);
      assert s[1..] == b[i + 1..];
      Terminated(b[i + 1..]);
    }
  }

  /** A string behind text without NUL. */
  lemma CStringBehind(d: seq<char>, t: seq<char>)
    requires Ends(t) && Endless(d)
    ensures Ends(d + t) && CString(d + t) == d + CString(t)
  {
    hide FirstIndex;
    Terminated(t);
    FirstIndexFacts(t, NUL);
    var n := FirstIndex(t, NUL);
    assert (d + t)[..|d| + n] == d + t[..n];
    EndsAt(d + t, |d| + n);
  }

  /** The string behind a separator. */
  lemma CStringAfter(t: seq<char>, k: nat, sep: char)
    requires Ends(t) && sep != NUL && k == FirstIndex(CString(t), sep) < |CString(t)|
    ensures k + 1 < |t| && Ends(t[k + 1..]) && CString(t[k + 1..]) == CString(t)[k + 1..]
    ensures t[..k + 1] == CString(t)[..k] + [sep] && Endless(t[..k + 1])
  {
    hide FirstIndex;
    Terminated(t);
    FirstIndexFacts(t, NUL);
    FirstIndexFacts(CString(t), sep);
    assert t[..k + 1] == CString(t)[..k] + [sep];
    DropOfCString(t, k + 1);
  }
}
