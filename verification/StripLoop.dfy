/**
  The loop that strips leading zeros from an address in its buffer, moving the rest of the string up
  behind every group.
 */
module StripLoop {
  import opened Common
  import opened CStrings
  import opened IpText

  // ----- the strip loop -------------------------------------------------------------------------------

  /** memccpy up to a NUL, copying forwards; here the source is never before the target. */
  method CopyString(a: array<char>, target: nat, source: nat)
    requires target <= source < a.Length && Ends(a[source..])
    modifies a
    ensures a[..target] == old(a[..target])
    ensures Ends(a[target..]) && CString(a[target..]) == CString(old(a[source..]))
  {
    hide *;
    ghost var before := a[..];
    ghost var len := FirstIndex(before[source..], NUL);
    assert before[source..] == a[source..];
    FirstNul(before, source);
    var i := 0;
    while a[source + i] != NUL
      invariant 0 <= i <= len
      invariant a[..target] == before[..target]
      invariant forall j :: target <= j < target + i ==> a[j] == before[j + (source - target)]
      invariant forall j :: source + i <= j < a.Length ==> a[j] == before[j]
      decreases len - i
    {
      a[target + i] := a[source + i];
      i := i + 1;
    }
    a[target + i] := NUL;
    CopiedString(a[..], target, before, source);
    assert a[..][target..] == a[target..];
  }

  /** The NUL of the string at source is len characters on, and no earlier. */
  lemma FirstNul(b: seq<char>, source: nat)
    requires source < |b| && Ends(b[source..])
    ensures var len := FirstIndex(b[source..], NUL);
      source + len < |b| && b[source + len] == NUL && forall j :: source <= j < source + len ==> b[j] != NUL
  {
    hide FirstIndex;
    var t := b[source..];
    Terminated(t);
    FirstIndexFacts(t, NUL);
    var len := FirstIndex(t, NUL);
    forall j | source <= j < source + len ensures b[j] != NUL {
      assert b[j] == t[..len][j - source];
    }
  }

  lemma CopiedString(a: seq<char>, target: nat, b: seq<char>, source: nat)
    requires target <= source < |b| == |a| && Ends(b[source..])
    requires var len := FirstIndex(b[source..], NUL);
      && source + len < |b| && a[target + len] == NUL
      && forall j :: target <= j < target + len ==> a[j] == b[j + (source - target)]
    ensures Ends(a[target..]) && CString(a[target..]) == CString(b[source..])
  {
    hide FirstIndex;
    var t, u := a[target..], b[source..];
    var len := FirstIndex(u, NUL);
    FirstIndexFacts(u, NUL);
    assert t[..len] == u[..len];
    EndsAt(t, len);
  }

  /** A blank, or a zero with more of its group behind it, does not count. */
  lemma SkippedCharacter(s: string, sep: char)
    requires s != "" && sep != ' ' && sep != '0'
    requires s[0] == ' ' || (s[0] == '0' && |s| > 1 && s[1] != sep)
    ensures StripAll(s, sep) == StripAll(s[1..], sep)
  {
    var k := FirstIndex(s, sep);
    assert s[..k][1..] == s[1..][..k - 1];
    assert s[k..] == s[1..][k - 1..];
    if k < |s| {
      assert s[k + 1..] == s[1..][k..];
    }
  }

  /** The first group has nothing to strip. */
  predicate Kept(s: string, sep: char) {
    s != "" ==> s[0] != ' ' && (s[0] == '0' ==> |s| == 1 || s[1] == sep)
  }

  lemma KeptGroup(s: string, sep: char)
    requires Kept(s, sep)
    ensures var k := FirstIndex(s, sep);
      StripAll(s, sep) == if k < |s| then s[..k] + ([sep] + StripAll(s[k + 1..], sep)) else s
  {
    var k := FirstIndex(s, sep);
    assert StripGroup(s[..k]) == s[..k];
    if k == |s| {
      assert s[..k] + "" == s;
    }
  }

  /** The strip loop at a group: the groups before are done, the rest is still to strip. */
  ghost predicate Stripping(done: seq<char>, rest: seq<char>, sep: char, goal: string) {
    Ends(rest) && Endless(done) && done + StripAll(CString(rest), sep) == goal
  }

  /** Moving up what is left of the group changes nothing. */
  lemma StrippingMoved(done: seq<char>, before: seq<char>, rest: seq<char>, sep: char, goal: string)
    requires Stripping(done, before, sep, goal)
    requires Ends(rest) && StripAll(CString(rest), sep) == StripAll(CString(before), sep)
    ensures Stripping(done, rest, sep, goal)
  {
    hide StripAll;
    hide CString;
  }

  /** A stripped group is done. */
  lemma StrippedGroup(d: seq<char>, t: seq<char>, sep: char, goal: string)
    requires Stripping(d, t, sep, goal) && sep != NUL && Kept(CString(t), sep)
    ensures var s := CString(t);
      var k := FirstIndex(s, sep);
      if k < |s| then k + 1 < |t| && Stripping(d + t[..k + 1], t[k + 1..], sep, goal) && |CString(t[k + 1..])| < |s|
      else Ends(d + t) && CString(d + t) == goal
  {
    hide StripAll;
    hide CString;
    hide Ends;
    hide Endless;
    hide Kept;
    hide FirstIndex;
    hide StripGroup;
    var s := CString(t);
    var k := FirstIndex(s, sep);
    KeptGroup(s, sep);
    if k < |s| {
      CStringAfter(t, k, sep);
      EndlessBoth(d, t[..k + 1]);
      Regroup(d, s[..k], [sep], StripAll(s[k + 1..], sep));
    } else {
      CStringBehind(d, t);
    }
  }

  lemma StrippingStarts(b: seq<char>, sep: char)
    requires Ends(b)
    ensures Stripping([], b, sep, StripAll(CString(b), sep)) && [] + b == b
  {
    hide StripAll;
    assert [] + StripAll(CString(b), sep) == StripAll(CString(b), sep);
  }

  lemma Split(b: seq<char>, done: seq<char>, rest: seq<char>, n: nat)
    requires b == done + rest && n == |done|
    ensures b[..n] == done && b[n..] == rest
  {
  }

  /** One round of the loop, on the text of the whole buffer. */
  lemma Advance(b: seq<char>, d: seq<char>, t: seq<char>, sep: char, goal: string)
    requires b == d + t && Stripping(d, t, sep, goal) && sep != NUL && Kept(CString(t), sep)
    ensures var k := FirstIndex(CString(t), sep);
      if k == |CString(t)| then Ends(b) && CString(b) == goal
      else
        && k + 1 < |t| && b == (d + t[..k + 1]) + t[k + 1..] && |d + t[..k + 1]| == |d| + k + 1
        && Stripping(d + t[..k + 1], t[k + 1..], sep, goal) && |CString(t[k + 1..])| < |CString(t)|
  {
    hide *;
    StrippedGroup(d, t, sep, goal);
  }

  /** Strip blanks and leading zeros of every group of the string in the buffer, moving the rest up each time. */
  method StripGroups(tmp: array<char>, sep: char)
    requires Ends(tmp[..]) && sep != NUL && sep != ' ' && sep != '0'
    modifies tmp
    ensures Ends(tmp[..]) && CString(tmp[..]) == StripAll(CString(old(tmp[..])), sep)
  {
    hide *;
    ghost var goal := StripAll(CString(tmp[..]), sep);
    var start: nat := 0;
    ghost var done, rest := [], tmp[..];
    StrippingStarts(tmp[..], sep);
    while true
      invariant start == |done| && tmp[..] == done + rest && Stripping(done, rest, sep, goal)
      decreases |CString(rest)|
    {
      Split(tmp[..], done, rest, start);
      StrippingEnds(done, rest, sep, goal);
      StripFirst(tmp, start, sep);
      StrippingMoved(done, rest, tmp[start..], sep, goal);
      rest := tmp[start..];
      Whole(tmp, start, done, rest);
      Advance(tmp[..], done, rest, sep, goal);
      var text := CString(tmp[start..]);
      var k := FirstIndex(text, sep);
      if k == |text| {
        break;
      }
      start := start + k + 1;
      done, rest := done + rest[..k + 1], rest[k + 1..];
    }
  }

  /** Strip the group at start, moving the rest up. */
  method StripFirst(tmp: array<char>, start: nat, sep: char)
    requires start < tmp.Length && Ends(tmp[start..]) && sep != NUL && sep != ' ' && sep != '0'
    modifies tmp
    ensures tmp[..start] == old(tmp[..start])
    ensures |CString(tmp[start..])| <= |CString(old(tmp[start..]))|
    ensures Ends(tmp[start..]) && Kept(CString(tmp[start..]), sep)
    ensures StripAll(CString(tmp[start..]), sep) == StripAll(CString(old(tmp[start..])), sep)
  {
    hide *;
    var skip := SkipZeros(tmp, start, sep);
    CopyString(tmp, start, skip);
  }

  lemma Whole(a: array<char>, i: nat, done: seq<char>, rest: seq<char>)
    requires i <= a.Length && a[..i] == done && a[i..] == rest
    ensures a[..] == done + rest
  {
  }

  lemma StrippingEnds(done: seq<char>, rest: seq<char>, sep: char, goal: string)
    requires Stripping(done, rest, sep, goal)
    ensures Ends(rest) && |rest| > 0
  {
  }

  /** Past the blanks and the leading zeros of the group at start. */
  method SkipZeros(tmp: array<char>, start: nat, sep: char) returns (skip: nat)
    requires start < tmp.Length && Ends(tmp[start..]) && sep != NUL && sep != ' ' && sep != '0'
    ensures start <= skip < tmp.Length && Ends(tmp[skip..])
    ensures |CString(tmp[skip..])| <= |CString(tmp[start..])|
    ensures StripAll(CString(tmp[skip..]), sep) == StripAll(CString(tmp[start..]), sep)
    ensures Kept(CString(tmp[skip..]), sep)
  {
    hide FirstIndex;
    hide CString;
    hide StripAll;
    hide StripGroup;
    hide Ends;
    skip := start;
    NextInString(tmp[..], skip);
    while tmp[skip] == ' ' || (tmp[skip] == '0' && tmp[skip + 1] != sep && tmp[skip + 1] != NUL)
      invariant start <= skip < tmp.Length && Ends(tmp[skip..])
      invariant tmp[skip] != NUL ==> skip + 1 < tmp.Length
      invariant |CString(tmp[skip..])| <= |CString(tmp[start..])|
      invariant StripAll(CString(tmp[skip..]), sep) == StripAll(CString(tmp[start..]), sep)
      decreases tmp.Length - skip
    {
      NextInString(tmp[..], skip);
      SkippedCharacter(CString(tmp[skip..]), sep);
      skip := skip + 1;
      NextInString(tmp[..], skip);
    }
    NextInString(tmp[..], skip);
  }

  lemma Regroup(a: string, b: string, c: string, d: string)
    ensures a + (b + (c + d)) == a + (b + c) + d
  {
  }
}
