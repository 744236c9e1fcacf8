/**
  The list's selection sort and its priority insertion, on plain sequences.
  A compare function answers > 0 when its first argument belongs after its second.
 */
module Sorting {
  import opened Common

  /** The best candidate for position last among s[..j] and s[last]; the latest strict improvement wins. */
  function Best<X>(s: seq<X>, last: nat, j: nat, cmp: (X, X) -> int): (b: nat)
    requires j <= last < |s|
    ensures b < j || b == last
  {
    if j == 0 then last
    else
      var b := Best(s, last, j - 1, cmp);
      if cmp(s[j - 1], s[b]) > 0 then j - 1 else b
  }

  function SwapAt<X>(s: seq<X>, p: nat, q: nat): (r: seq<X>)
    requires p < |s| && q < |s|
    ensures |r| == |s|
  {
    s[p := s[q]][q := s[p]]
  }

  /** Settle the positions i, i - 1, .., 1 of s, from the back. */
  function SortFrom<X>(s: seq<X>, i: nat, cmp: (X, X) -> int): (r: seq<X>)
    requires i < |s|
    ensures |r| == |s|
    decreases i
  {
    if i == 0 then s else SortFrom(SwapAt(s, i, Best(s, i, i, cmp)), i - 1, cmp)
  }

  function SelectionSort<X>(s: seq<X>, cmp: (X, X) -> int): (r: seq<X>)
    ensures |r| == |s|
  {
    if s == [] then s else SortFrom(s, |s| - 1, cmp)
  }

  ghost predicate Sorted<X>(s: seq<X>, cmp: (X, X) -> int) {
    forall i, j :: 0 <= i < j < |s| ==> cmp(s[i], s[j]) <= 0
  }

  /** "> 0" is a strict order on the elements of s. */
  ghost predicate StrictOrder<X>(s: seq<X>, cmp: (X, X) -> int) {
    && (forall x :: x in s ==> cmp(x, x) <= 0)
    && (forall x, y, z :: x in s && y in s && z in s && cmp(x, y) > 0 && cmp(y, z) > 0 ==> cmp(x, z) > 0)
  }

  lemma OrderAt<X>(s: seq<X>, cmp: (X, X) -> int, i: nat, j: nat, k: nat)
    requires StrictOrder(s, cmp) && i < |s| && j < |s| && k < |s|
    ensures cmp(s[i], s[i]) <= 0
    ensures cmp(s[i], s[j]) > 0 && cmp(s[j], s[k]) > 0 ==> cmp(s[i], s[k]) > 0
  {
    assert s[i] in s && s[j] in s && s[k] in s;
  }

  lemma {:induction false} BestIsBest<X>(s: seq<X>, last: nat, j: nat, cmp: (X, X) -> int, k: nat)
    requires j <= last < |s| && StrictOrder(s, cmp)
    requires k < j || k == last
    ensures cmp(s[k], s[Best(s, last, j, cmp)]) <= 0
  {
    hide StrictOrder;
    if j > 0 {
      var b := Best(s, last, j - 1, cmp);
      if k != j - 1 {
        BestIsBest(s, last, j - 1, cmp, k);
      }
      OrderAt(s, cmp, k, j - 1, b);
      OrderAt(s, cmp, j - 1, k, b);
    } else {
      OrderAt(s, cmp, k, k, k);
    }
  }

  lemma SwapAtElement<X>(s: seq<X>, p: nat, q: nat, k: nat)
    requires p < |s| && q < |s| && k < |s|
    ensures SwapAt(s, p, q)[k] == s[if k == p then q else if k == q then p else k]
  {
  }

  lemma SwapAtPermutes<X>(s: seq<X>, p: nat, q: nat)
    requires p < |s| && q < |s|
    ensures multiset(SwapAt(s, p, q)) == multiset(s)
  {
    assert multiset(s[p := s[q]]) == multiset(s) - multiset{s[p]} + multiset{s[q]};
  }

  lemma SameElements<X>(s: seq<X>, t: seq<X>)
    requires multiset(s) == multiset(t)
    ensures forall x :: x in s <==> x in t
  {
    forall x ensures x in s <==> x in t {
      assert x in s <==> x in multiset(s);
      assert x in t <==> x in multiset(t);
    }
  }

  lemma {:induction false} SortFromPermutes<X>(s: seq<X>, i: nat, cmp: (X, X) -> int)
    requires i < |s|
    ensures multiset(SortFrom(s, i, cmp)) == multiset(s)
    decreases i
  {
    if i > 0 {
      var t := SwapAt(s, i, Best(s, i, i, cmp));
      SwapAtPermutes(s, i, Best(s, i, i, cmp));
      SortFromPermutes(t, i - 1, cmp);
    }
  }

  lemma StrictOrderPermutes<X>(s: seq<X>, t: seq<X>, cmp: (X, X) -> int)
    requires multiset(s) == multiset(t) && StrictOrder(s, cmp)
    ensures StrictOrder(t, cmp)
  {
    SameElements(s, t);
  }

  /** Every element behind i is in order with all before it. */
  ghost predicate SortedBehind<X>(s: seq<X>, i: int, cmp: (X, X) -> int) {
    forall p, q :: 0 <= p < q < |s| && i < q ==> cmp(s[p], s[q]) <= 0
  }

  lemma SwapSorts<X>(s: seq<X>, i: nat, cmp: (X, X) -> int)
    requires i < |s| && StrictOrder(s, cmp) && SortedBehind(s, i, cmp)
    ensures SortedBehind(SwapAt(s, i, Best(s, i, i, cmp)), i - 1, cmp)
  {
    hide StrictOrder;
    hide SwapAt;
    hide Best;
    var b := Best(s, i, i, cmp);
    BestInRange(s, i, cmp);
    var t := SwapAt(s, i, b);
    forall p, q | 0 <= p < q < |t| && i - 1 < q ensures cmp(t[p], t[q]) <= 0 {
      SwapAtElement(s, i, b, p);
      SwapAtElement(s, i, b, q);
      if q == i {
        BestIsBest(s, i, i, cmp, if p == b then i else p);
      }
    }
  }

  lemma BestInRange<X>(s: seq<X>, i: nat, cmp: (X, X) -> int)
    requires i < |s|
    ensures Best(s, i, i, cmp) <= i
  {
  }

  lemma {:induction false} SortFromSorts<X>(s: seq<X>, i: nat, cmp: (X, X) -> int)
    requires i < |s| && StrictOrder(s, cmp) && SortedBehind(s, i, cmp)
    ensures Sorted(SortFrom(s, i, cmp), cmp)
    decreases i
  {
    hide StrictOrder;
    hide SwapAt;
    if i > 0 {
      var b := Best(s, i, i, cmp);
      SwapAtPermutes(s, i, b);
      StrictOrderPermutes(s, SwapAt(s, i, b), cmp);
      SwapSorts(s, i, cmp);
      SwapAtLength(s, i, b);
      hide SortedBehind;
      SortFromSorts(SwapAt(s, i, b), i - 1, cmp);
    }
  }

  lemma SwapAtLength<X>(s: seq<X>, p: nat, q: nat)
    requires p < |s| && q < |s|
    ensures |SwapAt(s, p, q)| == |s|
  {
  }

  lemma {:induction false} SortFromFixes<X>(s: seq<X>, i: nat, cmp: (X, X) -> int)
    requires i < |s| && Sorted(s, cmp)
    ensures SortFrom(s, i, cmp) == s
    decreases i
  {
    if i > 0 {
      BestOfSorted(s, i, i, cmp);
      assert SwapAt(s, i, i) == s;
      SortFromFixes(s, i - 1, cmp);
    }
  }

  lemma {:induction false} BestOfSorted<X>(s: seq<X>, last: nat, j: nat, cmp: (X, X) -> int)
    requires j <= last < |s| && Sorted(s, cmp)
    ensures Best(s, last, j, cmp) == last
  {
    if j > 0 {
      BestOfSorted(s, last, j - 1, cmp);
    }
  }

  /** The sort yields a sorted permutation, and leaves exactly the sorted sequences unchanged. */
  lemma SelectionSortIsSort<X>(s: seq<X>, cmp: (X, X) -> int)
    requires StrictOrder(s, cmp)
    ensures Sorted(SelectionSort(s, cmp), cmp)
    ensures multiset(SelectionSort(s, cmp)) == multiset(s)
    ensures SelectionSort(s, cmp) == s <==> Sorted(s, cmp)
  {
    hide StrictOrder;
    hide SortFrom;
    if s != [] {
      SortFromSorts(s, |s| - 1, cmp);
      SortFromPermutes(s, |s| - 1, cmp);
      if Sorted(s, cmp) {
        SortFromFixes(s, |s| - 1, cmp);
      }
    }
  }

  // ----- priority insertion ----------------------------------------------------------------

  /** s with x put in at position i. */
  function InsertAt<X>(s: seq<X>, i: nat, x: X): (r: seq<X>)
    requires i <= |s|
    ensures |r| == |s| + 1
  {
    s[..i] + [x] + s[i..]
  }

  /** Behind the last of the first k entries that add does not precede; NULL entries are passed over. */
  function EnqueuePosition<T>(s: seq<Option<T>>, k: nat, add: Option<T>, cmp: (Option<T>, Option<T>) -> int): (p: nat)
    requires k <= |s|
    ensures p <= k
  {
    if k == 0 then 0
    else if s[k - 1].Some? && cmp(add, s[k - 1]) >= 0 then k
    else EnqueuePosition(s, k - 1, add, cmp)
  }

  /** compare is a total preorder on the elements of s. */
  ghost predicate TotalPreorder<X>(s: seq<X>, cmp: (X, X) -> int) {
    && (forall x, y :: x in s && y in s ==> (cmp(x, y) > 0 <==> cmp(y, x) < 0))
    && (forall x, y, z :: x in s && y in s && z in s && cmp(x, y) <= 0 && cmp(y, z) <= 0 ==> cmp(x, z) <= 0)
  }

  lemma PreorderAt<X>(s: seq<X>, cmp: (X, X) -> int, i: nat, j: nat, k: nat)
    requires TotalPreorder(s, cmp) && i < |s| && j < |s| && k < |s|
    ensures cmp(s[i], s[j]) > 0 <==> cmp(s[j], s[i]) < 0
    ensures cmp(s[i], s[j]) <= 0 && cmp(s[j], s[k]) <= 0 ==> cmp(s[i], s[k]) <= 0
  {
    assert s[i] in s && s[j] in s && s[k] in s;
  }

  /** In a sorted list the new item goes behind everything that is not after it, its equals included. */
  lemma {:induction false} EnqueueSplits<T>(s: seq<Option<T>>, k: nat, add: Option<T>,
    cmp: (Option<T>, Option<T>) -> int)
    requires k <= |s| && Sorted(s, cmp) && TotalPreorder(s + [add], cmp)
    requires forall x :: x in s ==> x.Some?
    ensures var p := EnqueuePosition(s, k, add, cmp);
      && (forall i :: 0 <= i < p ==> cmp(s[i], add) <= 0)
      && (forall i :: p <= i < k ==> cmp(add, s[i]) < 0)
  {
    hide TotalPreorder;
    if k > 0 {
      if cmp(add, s[k - 1]) >= 0 {
        forall i | 0 <= i < k ensures cmp(s[i], add) <= 0 {
          PreorderAt(s + [add], cmp, |s|, k - 1, 0);
          PreorderAt(s + [add], cmp, k - 1, |s|, 0);
          PreorderAt(s + [add], cmp, i, k - 1, |s|);
        }
      } else {
        EnqueueSplits(s, k - 1, add, cmp);
      }
    }
  }

  lemma EnqueueKeepsSorted<T>(s: seq<Option<T>>, add: Option<T>, cmp: (Option<T>, Option<T>) -> int)
    requires Sorted(s, cmp) && TotalPreorder(s + [add], cmp)
    requires forall x :: x in s ==> x.Some?
    ensures Sorted(InsertAt(s, EnqueuePosition(s, |s|, add, cmp), add), cmp)
  {
    hide EnqueuePosition;
    hide TotalPreorder;
    EnqueueSplits(s, |s|, add, cmp);
    var p := EnqueuePosition(s, |s|, add, cmp);
    var t := InsertAt(s, p, add);
    forall i, j | 0 <= i < j < |t| ensures cmp(t[i], t[j]) <= 0 {
      assert i != p ==> t[i] == s[if i < p then i else i - 1];
      assert j != p ==> t[j] == s[if j < p then j else j - 1];
    }
  }

  lemma EnqueueStep<T>(s: seq<Option<T>>, k: nat, add: Option<T>, cmp: (Option<T>, Option<T>) -> int)
    requires 0 < k <= |s|
    ensures EnqueuePosition(s, k, add, cmp) ==
      if s[k - 1].Some? && cmp(add, s[k - 1]) >= 0 then k else EnqueuePosition(s, k - 1, add, cmp)
    ensures EnqueuePosition(s, 0, add, cmp) == 0
  {
  }
}
