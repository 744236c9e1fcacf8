/**
  The doubly linked list with two embedded sentinels and a cursor.

  `spine` is the ghost sequence head, nodes, tail.  The contents are the data of the inner nodes and
  the cursor is a position on the spine, so every operation is specified on a plain sequence.
 */
module LinkedLists {
  import opened Common
  import opened Sorting

  class Node<T> {
    var next: Node?<T>
    var prev: Node?<T>
    var data: Option<T>     // None is the NULL data pointer

    constructor (data: Option<T>)
      ensures this.data == data && next == null && prev == null
    {
      this.data, next, prev := data, null, null;
    }
  }

  /** next and prev are mutually inverse along s, and NULL at its ends. */
  ghost predicate Linked<T>(s: seq<Node<T>>)
    reads s
  {
    && (forall i {:trigger s[i].next} :: 0 <= i < |s| ==> s[i].next == if i + 1 < |s| then s[i + 1] else null)
    && (forall i {:trigger s[i].prev} :: 0 <= i < |s| ==> s[i].prev == if i > 0 then s[i - 1] else null)
    && Distinct(s)
  }

  ghost function Data<T>(s: seq<Node<T>>): (r: seq<Option<T>>)
    reads s
    ensures |r| == |s|
  {
    seq(|s|, i requires 0 <= i < |s| reads s => s[i].data)
  }

  /** s without the element at position i. */
  function RemoveAt<X>(s: seq<X>, i: nat): (r: seq<X>)
    requires i < |s|
    ensures |r| == |s| - 1
  {
    s[..i] + s[i + 1..]
  }

  lemma {:induction false} FirstIndexFrom<X>(s: seq<X>, x: X, k: nat)
    requires k < |s| && k <= FirstIndex(s, x)
    ensures s[k] == x <==> FirstIndex(s, x) == k
  {
    if FirstIndex(s, x) > k {
      assert s[..FirstIndex(s, x)][k] == s[k];
    }
  }

  /** The last element moved to the front. */
  function Rolled<X>(s: seq<X>): (r: seq<X>) {
    if |s| < 2 then s else [s[|s| - 1]] + s[..|s| - 1]
  }

  /** The first element moved to the end. */
  function Unrolled<X>(s: seq<X>): (r: seq<X>) {
    if |s| < 2 then s else s[1..] + [s[0]]
  }

  lemma RollsAreInverse<X>(s: seq<X>)
    ensures Unrolled(Rolled(s)) == s && Rolled(Unrolled(s)) == s
    ensures |Rolled(s)| == |s| && (s != [] ==> Rolled(s)[0] == s[|s| - 1])
    ensures forall k :: 0 <= k < |s| - 1 ==> Rolled(s)[k + 1] == s[k]
  {
  }

  /** node has been linked in between s[i - 1] and s[i]. */
  lemma InsertLinked<T>(s: seq<Node<T>>, i: nat, node: Node<T>)
    requires 0 < i < |s| && Distinct(s) && node !in s
    requires node.prev == s[i - 1] && node.next == s[i]
    requires forall k {:trigger s[k].next} :: 0 <= k < |s| ==>
      s[k].next == if k == i - 1 then node else if k + 1 < |s| then s[k + 1] else null
    requires forall k {:trigger s[k].prev} :: 0 <= k < |s| ==>
      s[k].prev == if k == i then node else if k > 0 then s[k - 1] else null
    ensures Linked(InsertAt(s, i, node))
  {
    var t := InsertAt(s, i, node);
    forall k | 0 <= k < |t|
      ensures t[k].next == if k + 1 < |t| then t[k + 1] else null
      ensures t[k].prev == if k > 0 then t[k - 1] else null
    {
      assert t[k] == if k < i then s[k] else if k == i then node else s[k - 1];
    }
    InsertDistinct(s, i, node);
  }

  lemma InsertedAround<X>(s: seq<X>, i: nat, x: X)
    requires 0 < i < |s|
    ensures var t := InsertAt(s, i, x); t[i - 1] == s[i - 1] && t[i] == x && t[i + 1] == s[i]
  {
  }

  lemma InsertedElements<X>(s: seq<X>, i: nat, x: X)
    requires i <= |s|
    ensures InsertAt(s, i, x)[i] == x && forall y :: y in InsertAt(s, i, x) <==> y == x || y in s
  {
  }

  lemma RemovedAround<X>(s: seq<X>, i: nat, k: nat)
    requires i < |s| && 0 < k < |s| - 1
    ensures var t := RemoveAt(s, i); t[k - 1] in s && t[k] in s
  {
  }

  lemma InsertDistinct<X>(s: seq<X>, i: nat, x: X)
    requires i <= |s| && Distinct(s) && x !in s
    ensures Distinct(InsertAt(s, i, x))
  {
  }

  /** The links around s[i] have been closed. */
  lemma RemoveLinked<T>(s: seq<Node<T>>, i: nat)
    requires 0 < i < |s| - 1 && Distinct(s)
    requires forall k {:trigger s[k].next} :: 0 <= k < |s| && k != i ==>
      s[k].next == if k == i - 1 then s[i + 1] else if k + 1 < |s| then s[k + 1] else null
    requires forall k {:trigger s[k].prev} :: 0 <= k < |s| && k != i ==>
      s[k].prev == if k == i + 1 then s[i - 1] else if k > 0 then s[k - 1] else null
    ensures Linked(RemoveAt(s, i))
  {
    var t := RemoveAt(s, i);
    forall k | 0 <= k < |t|
      ensures t[k].next == if k + 1 < |t| then t[k + 1] else null
      ensures t[k].prev == if k > 0 then t[k - 1] else null
    {
      assert t[k] == if k < i then s[k] else s[k + 1];
    }
    RemoveDistinct(s, i);
  }

  lemma RemoveDistinct<X>(s: seq<X>, i: nat)
    requires i < |s| && Distinct(s)
    ensures Distinct(RemoveAt(s, i)) && s[i] !in RemoveAt(s, i)
  {
    var t := RemoveAt(s, i);
    assert forall k :: 0 <= k < |t| ==> t[k] == if k < i then s[k] else s[k + 1];
  }

  class LinkedList<T(==)> {
    const head: Node<T>
    const tail: Node<T>
    var current: Node?<T>
    ghost var spine: seq<Node<T>>
    /** Position of current: 0 on head, 1.. on a node, |Items()| + 1 on tail, None when NULL. */
    ghost var cursor: Option<nat>

    /** The nodes form a list; the cursor may be anywhere. */
    ghost predicate Formed()
      reads this`spine, spine
    {
      && 2 <= |spine| && spine[0] == head && spine[|spine| - 1] == tail
      && Linked(spine)
      && head.data == None && tail.data == None
    }

    ghost predicate Valid()
      reads this, spine
    {
      && Formed()
      && (match cursor case None => current == null case Some(p) => p < |spine| && current == spine[p])
    }

    /** The data of the nodes between the sentinels. */
    ghost function Items(): (r: seq<Option<T>>)
      requires Formed()
      reads this`spine, spine
      ensures |r| == |spine| - 2
    {
      Data(spine[1..|spine| - 1])
    }

    constructor ()
      ensures Valid() && fresh(this) && fresh(set n | n in spine)
      ensures Items() == [] && cursor == Some(0)
    {
      var h := new Node<T>(None);
      var t := new Node<T>(None);
      h.next := t;
      t.prev := h;
      head, tail, current := h, t, h;
      spine, cursor := [h, t], Some(0);
    }

    method Rewind()
      requires Formed()
      modifies this`current, this`cursor
      ensures Valid()
      ensures cursor == Some(if Items() == [] then 0 else 1)
    {
      if head.next != tail {
        current, cursor := head.next, Some(1);
      } else {
        current, cursor := head, Some(0);
      }
    }

    method End()
      requires Formed()
      modifies this`current, this`cursor
      ensures Valid()
      ensures cursor == Some(if Items() == [] then 1 else |Items()|)
    {
      if tail.prev != head {
        current, cursor := tail.prev, Some(|spine| - 2);
      } else {
        current, cursor := tail, Some(|spine| - 1);
      }
    }

    /** Moving on from the last node fails, but moving on from the tail sentinel leaves the list. */
    method Next() returns (ok: bool)
      requires Valid()
      modifies this`current, this`cursor
      ensures Valid()
      ensures match old(cursor)
        case None => !ok && current == null
        case Some(p) =>
          if p == |Items()| then !ok && cursor == Some(p)
          else ok && cursor == if p <= |Items()| then Some(p + 1) else None
    {
      if current == null {
        return false;
      }
      if current.next != tail {
        current := current.next;
        cursor := if current == null then None else Some(cursor.value + 1);
        return true;
      }
      return false;
    }

    method Prev() returns (ok: bool)
      requires Valid()
      modifies this`current, this`cursor
      ensures Valid()
      ensures match old(cursor)
        case None => !ok && current == null
        case Some(p) =>
          if p == 1 then !ok && cursor == Some(p)
          else ok && cursor == if p > 0 then Some(p - 1) else None
    {
      if current == null {
        return false;
      }
      if current.prev != head {
        current := current.prev;
        cursor := if current == null then None else Some(cursor.value - 1);
        return true;
      }
      return false;
    }

    method Get() returns (data: Option<T>)
      requires Valid()
      ensures data == match cursor
        case None => None
        case Some(p) => if 1 <= p <= |Items()| then Items()[p - 1] else None
    {
      if current == null {
        return None;
      }
      return current.data;
    }

    ghost function Nodes(): set<Node<T>>
      reads this`spine
    {
      set x | x in spine
    }

    /** Every object of the list that was not in it before is newly allocated. */
    twostate predicate OnlyFreshNodes()
      reads this`spine
    {
      fresh(Nodes() - old(Nodes()))
    }

    /** The ghost half of linking node in at position i. */
    lemma Inserted(node: Node<T>, before: seq<Node<T>>, items: seq<Option<T>>, i: nat)
      requires 0 < i < |before| && before[0] == head && before[|before| - 1] == tail && Distinct(before)
      requires node !in before && spine == InsertAt(before, i, node)
      requires node.prev == before[i - 1] && node.next == before[i]
      requires forall k {:trigger before[k].next} :: 0 <= k < |before| ==>
        before[k].next == if k == i - 1 then node else if k + 1 < |before| then before[k + 1] else null
      requires forall k {:trigger before[k].prev} :: 0 <= k < |before| ==>
        before[k].prev == if k == i then node else if k > 0 then before[k - 1] else null
      requires Data(before[1..|before| - 1]) == items && head.data == None && tail.data == None
      ensures Formed() && Items() == InsertAt(items, i - 1, node.data)
    {
      hide Linked;
      InsertLinked(before, i, node);
      InsertDistinct(before, i, node);
      assert spine[i] == node;
      assert spine[1..|spine| - 1] == InsertAt(before[1..|before| - 1], i - 1, node);
    }

    lemma ItemsAt()
      requires Formed()
      ensures forall k {:trigger spine[k].data} :: 0 < k < |spine| - 1 ==> spine[k].data == Items()[k - 1]
    {
    }

    lemma Positions()
      requires Formed()
      ensures Distinct(spine)
      ensures forall i, j :: 0 <= i < |spine| && 0 <= j < |spine| && spine[i] == spine[j] ==> i == j
    {
    }

    lemma Neighbours(i: nat)
      requires Formed() && i < |spine|
      ensures spine[i].next == if i + 1 < |spine| then spine[i + 1] else null
      ensures spine[i].prev == if i > 0 then spine[i - 1] else null
      ensures spine[i] == head <==> i == 0
      ensures spine[i] == tail <==> i == |spine| - 1
    {
    }

    /** Link node in before the node at, which is spine[i]. */
    method LinkBefore(node: Node<T>, at: Node<T>, ghost i: nat, ghost left: Node<T>)
      requires Formed() && node !in spine && 0 < i < |spine| && at == spine[i] && left == spine[i - 1]
      modifies this`spine, node`next, node`prev, left`next, at`prev
      ensures spine == InsertAt(old(spine), i, node) && spine[i] == node
      ensures forall x :: x in spine <==> x == node || x in old(spine)
      ensures Formed() && Items() == InsertAt(old(Items()), i - 1, old(node.data))
    {
      hide InsertAt;
      ghost var before, items := spine, Items();
      Neighbours(i);
      Positions();
      node.next := at;
      node.prev := at.prev;
      if at.prev != null {
        at.prev.next := node;
      }
      at.prev := node;
      spine := InsertAt(spine, i, node);
      assert Data(before[1..|before| - 1]) == items;
      Inserted(node, before, items, i);
      InsertedElements(before, i, node);
    }

    /** The position after which AddNode puts the new node. */
    ghost function AddPosition(): (q: nat)
      requires Valid() && cursor.Some?
      reads this, spine
    {
      if cursor.value == |spine| - 1 then cursor.value - 1 else cursor.value
    }

    method StepOffTail()
      requires Valid() && current != null
      modifies this`current, this`cursor
      ensures Valid() && cursor == Some(old(AddPosition())) && current != null && current.next != null
      ensures current.next == spine[cursor.value + 1]
    {
      if current == tail {
        current, cursor := current.prev, Some(cursor.value - 1);
      }
    }

    /** Add a node after the cursor, or after the last node when the cursor is on the tail; move onto it. */
    method AddNode(add: Option<T>) returns (ok: bool)
      requires Valid()
      modifies this`current, this`cursor, this`spine, Nodes()
      ensures Valid() && OnlyFreshNodes()
      ensures ok == old(cursor.Some?)
      ensures !ok ==> Items() == old(Items()) && cursor == None
      ensures ok ==>
        Items() == InsertAt(old(Items()), old(AddPosition()), add) && cursor == Some(old(AddPosition()) + 1)
    {
      hide Linked;
      hide InsertAt;
      hide Data;
      if current == null {
        return false;
      }
      StepOffTail();
      var node := new Node<T>(add);
      assert Items() == old(Items());
      LinkBefore(node, current.next, cursor.value + 1, current);
      current, cursor := node, Some(cursor.value + 1);
      return true;
    }

    /** The position at which InsertNode puts the new node. */
    ghost function InsertPosition(): (q: nat)
      requires Valid() && cursor.Some?
      reads this, spine
    {
      if cursor.value == 0 then 1 else cursor.value
    }

    method StepOffHead()
      requires Valid() && current != null
      modifies this`current, this`cursor
      ensures Valid() && cursor == Some(old(InsertPosition())) && current != null
    {
      if current == head {
        current, cursor := current.next, Some(1);
      }
    }

    /** Add a node before the cursor, or before the first node when the cursor is on the head; move onto it. */
    method InsertNode(add: Option<T>) returns (ok: bool)
      requires Valid()
      modifies this`current, this`cursor, this`spine, Nodes()
      ensures Valid() && OnlyFreshNodes()
      ensures ok == (add.Some? && old(cursor.Some?))
      ensures !ok ==> Items() == old(Items()) && cursor == old(cursor)
      ensures ok ==>
        Items() == InsertAt(old(Items()), old(InsertPosition()) - 1, add) && cursor == Some(old(InsertPosition()))
    {
      hide Linked;
      hide InsertAt;
      hide Data;
      if add == None || current == null {
        return false;
      }
      StepOffHead();
      var node := new Node<T>(add);
      assert Items() == old(Items());
      LinkBefore(node, current, cursor.value, spine[cursor.value - 1]);
      current := node;
      return true;
    }

    /** The ghost half of taking the node at position i out. */
    lemma Removed(before: seq<Node<T>>, items: seq<Option<T>>, i: nat)
      requires 0 < i < |before| - 1 && before[0] == head && before[|before| - 1] == tail && Distinct(before)
      requires spine == RemoveAt(before, i)
      requires forall k {:trigger before[k].next} :: 0 <= k < |before| && k != i ==>
        before[k].next == if k == i - 1 then before[i + 1] else if k + 1 < |before| then before[k + 1] else null
      requires forall k {:trigger before[k].prev} :: 0 <= k < |before| && k != i ==>
        before[k].prev == if k == i + 1 then before[i - 1] else if k > 0 then before[k - 1] else null
      requires |items| == |before| - 2 && head.data == None && tail.data == None
      requires forall k {:trigger before[k].data} :: 0 < k < |before| - 1 && k != i ==> before[k].data == items[k - 1]
      ensures Formed() && Items() == RemoveAt(items, i - 1) && spine[i] == before[i + 1]
      ensures forall x :: x in spine ==> x in before
    {
      hide Linked;
      RemoveLinked(before, i);
      RemoveDistinct(before, i);
      assert spine[1..|spine| - 1] == RemoveAt(before[1..|before| - 1], i - 1);
    }

    /** Remove the node under the cursor and move to the next one. */
    method DeleteNode() returns (data: Option<T>)
      requires Valid()
      modifies this`current, this`cursor, this`spine, Nodes()
      ensures Valid() && OnlyFreshNodes()
      ensures match old(cursor)
        case None => data == None && Items() == old(Items()) && cursor == None
        case Some(p) =>
          if p == 0 || p == old(|Items()|) + 1 then data == None && Items() == old(Items()) && cursor == Some(p)
          else data == old(Items()[p - 1]) && Items() == RemoveAt(old(Items()), p - 1) && cursor == Some(p)
    {
      hide RemoveAt;
      hide Data;
      if current == null || current == head || current == tail {
        return None;
      }
      ghost var p := cursor.value;
      ghost var before, items := spine, Items();
      Neighbours(p);
      Positions();
      ItemsAt();
      var next, prev := current.next, current.prev;
      data := current.data;
      if prev != null {
        prev.next := next;
      }
      if next != null {
        next.prev := prev;
      }
      current.prev, current.next, current.data := null, null, None;
      current := next;
      spine := RemoveAt(spine, p);
      Removed(before, items, p);
    }

    /** Delete the first node holding data. */
    method Remove(data: Option<T>) returns (removed: Option<T>)
      requires Valid()
      modifies this`current, this`cursor, this`spine, Nodes()
      ensures Valid() && OnlyFreshNodes()
      ensures var k := FirstIndex(old(Items()), data);
        if k < old(|Items()|)
        then removed == data && Items() == RemoveAt(old(Items()), k) && cursor == Some(k + 1)
        else removed == None && Items() == old(Items()) && cursor == Some(old(|Items()|))
    {
      hide Linked;
      hide Data;
      hide RemoveAt;
      hide FirstIndex;
      hide LinkedList.Formed;
      Rewind();
      ghost var items := Items();
      ghost var k := 0;
      while true
        invariant Valid() && spine == old(spine) && Items() == items
        invariant if items == [] then cursor == Some(0) else k < |items| && cursor == Some(k + 1)
        invariant FirstIndex(items, data) >= k
        decreases |items| - k
      {
        var find := Get();
        assert k < |items| ==> find == items[k];
        if k < |items| {
          FirstIndexFrom(items, data, k);
        }
        if find == data {
          removed := DeleteNode();
          return;
        }
        var more := Next();
        if !more {
          return None;
        }
        k := k + 1;
      }
    }

    method Push(add: Option<T>) returns (ok: bool)
      requires Valid()
      modifies this`current, this`cursor, this`spine, Nodes()
      ensures Valid() && OnlyFreshNodes() && ok == add.Some?
      ensures ok ==> Items() == old(Items()) + [add] && cursor == Some(|Items()|)
      ensures !ok ==> Items() == old(Items())
    {
      if add == None {
        return false;
      }
      End();
      ok := AddNode(add);
    }

    method Pop() returns (data: Option<T>)
      requires Valid()
      modifies this`current, this`cursor, this`spine, Nodes()
      ensures Valid() && OnlyFreshNodes()
      ensures var items := old(Items());
        if items == [] then data == None && Items() == []
        else data == items[|items| - 1] && Items() == items[..|items| - 1]
    {
      End();
      data := DeleteNode();
    }

    method Shift() returns (data: Option<T>)
      requires Valid()
      modifies this`current, this`cursor, this`spine, Nodes()
      ensures Valid() && OnlyFreshNodes()
      ensures var items := old(Items());
        if items == [] then data == None && Items() == []
        else data == items[0] && Items() == items[1..]
    {
      Rewind();
      data := DeleteNode();
    }

    method Unshift(add: Option<T>) returns (ok: bool)
      requires Valid()
      modifies this`current, this`cursor, this`spine, Nodes()
      ensures Valid() && OnlyFreshNodes() && ok == add.Some?
      ensures ok ==> Items() == [add] + old(Items()) && cursor == Some(1)
      ensures !ok ==> Items() == old(Items())
    {
      if add == None {
        return false;
      }
      Rewind();
      ok := InsertNode(add);
    }

    method GetFirst() returns (data: Option<T>)
      requires Valid()
      modifies this`current, this`cursor
      ensures Valid() && cursor == Some(if Items() == [] then 0 else 1)
      ensures data == if Items() == [] then None else Items()[0]
    {
      Rewind();
      data := Get();
    }

    method GetNext() returns (data: Option<T>)
      requires Valid()
      modifies this`current, this`cursor
      ensures Valid()
      ensures match old(cursor)
        case None => data == None && cursor == None
        case Some(p) =>
          if p < |Items()| then cursor == Some(p + 1) && data == Items()[p]
          else data == None && (p == |Items()| ==> cursor == old(cursor))
    {
      var ok := Next();
      if !ok {
        return None;
      }
      data := Get();
    }

    method GetPrev() returns (data: Option<T>)
      requires Valid()
      modifies this`current, this`cursor
      ensures Valid()
      ensures match old(cursor)
        case None => data == None && cursor == None
        case Some(p) =>
          if p > 1 then cursor == Some(p - 1) && data == Items()[p - 2]
          else data == None && (p == 1 ==> cursor == old(cursor))
    {
      var ok := Prev();
      if !ok {
        return None;
      }
      data := Get();
    }

    /** Take a node out of the list, leaving its data and the cursor alone. */
    method Unlink(node: Node<T>, ghost i: nat, ghost left: Node<T>, ghost right: Node<T>)
      requires Formed() && 0 < i < |spine| - 1 && spine[i - 1..i + 2] == [left, node, right]
      modifies this`spine, node`next, node`prev, left`next, right`prev
      ensures Formed() && spine == RemoveAt(old(spine), i)
      ensures node !in spine && node.data == old(node.data)
      ensures Items() == RemoveAt(old(Items()), i - 1)
    {
      hide RemoveAt;
      hide Data;
      ghost var before, items := spine, Items();
      assert spine[i - 1..i + 2][0] == left && spine[i - 1..i + 2][1] == node && spine[i - 1..i + 2][2] == right;
      Neighbours(i);
      ItemsAt();
      var next, prev := node.next, node.prev;
      if next != null {
        next.prev := prev;
      }
      if prev != null {
        prev.next := next;
      }
      node.next, node.prev := null, null;
      spine := RemoveAt(spine, i);
      RemoveDistinct(before, i);
      Removed(before, items, i);
    }

    /** Step off the sentinel reached by End in an empty list; several nodes remain to be rolled if more. */
    method AtLastNode() returns (more: bool)
      requires Valid()
      modifies this`current, this`cursor
      ensures Valid() && more == (|Items()| > 1)
      ensures cursor == Some(|Items()|)
    {
      End();
      if current == tail {
        current, cursor := current.prev, Some(|spine| - 2);
      }
      if current == head {
        return false;
      }
      return current.prev != head;
    }

    method LinkFirst(node: Node<T>, ghost first: Node<T>)
      requires Valid() && cursor == Some(1) && |Items()| > 0 && node !in spine && first == current
      modifies this`spine, this`cursor, node`next, node`prev, head`next, first`prev
      ensures Valid() && cursor == Some(2) && spine == InsertAt(old(spine), 1, node)
      ensures Items() == InsertAt(old(Items()), 0, old(node.data))
    {
      hide Linked;
      hide Data;
      hide InsertAt;
      Neighbours(0);
      InsertedAround(spine, 1, node);
      LinkBefore(node, head.next, 1, head);
      cursor := Some(2);
    }

    method LinkLast(node: Node<T>, ghost last: Node<T>)
      requires Valid() && cursor == Some(|Items()|) && |Items()| > 0 && node !in spine && last == current
      modifies this`spine, this`cursor, node`next, node`prev, last`next, tail`prev
      ensures Valid() && cursor == old(cursor) && spine == InsertAt(old(spine), |old(spine)| - 1, node)
      ensures Items() == InsertAt(old(Items()), old(|Items()|), old(node.data))
    {
      hide Linked;
      hide Data;
      hide InsertAt;
      InsertedAround(spine, |spine| - 1, node);
      LinkBefore(node, tail, |spine| - 1, last);
    }

    /** Make the last node the first and stop behind it. */
    method Roll()
      requires Valid()
      modifies this`current, this`cursor, this`spine, Nodes()
      ensures Valid() && multiset(spine) == multiset(old(spine))
      ensures Items() == Rolled(old(Items()))
      ensures cursor == Some(Min(2, |Items()|))
    {
      hide Linked;
      hide Data;
      hide InsertAt;
      hide RemoveAt;
      var more := AtLastNode();
      if more {
        ghost var n := |Items()|;
        ghost var before, items := spine, Items();
        var node := current;
        ItemsAt();
        assert spine[n].data == items[n - 1];
        Unlink(node, n, spine[n - 1], tail);
        RemovedAround(before, n, 1);
        Rewind();
        LinkFirst(node, current);
        MovedNodes(before, n, 1);
        MovedToFront(items);
      }
    }

    /** Step off the sentinel reached by Rewind in an empty list. */
    method AtFirstNode() returns (more: bool)
      requires Valid()
      modifies this`current, this`cursor
      ensures Valid() && more == (|Items()| > 1)
      ensures cursor == Some(1)
    {
      Rewind();
      if current == head {
        current, cursor := current.next, Some(1);
      }
      if current == tail {
        return false;
      }
      return current.next != tail;
    }

    /** Make the first node the last and stop in front of it. */
    method UnRoll()
      requires Valid()
      modifies this`current, this`cursor, this`spine, Nodes()
      ensures Valid() && multiset(spine) == multiset(old(spine))
      ensures Items() == Unrolled(old(Items()))
      ensures cursor == Some(Max(1, |Items()| - 1))
    {
      hide Linked;
      hide Data;
      hide InsertAt;
      hide RemoveAt;
      var more := AtFirstNode();
      if more {
        ghost var n := |Items()|;
        ghost var before, items := spine, Items();
        var node := current;
        ItemsAt();
        assert spine[1].data == items[0];
        Unlink(node, 1, head, spine[2]);
        RemovedAround(before, 1, n);
        End();
        LinkLast(node, current);
        MovedNodes(before, 1, n);
        MovedToEnd(items);
      }
    }

    /** Let the old neighbours of one point to two and those of two to one. */
    method RelinkNeighbours(one: Node<T>, two: Node<T>, ghost nodes: set<Node<T>>)
      requires one in nodes && two in nodes
      requires forall x :: x in nodes ==> (x.next == null || x.next in nodes) && (x.prev == null || x.prev in nodes)
      requires two.prev != null ==> two.next != null
      modifies nodes
      ensures forall x :: x in nodes ==> x.data == old(x.data)
      ensures forall x :: x in nodes ==>
        x.next == if x == old(two.prev) then one else if x == old(one.prev) then two else old(x.next)
      ensures forall x :: x in nodes ==>
        x.prev == if x == old(two.next) && old(two.prev) != null then one else if x == old(one.next) then two
          else old(x.prev)
    {
      var firstprev, firstnext := one.prev, one.next;
      var secondprev, secondnext := two.prev, two.next;
      if firstprev != null {
        firstprev.next := two;
      }
      if firstnext != null {
        firstnext.prev := two;
      }
      if secondprev != null {
        secondprev.next := one;
      }
      if secondprev != null {
        secondnext.prev := one;
      }
    }

    /** Give one and two each other's old links, which are passed in, and repair them if they are neighbours. */
    method RelinkSelves(
      one: Node<T>, two: Node<T>,
      firstprev: Node?<T>, firstnext: Node?<T>, secondprev: Node?<T>, secondnext: Node?<T>)
      requires one != two
      modifies one`next, one`prev, two`next, two`prev
      ensures one.next == if firstprev == two then two else secondnext
      ensures one.prev == if firstnext == two then two else secondprev
      ensures two.next == if secondprev == one then one else firstnext
      ensures two.prev == if secondnext == one then one else firstprev
    {
      one.next := secondnext;
      one.prev := secondprev;
      two.next := firstnext;
      two.prev := firstprev;
      if firstnext == two {
        one.prev := two;
      }
      if firstprev == two {
        one.next := two;
      }
      if secondprev == one {
        two.next := one;
      }
      if secondnext == one {
        two.prev := one;
      }
    }

    lemma LinksStayInside(nodes: set<Node<T>>)
      requires Formed() && nodes == Nodes()
      ensures forall k {:trigger spine[k]} :: 0 <= k < |spine| ==> spine[k] in nodes
      ensures forall x :: x in nodes ==> (x.next == null || x.next in nodes) && (x.prev == null || x.prev in nodes)
    {
      forall x | x in nodes ensures (x.next == null || x.next in nodes) && (x.prev == null || x.prev in nodes) {
        var k :| 0 <= k < |spine| && spine[k] == x;
        Neighbours(k);
      }
    }

    /** The pointer writes that exchange two different nodes. */
    method RelinkNodes(one: Node<T>, two: Node<T>, ghost nodes: set<Node<T>>)
      requires one != two && one in nodes && two in nodes
      requires forall x :: x in nodes ==> (x.next == null || x.next in nodes) && (x.prev == null || x.prev in nodes)
      requires two.prev != null && two.next != null
      modifies nodes
      ensures forall x :: x in nodes ==> x.data == old(x.data)
      ensures forall x :: x in nodes ==> x.next == old(
        if x == one then (if one.prev == two then two else two.next)
        else if x == two then (if two.prev == one then one else one.next)
        else if x == two.prev then one else if x == one.prev then two else x.next)
      ensures forall x :: x in nodes ==> x.prev == old(
        if x == one then (if one.next == two then two else two.prev)
        else if x == two then (if two.next == one then one else one.prev)
        else if x == two.next then one else if x == one.next then two else x.prev)
    {
      var firstprev, firstnext := one.prev, one.next;
      var secondprev, secondnext := two.prev, two.next;
      RelinkNeighbours(one, two, nodes);
      RelinkSelves(one, two, firstprev, firstnext, secondprev, secondnext);
    }

    /** The same by positions. */
    method RelinkSwapped(one: Node<T>, two: Node<T>, ghost p: nat, ghost q: nat, ghost nodes: set<Node<T>>)
      requires Formed() && 0 < p < |spine| - 1 && 0 < q < |spine| - 1 && one == spine[p] && two == spine[q] && p != q
      requires nodes == Nodes()
      modifies nodes
      ensures forall k {:trigger spine[k].next} :: 0 <= k < |spine| ==> spine[k].next == WrittenNext(spine, p, q, k)
      ensures forall k {:trigger spine[k].prev} :: 0 <= k < |spine| ==> spine[k].prev == WrittenPrev(spine, p, q, k)
      ensures forall k {:trigger spine[k].data} :: 0 <= k < |spine| ==> spine[k].data == old(spine[k].data)
    {
      hide WrittenNext;
      hide WrittenPrev;
      hide Linked;
      Positions();
      Neighbours(p);
      Neighbours(q);
      LinksStayInside(nodes);
      ghost var next, prev := Nexts(spine), Prevs(spine);
      RelinkNodes(one, two, nodes);
      forall k {:trigger spine[k].next} | 0 <= k < |spine| ensures spine[k].next == WrittenNext(spine, p, q, k) {
        NextByPosition(spine, next, p, q, k);
      }
      forall k {:trigger spine[k].prev} | 0 <= k < |spine| ensures spine[k].prev == WrittenPrev(spine, p, q, k) {
        PrevByPosition(spine, prev, p, q, k);
      }
    }

    /** Exchange the positions of two nodes, which may be neighbours or the same node. */
    method SwapNodes(one: Node<T>, two: Node<T>, ghost p: nat, ghost q: nat, ghost nodes: set<Node<T>>)
      requires Formed() && 0 < p < |spine| - 1 && 0 < q < |spine| - 1 && one == spine[p] && two == spine[q]
      requires nodes == Nodes()
      modifies this`spine, nodes
      ensures nodes == Nodes()
      ensures Formed() && spine == SwapAt(old(spine), p, q) && multiset(spine) == multiset(old(spine))
      ensures Items() == SwapAt(old(Items()), p - 1, q - 1)
    {
      hide Linked;
      hide Data;
      hide SwapAt;
      hide WrittenNext;
      hide WrittenPrev;
      SwapAtPermutes(spine, p, q);
      SameSet(spine, SwapAt(spine, p, q));
      Positions();
      if one == two {
        SwapWithItself(spine, p);
        SwapWithItself(Items(), p - 1);
        return;
      }
      ghost var before, items := spine, Items();
      ItemsAt();
      RelinkSwapped(one, two, p, q, nodes);
      spine := SwapAt(spine, p, q);
      SwapLinked(before, p, q);
      SwapAtElement(before, p, q, 0);
      SwapAtElement(before, p, q, |before| - 1);
      SwapData(before, items, p, q);
    }

    /** The number of nodes between the sentinels. */
    method Length() returns (num: int)
      requires Formed()
      ensures num == |Items()|
    {
      num := -1;
      var node := head;
      while node != tail
        invariant 0 <= num + 1 < |spine| && node == spine[num + 1]
        decreases |spine| - num
      {
        Neighbours(num + 1);
        node := node.next;
        num := num + 1;
      }
      Positions();
    }

    /** The node that belongs last among the first i + 1; ties go to last, then to the later one found. */
    method FindBest(last: Node<T>, i: int, cmp: (Option<T>, Option<T>) -> int) returns (best: Node<T>, ghost b: nat)
      requires Formed() && 0 < i < |Items()| && last == spine[i + 1]
      modifies this`current, this`cursor
      ensures Valid() && b <= i && best == spine[b + 1]
      ensures b == Best(Items(), i, i, cmp)
    {
      hide Linked;
      hide Data;
      ghost var items := Items();
      ItemsAt();
      Rewind();
      best, b := last, i;
      for j := 0 to i
        invariant Valid() && Items() == items && cursor == Some(j + 1)
        invariant b <= i && best == spine[b + 1] && b == Best(items, i, j, cmp)
      {
        ItemsAt();
        assert current == spine[j + 1] && current.data == items[j] && best.data == items[b];
        if cmp(current.data, best.data) > 0 {
          best, b := current, j;
        }
        var more := Next();
      }
    }

    /** Selection sort: the best of the first i + 1 nodes is swapped to position i, from the back to the front. */
    method Sort(cmp: (Option<T>, Option<T>) -> int)
      requires Valid()
      modifies this`current, this`cursor, this`spine, Nodes()
      ensures Valid() && cursor == Some(1)
      ensures multiset(spine) == multiset(old(spine)) && Nodes() == old(Nodes())
      ensures Items() == SelectionSort(old(Items()), cmp)
    {
      hide Linked;
      hide Data;
      hide SwapAt;
      hide SortFrom;
      hide Best;
      var numnodes := Length();
      End();
      ghost var items, nodes := Items(), Nodes();
      if numnodes < 2 {
        ShortIsSorted(items, cmp);
        return;
      }
      var last := current;
      var i := numnodes - 1;
      while i > 0
        invariant Formed() && 0 <= i < |items| == |Items()| && last == spine[i + 1]
        invariant multiset(spine) == multiset(old(spine)) && nodes == Nodes()
        invariant SortFrom(Items(), i, cmp) == SelectionSort(items, cmp)
      {
        var best: Node<T>;
        ghost var b;
        best, b := FindBest(last, i, cmp);
        SortStep(Items(), i, cmp);
        SwapAtElement(spine, i + 1, b + 1, i + 1);
        SwapNodes(last, best, i + 1, b + 1, nodes);
        Neighbours(i + 1);
        last := best.prev;
        i := i - 1;
      }
      SortDone(Items(), cmp);
      Rewind();
    }

    /** Add an item to the end of its priority group. */
    method PriorityEnqueue(add: Option<T>, cmp: (Option<T>, Option<T>) -> int) returns (ok: bool)
      requires Valid()
      modifies this`current, this`cursor, this`spine, Nodes()
      ensures Valid() && OnlyFreshNodes() && ok == add.Some?
      ensures !ok ==> Items() == old(Items())
      ensures ok ==> Items() == InsertAt(old(Items()), EnqueuePosition(old(Items()), old(|Items()|), add, cmp), add)
    {
      hide Linked;
      hide Data;
      hide InsertAt;
      hide EnqueuePosition;
      hide LinkedList.Formed;
      if add == None {
        return false;
      }
      End();
      ghost var items := Items();
      ghost var k := |items|;
      while true
        invariant Valid() && spine == old(spine) && Items() == items
        invariant if items == [] then k == 0 && cursor == Some(1) else 1 <= k <= |items| && cursor == Some(k)
        invariant EnqueuePosition(items, k, add, cmp) == EnqueuePosition(items, |items|, add, cmp)
        decreases k
      {
        if k > 0 {
          EnqueueStep(items, k, add, cmp);
        }
        var data := Get();
        if data.Some? {
          var i := cmp(add, data);
          if i >= 0 {
            ok := AddNode(add);
            return;
          }
        }
        var more := Prev();
        if !more {
          break;
        }
        k := k - 1;
      }
      InsertFirst(items, add);
      ok := Unshift(add);
    }
  }

  lemma ShortIsSorted<X>(s: seq<X>, cmp: (X, X) -> int)
    requires |s| < 2
    ensures SelectionSort(s, cmp) == s
  {
  }

  lemma SortStep<X>(s: seq<X>, i: nat, cmp: (X, X) -> int)
    requires 0 < i < |s|
    ensures SortFrom(s, i, cmp) == SortFrom(SwapAt(s, i, Best(s, i, i, cmp)), i - 1, cmp)
  {
  }

  lemma SortDone<X>(s: seq<X>, cmp: (X, X) -> int)
    requires 0 < |s|
    ensures SortFrom(s, 0, cmp) == s
  {
  }

  lemma InsertFirst<X>(s: seq<X>, x: X)
    ensures InsertAt(s, 0, x) == [x] + s
  {
  }

  lemma SameSet<X>(s: seq<X>, t: seq<X>)
    requires multiset(s) == multiset(t)
    ensures (set x | x in s) == (set x | x in t)
  {
    SameElements(s, t);
  }

  lemma SwapWithItself<X>(s: seq<X>, p: nat)
    requires p < |s|
    ensures SwapAt(s, p, p) == s
  {
  }

  lemma SwapData<T>(s: seq<Node<T>>, items: seq<Option<T>>, p: nat, q: nat)
    requires 0 < p < |s| - 1 && 0 < q < |s| - 1 && |items| == |s| - 2
    requires forall k {:trigger s[k].data} :: 0 < k < |s| - 1 ==> s[k].data == items[k - 1]
    ensures Data(SwapAt(s, p, q)[1..|s| - 1]) == SwapAt(items, p - 1, q - 1)
  {
  }

  /** Where the element at k goes when p and q are swapped. */
  function Other(p: nat, q: nat, k: nat): nat {
    if k == p then q else if k == q then p else k
  }

  function SuccessorAfterSwap<T>(s: seq<Node<T>>, p: nat, q: nat, k: nat): Node?<T>
    requires p < |s| && q < |s| && k < |s|
  {
    var j := Other(p, q, k) + 1;
    if j < |s| then s[Other(p, q, j)] else null
  }

  function PredecessorAfterSwap<T>(s: seq<Node<T>>, p: nat, q: nat, k: nat): Node?<T>
    requires p < |s| && q < |s| && k < |s|
  {
    var j := Other(p, q, k);
    if j > 0 then s[Other(p, q, j - 1)] else null
  }

  /** The next link that the pointer writes of a swap leave in s[k], s being a list before. */
  function WrittenNext<T>(s: seq<Node<T>>, p: nat, q: nat, k: nat): Node?<T>
    requires 0 < p < |s| - 1 && 0 < q < |s| - 1 && k < |s|
  {
    if k == p then (if p == q + 1 then s[q] else s[q + 1])
    else if k == q then (if q == p + 1 then s[p] else s[p + 1])
    else if k == q - 1 then s[p]
    else if k == p - 1 then s[q]
    else if k + 1 < |s| then s[k + 1] else null
  }

  function WrittenPrev<T>(s: seq<Node<T>>, p: nat, q: nat, k: nat): Node?<T>
    requires 0 < p < |s| - 1 && 0 < q < |s| - 1 && k < |s|
  {
    if k == p then (if q == p + 1 then s[q] else s[q - 1])
    else if k == q then (if p == q + 1 then s[p] else s[p - 1])
    else if k == q + 1 then s[p]
    else if k == p + 1 then s[q]
    else if k > 0 then s[k - 1] else null
  }

  ghost function Nexts<T>(s: seq<Node<T>>): (r: seq<Node?<T>>)
    reads s
    ensures |r| == |s|
    ensures Linked(s) ==> forall k :: 0 <= k < |s| ==> r[k] == if k + 1 < |s| then s[k + 1] else null
  {
    seq(|s|, k requires 0 <= k < |s| reads s => s[k].next)
  }

  ghost function Prevs<T>(s: seq<Node<T>>): (r: seq<Node?<T>>)
    reads s
    ensures |r| == |s|
    ensures Linked(s) ==> forall k :: 0 <= k < |s| ==> r[k] == if k > 0 then s[k - 1] else null
  {
    seq(|s|, k requires 0 <= k < |s| reads s => s[k].prev)
  }

  lemma NextByPosition<T>(s: seq<Node<T>>, next: seq<Node?<T>>, p: nat, q: nat, k: nat)
    requires Distinct(s) && 0 < p < |s| - 1 && 0 < q < |s| - 1 && p != q && k < |s| == |next|
    requires forall i :: 0 <= i < |s| ==> next[i] == if i + 1 < |s| then s[i + 1] else null
    ensures WrittenNext(s, p, q, k) ==
      if s[k] == s[p] then (if s[p - 1] == s[q] then s[q] else next[q])
      else if s[k] == s[q] then (if s[q - 1] == s[p] then s[p] else next[p])
      else if s[k] == s[q - 1] then s[p] else if s[k] == s[p - 1] then s[q] else next[k]
  {
  }

  lemma PrevByPosition<T>(s: seq<Node<T>>, prev: seq<Node?<T>>, p: nat, q: nat, k: nat)
    requires Distinct(s) && 0 < p < |s| - 1 && 0 < q < |s| - 1 && p != q && k < |s| == |prev|
    requires forall i :: 0 <= i < |s| ==> prev[i] == if i > 0 then s[i - 1] else null
    ensures WrittenPrev(s, p, q, k) ==
      if s[k] == s[p] then (if s[p + 1] == s[q] then s[q] else prev[q])
      else if s[k] == s[q] then (if s[q + 1] == s[p] then s[p] else prev[p])
      else if s[k] == s[q + 1] then s[p] else if s[k] == s[p + 1] then s[q] else prev[k]
  {
  }

  lemma WrittenIsSwapped<T>(s: seq<Node<T>>, p: nat, q: nat, k: nat)
    requires 0 < p < |s| - 1 && 0 < q < |s| - 1 && k < |s| && p != q
    ensures WrittenNext(s, p, q, k) == SuccessorAfterSwap(s, p, q, k)
    ensures WrittenPrev(s, p, q, k) == PredecessorAfterSwap(s, p, q, k)
  {
  }

  lemma SwapLinked<T>(s: seq<Node<T>>, p: nat, q: nat)
    requires 0 < p < |s| - 1 && 0 < q < |s| - 1 && p != q && Distinct(s)
    requires forall k {:trigger s[k].next} :: 0 <= k < |s| ==> s[k].next == WrittenNext(s, p, q, k)
    requires forall k {:trigger s[k].prev} :: 0 <= k < |s| ==> s[k].prev == WrittenPrev(s, p, q, k)
    ensures Linked(SwapAt(s, p, q))
  {
    hide SwapAt;
    hide WrittenNext;
    hide WrittenPrev;
    var t := SwapAt(s, p, q);
    forall k | 0 <= k < |t|
      ensures t[k].next == if k + 1 < |t| then t[k + 1] else null
      ensures t[k].prev == if k > 0 then t[k - 1] else null
    {
      SwapAtElement(s, p, q, k);
      WrittenIsSwapped(s, p, q, Other(p, q, k));
      if k + 1 < |t| {
        SwapAtElement(s, p, q, k + 1);
      }
      if k > 0 {
        SwapAtElement(s, p, q, k - 1);
      }
    }
    SwapDistinct(s, p, q);
    assert forall i {:trigger t[i].next} :: 0 <= i < |t| ==> t[i].next == if i + 1 < |t| then t[i + 1] else null;
    assert forall i {:trigger t[i].prev} :: 0 <= i < |t| ==> t[i].prev == if i > 0 then t[i - 1] else null;
  }

  lemma SwapDistinct<X>(s: seq<X>, p: nat, q: nat)
    requires p < |s| && q < |s| && Distinct(s)
    ensures Distinct(SwapAt(s, p, q))
  {
  }

  lemma MovedToEnd<X>(s: seq<X>)
    requires |s| > 1
    ensures InsertAt(RemoveAt(s, 0), |s| - 1, s[0]) == Unrolled(s)
  {
    var t := s[1..];
    assert RemoveAt(s, 0) == t;
    assert t[..|t|] == t && t[|t|..] == [];
  }

  lemma MovedToFront<X>(s: seq<X>)
    requires |s| > 1
    ensures InsertAt(RemoveAt(s, |s| - 1), 0, s[|s| - 1]) == Rolled(s)
  {
  }

  lemma MovedNodes<X>(s: seq<X>, i: nat, j: nat)
    requires i < |s| && j < |s|
    ensures multiset(InsertAt(RemoveAt(s, i), j, s[i])) == multiset(s)
  {
    var t := RemoveAt(s, i);
    assert s == (s[..i] + [s[i]]) + s[i + 1..];
    assert t == t[..j] + t[j..];
    assert multiset(InsertAt(t, j, s[i])) == multiset(t) + multiset([s[i]]);
  }
}
