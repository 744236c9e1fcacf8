/**
  The cache of network interfaces: a doubly linked list kept sorted by name.
 */
module InterfaceCaches {
  import opened Common
  import opened CStrings
  import opened NameOrder
  import Numbers

  // ----- what adding a name does to the sorted names --------------------------------------------------

  /** The size of a name buffer, with its NUL. */
  const IFNAMSIZ := 16

  /** A name as the cache stores it. */
  function Stored(name: string): string {
    if |name| < IFNAMSIZ then name else name[..IFNAMSIZ - 1]
  }

  /** Up to 15 characters are kept. */
  lemma StoredIsPrefix(name: string)
    ensures Stored(name) <= name && |Stored(name)| == if |name| < 15 then |name| else 15
  {
  }

  function Compare(a: string, b: string): int { CompareKeys(KeyOf(a), KeyOf(b)) }

  /** Behind the last entry that is not greater. */
  function Place(names: seq<string>, name: string): (p: nat)
    ensures p <= |names|
  {
    var n := |names|;
    if n == 0 || Compare(names[n - 1], name) <= 0 then n else Place(names[..n - 1], name)
  }

  lemma {:induction false} PlaceIs(names: seq<string>, name: string)
    ensures var p := Place(names, name);
      && (p > 0 ==> Compare(names[p - 1], name) <= 0)
      && forall i :: p <= i < |names| ==> Compare(names[i], name) > 0
    decreases |names|
  {
    hide Compare;
    var n := |names|;
    if n > 0 && Compare(names[n - 1], name) > 0 {
      PlaceIs(names[..n - 1], name);
    }
  }

  lemma PlaceInBounds(names: seq<string>, name: string)
    ensures Place(names, name) <= |names|
  {
  }

  predicate Present(names: seq<string>, name: string) {
    var p := Place(names, name);
    p > 0 && Compare(names[p - 1], name) == 0
  }

  function Added(names: seq<string>, name: string): seq<string> {
    if Present(names, name) then names
    else
      var p := Place(names, name);
      names[..p] + [Stored(name)] + names[p..]
  }

  predicate Ascending(names: seq<string>) {
    forall i, j :: 0 <= i < j < |names| ==> Compare(names[i], names[j]) < 0
  }

  lemma PlaceStep(names: seq<string>, p: nat, name: string)
    requires p <= |names|
    ensures Place(names[..p], name) ==
      if p == 0 || Compare(names[p - 1], name) <= 0 then p else Place(names[..p - 1], name)
  {
    if p > 0 {
      assert names[..p][..p - 1] == names[..p - 1];
    }
  }

  lemma CompareOpposite(a: string, b: string)
    ensures Compare(a, b) == -Compare(b, a) && Compare(a, b) in {-1, 0, 1}
      && (Compare(a, b) == 0 <==> KeyOf(a) == KeyOf(b))
  {
    KeysOpposite(KeyOf(a), KeyOf(b));
  }

  lemma CompareTransitive(a: string, b: string, c: string)
    requires Compare(a, b) <= 0 && Compare(b, c) <= 0
    ensures Compare(a, c) <= 0 && (Compare(a, b) < 0 || Compare(b, c) < 0 ==> Compare(a, c) < 0)
  {
    KeysTransitive(KeyOf(a), KeyOf(b), KeyOf(c));
  }

  /** In a sorted cache the entry that the search looks at last is an equal one if there is any. */
  lemma PresentIff(names: seq<string>, name: string)
    requires Ascending(names)
    ensures Present(names, name) <==> exists i :: 0 <= i < |names| && Compare(names[i], name) == 0
  {
    hide KeyOf;
    hide CompareKeys;
    hide Compare;
    PlaceIs(names, name);
    var p := Place(names, name);
    if i :| 0 <= i < |names| && Compare(names[i], name) == 0 {
      assert i < p;
      if i < p - 1 {
        assert Compare(names[i], names[p - 1]) < 0;
        CompareTransitive(names[i], names[p - 1], name);
      }
    }
  }

  /** Cutting the name to its buffer does not move it past any cached one. */
  ghost predicate StoredInPlace(names: seq<string>, name: string) {
    forall i :: 0 <= i < |names| ==> Compare(names[i], Stored(name)) == Compare(names[i], name)
  }

  /** A sorted cache is split by a name that is not in it: smaller entries in front, greater ones behind. */
  lemma SplitByName(names: seq<string>, name: string, i: nat)
    requires Ascending(names) && !Present(names, name) && i < |names|
    ensures Compare(names[i], name) == if i < Place(names, name) then -1 else 1
  {
    hide KeyOf;
    hide Compare;
    var p := Place(names, name);
    PlaceIs(names, name);
    CompareOpposite(names[i], name);
    if i < p {
      CompareOpposite(names[p - 1], name);
      if i < p - 1 {
        assert Compare(names[i], names[p - 1]) < 0;
        CompareTransitive(names[i], names[p - 1], name);
      }
    }
  }

  /** x belongs between the names in front of p and those from p on. */
  ghost predicate Between(names: seq<string>, p: nat, x: string) {
    forall i :: 0 <= i < |names| ==> Compare(names[i], x) == if i < p then -1 else 1
  }

  /** The names with one put in at p, element by element. */
  lemma PutAt(names: seq<string>, p: nat, x: string)
    requires p <= |names|
    ensures var r := names[..p] + [x] + names[p..];
      && |r| == |names| + 1 && r[p] == x
      && (forall i :: 0 <= i < p ==> r[i] == names[i])
      && (forall i {:trigger r[i]} :: p < i < |r| ==> r[i] == names[i - 1])
      && (forall i :: p <= i < |names| ==> r[i + 1] == names[i])
  {
  }

  lemma AscendingIsBetween(names: seq<string>, p: nat, x: string)
    requires p <= |names| && Ascending(names[..p] + [x] + names[p..])
    ensures Between(names, p, x)
  {
    hide Compare;
    PutAt(names, p, x);
    var r := names[..p] + [x] + names[p..];
    forall i | 0 <= i < |names| ensures Compare(names[i], x) == if i < p then -1 else 1 {
      CompareOpposite(names[i], x);
      if i < p {
        assert Compare(r[i], r[p]) < 0;
      } else {
        assert Compare(r[p], r[i + 1]) < 0;
      }
    }
  }

  lemma BetweenIsAscending(names: seq<string>, p: nat, x: string)
    requires p <= |names| && Ascending(names) && Between(names, p, x)
    ensures Ascending(names[..p] + [x] + names[p..])
  {
    hide Compare;
    PutAt(names, p, x);
    var r := names[..p] + [x] + names[p..];
    forall i, j | 0 <= i < j < |r| ensures Compare(r[i], r[j]) < 0 {
      if i == p {
        CompareOpposite(names[j - 1], x);
      } else if j != p {
        assert r[i] == names[if i < p then i else i - 1] && r[j] == names[if j < p then j else j - 1];
      }
    }
  }

  /**
    Adding a name of any length keeps a sorted cache strictly ascending exactly when it is present or
    stored in place.
   */
  lemma AddedIsAscendingIff(names: seq<string>, name: string)
    requires Ascending(names)
    ensures Ascending(Added(names, name)) <==> Present(names, name) || StoredInPlace(names, name)
  {
    hide KeyOf;
    hide Compare;
    hide Ascending;
    var p := Place(names, name);
    hide Place;
    if !Present(names, name) {
      hide Present;
      forall i | 0 <= i < |names| ensures Compare(names[i], name) == if i < p then -1 else 1 {
        SplitByName(names, name, i);
      }
      assert Between(names, p, Stored(name)) <==> StoredInPlace(names, name);
      PlaceInBounds(names, name);
      if Between(names, p, Stored(name)) {
        BetweenIsAscending(names, p, Stored(name));
      }
      if Ascending(Added(names, name)) {
        AscendingIsBetween(names, p, Stored(name));
      }
    }
  }

  /** In particular a name that fits its buffer does. */
  lemma AddedIsAscending(names: seq<string>, name: string)
    requires Ascending(names) && |name| < IFNAMSIZ
    ensures Ascending(Added(names, name))
    ensures exists i :: 0 <= i < |Added(names, name)| && Compare(Added(names, name)[i], name) == 0
  {
    hide Compare;
    hide Added;
    hide Place;
    AddedIsAscendingIff(names, name);
    AddedIsFoundIff(names, name);
    CompareOpposite(name, name);
    var r := Added(names, name);
    assert Present(r, name);
    assert Compare(r[Place(r, name) - 1], name) == 0 by { PlaceInBounds(r, name); }
  }

  /** Where the search stops, by what it finds there. */
  lemma {:induction false} PlaceIsUnique(names: seq<string>, name: string, q: nat)
    requires q <= |names| && (q > 0 ==> Compare(names[q - 1], name) <= 0)
    requires forall i :: q <= i < |names| ==> Compare(names[i], name) > 0
    ensures Place(names, name) == q
  {
    hide Compare;
    PlaceIs(names, name);
    PlaceInBounds(names, name);
  }

  lemma {:induction false} PlaceOfPut(names: seq<string>, p: nat, x: string, name: string)
    requires p <= |names| && (p > 0 ==> Compare(names[p - 1], name) <= 0)
    requires forall i :: p <= i < |names| ==> Compare(names[i], name) > 0
    ensures var r, q := names[..p] + [x] + names[p..], if Compare(x, name) <= 0 then p + 1 else p;
      Place(r, name) == q && (q > 0 ==> r[q - 1] == if q == p then names[p - 1] else x)
  {
    hide Compare;
    hide Place;
    PutAt(names, p, x);
    var r, q := names[..p] + [x] + names[p..], if Compare(x, name) <= 0 then p + 1 else p;
    assert p > 0 ==> r[p - 1] == names[p - 1];
    forall i | q <= i < |r| ensures Compare(r[i], name) > 0 {
      assert r[i] == if i == p then x else names[i - 1];
    }
    PlaceIsUnique(r, name, q);
  }

  /**
    An added name is found again, in a cache of any order, exactly when it was there or its stored
    form is equal to it.
   */
  lemma {:induction false} AddedIsFoundIff(names: seq<string>, name: string)
    ensures Present(Added(names, name), name) <==> Present(names, name) || Compare(Stored(name), name) == 0
  {
    hide Compare;
    hide Place;
    if !Present(names, name) {
      PlaceIs(names, name);
      PlaceInBounds(names, name);
      PlaceOfPut(names, Place(names, name), Stored(name), name);
    }
  }

  /** A name of 16 characters that is cut to one already cached is doubled. */
  lemma LongNameIsDoubled()
    ensures var names := ["abcdefghijklmno"];
      && Ascending(names) && Added(names, "abcdefghijklmnop") == names + names
      && !Ascending(names + names) && !Present(names + names, "abcdefghijklmnop")
  {
    var a, b := "abcdefghijklmno", "abcdefghijklmnop";
    LongNameIsGreater();
    hide Compare;
    CompareOpposite(a, a);
    var names := [a];
    assert b[..15] == a;
    assert Place(names, b) == 1;
    assert names[..1] + [a] + names[1..] == names + names;
    AddedIsAscendingIff(names, b);
    AddedIsFoundIff(names, b);
    assert Compare(names[0], Stored(b)) != Compare(names[0], b);
  }

  lemma PrefixesDecide(a: string, b: string)
    ensures CompareStrings(KeyOf(a).prefix, KeyOf(b).prefix) < 0 ==> Compare(a, b) < 0
  {
    hide KeyOf;
    hide CompareStrings;
  }

  lemma LongNameIsGreater()
    ensures Compare("abcdefghijklmno", "abcdefghijklmnop") < 0
  {
    var a, b := "abcdefghijklmno", "abcdefghijklmnop";
    assert a + "" == a && b + "" == b && a + "p" == b;
    hide KeyOf;
    hide Compare;
    hide CompareStrings;
    hide Numbers.Number;
    NamePlain(a, "");
    NamePlain(b, "");
    PrefixesDecide(a, b);
    LongerIsGreater(a, "p");
  }

  lemma {:induction false} LongerIsGreater(a: string, b: string)
    requires b != ""
    ensures CompareStrings(a, a + b) < 0
    decreases |a|
  {
    if a == "" {
      assert a + b == b;
    } else {
      LongerIsGreater(a[1..], b);
      assert (a + b)[1..] == a[1..] + b;
    }
  }

  // ----- the linked list --------------------------------------------------------------------------------

  class Interface {
    const name: string
    var next: Interface?
    var prev: Interface?

    constructor (name: string)
      ensures this.name == Stored(name)
    {
      this.name := Stored(name);
    }
  }

  function Names(spine: seq<Interface>): (r: seq<string>)
    ensures |r| == |spine| && forall i :: 0 <= i < |r| ==> r[i] == spine[i].name
  {
    seq(|spine|, i requires 0 <= i < |spine| => spine[i].name)
  }

  lemma NamesAt(spine: seq<Interface>)
    ensures |Names(spine)| == |spine| && forall i :: 0 <= i < |spine| ==> Names(spine)[i] == spine[i].name
  {
  }

  /** An entry, or null beyond either end. */
  ghost function EntryAt(spine: seq<Interface>, i: int): Interface? {
    if 0 <= i < |spine| then spine[i] else null
  }

  lemma EntryIs(spine: seq<Interface>, i: int)
    ensures 0 <= i < |spine| ==> EntryAt(spine, i) == spine[i]
    ensures EntryAt(spine, i) == null <==> !(0 <= i < |spine|)
  {
  }

  lemma DifferentEntries(spine: seq<Interface>, i: nat, j: int)
    requires Distinct(spine) && i < |spine|
    ensures spine[i] == EntryAt(spine, j) <==> i == j
  {
  }

  /** An entry put in at p. */
  function Inserted(spine: seq<Interface>, p: nat, entry: Interface): seq<Interface>
    requires p <= |spine|
  {
    spine[..p] + [entry] + spine[p..]
  }

  lemma InsertedAt(spine: seq<Interface>, p: nat, entry: Interface)
    requires p <= |spine|
    ensures var r := Inserted(spine, p, entry);
      && |r| == |spine| + 1
      && forall i {:trigger r[i]} :: 0 <= i < |r| ==>
        r[i] == if i < p then spine[i] else if i == p then entry else spine[i - 1]
  {
  }

  lemma InsertedIsDistinct(spine: seq<Interface>, p: nat, entry: Interface)
    requires p <= |spine| && Distinct(spine) && entry !in spine
    ensures Distinct(Inserted(spine, p, entry))
  {
    hide Inserted;
    InsertedAt(spine, p, entry);
  }

  lemma NeighboursOfInserted(spine: seq<Interface>, p: nat, entry: Interface, i: nat)
    requires i <= |spine| && p <= |spine|
    ensures var r := Inserted(spine, p, entry);
      && EntryAt(r, i - 1) ==
        (if i <= p then EntryAt(spine, i - 1) else if i == p + 1 then entry else EntryAt(spine, i - 2))
      && EntryAt(r, i + 1) ==
        (if i + 1 < p then EntryAt(spine, i + 1) else if i + 1 == p then entry else EntryAt(spine, i))
  {
    hide Inserted;
    InsertedAt(spine, p, entry);
  }

  lemma NamesInserted(spine: seq<Interface>, p: nat, entry: Interface)
    requires p <= |spine|
    ensures Names(Inserted(spine, p, entry)) == Names(spine)[..p] + [entry.name] + Names(spine)[p..]
  {
    hide Inserted;
    InsertedAt(spine, p, entry);
    var r := Inserted(spine, p, entry);
    assert Names(r) == Names(spine)[..p] + [entry.name] + Names(spine)[p..];
  }

  class InterfaceCache {
    var first: Interface?
    var last: Interface?
    ghost var spine: seq<Interface>

    /** The entries are linked both ways, and their names can be compared.  An empty list may have a stale last. */
    ghost predicate Valid()
      reads this, spine
    {
      && Distinct(spine)
      && first == EntryAt(spine, 0)
      && (spine != [] ==> last == EntryAt(spine, |spine| - 1))
      && (forall i {:trigger spine[i]} :: 0 <= i < |spine| ==>
        spine[i].prev == EntryAt(spine, i - 1) && spine[i].next == EntryAt(spine, i + 1))
      && (forall i {:trigger spine[i]} :: 0 <= i < |spine| ==> Comparable(spine[i].name))
    }

    method Add(name: string) returns (entry: Interface)
      requires Valid() && Comparable(name) && Comparable(Stored(name))
      modifies this, spine
      ensures Valid() && Names(spine) == Added(Names(old(spine)), name)
      ensures var p := Place(Names(old(spine)), name);
        if Present(Names(old(spine)), name) then spine == old(spine) && entry == spine[p - 1]
        else fresh(entry) && spine == Inserted(old(spine), p, entry)
    {
      hide Compare;
      hide Comparable;
      hide Inserted;
      hide Names;
      hide Distinct;
      hide Place;
      hide Valid;
      if first == null {
        EmptyCache();
        last := null;
        EmptyIsValid();
      }
      LastEntry();
      var node, found;
      ghost var p;
      node, found, p := Search(name);
      if found {
        return node;
      }
      entry := new Interface(name);
      NamesInserted(spine, p, entry);
      Link(entry, node, p);
    }

    lemma EmptyCache()
      requires Valid() && first == null
      ensures spine == []
    {
    }

    lemma LastEntry()
      requires Valid() && (first == null ==> last == null)
      ensures last == EntryAt(spine, |spine| - 1)
    {
    }

    lemma EmptyIsValid()
      requires spine == [] && first == null
      ensures Valid()
    {
    }

    /** From the end to the last entry that is not greater. */
    method Search(name: string) returns (node: Interface?, found: bool, ghost p: nat)
      requires Valid() && Comparable(name) && last == EntryAt(spine, |spine| - 1)
      ensures p == Place(Names(spine), name) && node == EntryAt(spine, p - 1)
      ensures found == Present(Names(spine), name)
    {
      hide Compare;
      hide Comparable;
      hide Distinct;
      hide EntryAt;
      hide Place;
      hide Names;
      ghost var names := Names(spine);
      NamesAt(spine);
      node := last;
      p := |spine|;
      found := false;
      assert names[..p] == names;
      while node != null
        invariant p <= |spine| && node == EntryAt(spine, p - 1)
        invariant Place(names, name) == Place(names[..p], name)
        decreases p
      {
        EntryIs(spine, p - 1);
        PlaceStep(names, p, name);
        var n := CompareNames(node.name, name);
        if n == 0 {
          found := true;
          return;
        }
        if n < 0 {
          return;
        }
        node := node.prev;
        p := p - 1;
      }
      EntryIs(spine, p - 1);
      PlaceStep(names, p, name);
    }

    method CompareNames(a: string, b: string) returns (r: int)
      requires Comparable(a) && Comparable(b)
      ensures CompareInts(r, 0) == Compare(a, b)
    {
      r := Nstrcmp(a, b);
    }

    /** Put a new entry behind the given one, or first. */
    method Link(entry: Interface, before: Interface?, ghost p: nat)
      requires Valid() && p <= |spine| && before == EntryAt(spine, p - 1)
      requires entry !in spine && Comparable(entry.name)
      modifies this, spine, entry
      ensures Valid() && spine == Inserted(old(spine), p, entry)
    {
      hide Comparable;
      hide Distinct;
      hide Inserted;
      hide EntryAt;
      EntryIs(spine, 0);
      EntryIs(spine, p - 1);
      EntryIs(spine, p);
      EntryIs(spine, |spine| - 1);
      var follow := if before != null then before.next else first;
      ghost var was := spine;
      assert follow == EntryAt(was, p) && (p > 0 ==> before == was[p - 1]);
      entry.prev := before;
      entry.next := follow;
      if follow != null {
        follow.prev := entry;
      } else {
        last := entry;
      }
      if before != null {
        before.next := entry;
      } else {
        first := entry;
      }
      spine := Inserted(was, p, entry);
      EntryIs(spine, 0);
      EntryIs(spine, |spine| - 1);
      InsertedIsDistinct(was, p, entry);
      InsertedAt(was, p, entry);
      forall i | 0 <= i < |spine|
        ensures spine[i].prev == EntryAt(spine, i - 1) && spine[i].next == EntryAt(spine, i + 1)
      {
        NeighboursOfInserted(was, p, entry, i);
        if i < p {
          DifferentEntries(was, i, p);
          DifferentEntries(was, i, p - 1);
        } else if i > p {
          DifferentEntries(was, i - 1, p);
          DifferentEntries(was, i - 1, p - 1);
        }
      }
    }
  }

  predicate Comparable(name: string) { NUL !in name && NumbersInRange(name) }
}
