/**
  What each key does to an address that is edited, in terms of its groups and their digits.
 */
module IpKeys {
  import opened Common
  import opened Numbers
  import opened Snprintf
  import opened IpText
  import opened IpEditor

  // ----- groups and digits ----------------------------------------------------------------------------

  /** Where digit r of group k is. */
  function PlaceOf(p: Info, k: nat, r: nat): nat { k * (p.width + 1) + r }

  /** The cursor is on digit r of group k. */
  predicate OnDigit(e: Edit, p: Info, k: nat, r: nat) {
    r < p.width && e.pos == PlaceOf(p, k, r)
  }

  function Group(text: string, p: Info, k: nat): (g: string)
    requires PlaceOf(p, k, p.width) <= |text|
    ensures |g| == p.width
  {
    text[PlaceOf(p, k, 0)..PlaceOf(p, k, p.width)]
  }

  lemma Remainders(k: nat, r: nat)
    ensures r < 4 ==> (4 * k + r) % 4 == r
    ensures r < 5 ==> (5 * k + r) % 5 == r
  {
  }

  lemma PlaceInSmall(k: nat, r: nat)
    requires r <= 3
    ensures PlaceOf(IPV4, k, r) == 4 * k + r && PlaceOf(IPV4, k, r) % 4 == r
    ensures r < 3 ==> GroupStart(IPV4, PlaceOf(IPV4, k, r)) == PlaceOf(IPV4, k, 0)
    ensures GroupCount(IPV4) == 4
  {
    Remainders(k, r);
    assert PlaceOf(IPV4, k, r) == k * 4 + r;
  }

  lemma PlaceInLarge(k: nat, r: nat)
    requires r <= 4
    ensures PlaceOf(IPV6, k, r) == 5 * k + r && PlaceOf(IPV6, k, r) % 5 == r
    ensures r < 4 ==> GroupStart(IPV6, PlaceOf(IPV6, k, r)) == PlaceOf(IPV6, k, 0)
    ensures GroupCount(IPV6) == 8
  {
    Remainders(k, r);
    assert PlaceOf(IPV6, k, r) == k * 5 + r;
  }

  lemma PlaceFacts(p: Info, k: nat, r: nat)
    requires IsIp(p) && r <= p.width
    ensures PlaceOf(p, k, r) % (p.width + 1) == r
    ensures r < p.width ==> GroupStart(p, PlaceOf(p, k, r)) == PlaceOf(p, k, 0)
    ensures PlaceOf(p, k, r) < p.maxlen <==> k + 1 < GroupCount(p) || (k + 1 == GroupCount(p) && r < p.width)
    ensures k < GroupCount(p) <==> PlaceOf(p, k, p.width) <= p.maxlen
  {
    hide PlaceOf;
    hide GroupCount;
    hide GroupStart;
    if p == IPV4 {
      PlaceInSmall(k, r);
      PlaceInSmall(k, 3);
    } else {
      PlaceInLarge(k, r);
      PlaceInLarge(k, 4);
    }
  }

  /** The limit of a group: 255 in decimal, or ffff. */
  function Limit(p: Info): nat { if p.base == 10 then 255 else 0xffff }

  /** The cursor of a sound item is always on a digit. */
  lemma CursorIsOnDigit(e: Edit, p: Info, width: nat) returns (k: nat, r: nat)
    requires IsIp(p) && Sound(e, p, width)
    ensures OnDigit(e, p, k, r)
  {
    hide Resettable;
    hide WellFormed;
    k, r := e.pos / (p.width + 1), e.pos % (p.width + 1);
  }

  // ----- up and down ------------------------------------------------------------------------------------

  /** f is e with the number n in group k, printed in full width; nothing else has changed but the error. */
  ghost predicate OnlyGroup(e: Edit, f: Edit, p: Info, k: nat, n: nat)
    requires PlaceOf(p, k, p.width) <= |e.text|
  {
    && f == e.(text := f.text, error := 0) && |f.text| == |e.text|
    && (forall i :: 0 <= i < |e.text| && !(PlaceOf(p, k, 0) <= i < PlaceOf(p, k, p.width)) ==> f.text[i] == e.text[i])
    && AllPrinted(Group(f.text, p, k), p.base) && Number(Group(f.text, p, k), p.base) == n
  }

  lemma SoundParts(e: Edit, p: Info, width: nat)
    requires IsIp(p) && Sound(e, p, width)
    ensures |e.text| == p.maxlen && WellFormed(e.text, p) && e.pos < p.maxlen && e.pos % (p.width + 1) != p.width
  {
  }

  lemma DigitParts(e: Edit, p: Info, width: nat, k: nat, r: nat)
    requires IsIp(p) && Sound(e, p, width) && OnDigit(e, p, k, r)
    ensures k < GroupCount(p) && GroupStart(p, e.pos) == PlaceOf(p, k, 0) && e.pos % (p.width + 1) == r
    ensures PlaceOf(p, k, p.width) == PlaceOf(p, k, 0) + p.width <= |e.text| && PlaceOf(p, k, 0) % (p.width + 1) == 0
    ensures r < p.width && p.width in {3, 4} && p.limit == Limit(p)
  {
    PlaceFacts(p, k, r);
    PlaceFacts(p, k, 0);
    PlaceFacts(p, k, p.width);
  }

  lemma SameOutside(s: string, t: string, a: nat, b: nat)
    requires a <= b <= |s| == |t| && s[..a] == t[..a] && s[b..] == t[b..]
    ensures forall i :: 0 <= i < |s| && !(a <= i < b) ==> t[i] == s[i]
  {
    forall i | 0 <= i < |s| && !(a <= i < b) ensures t[i] == s[i] {
      if i < a {
        assert s[..a][i] == t[..a][i];
      } else {
        assert s[b..][i - b] == t[b..][i - b];
      }
    }
  }

  /** UP and DOWN, as far as the text goes. */
  lemma BumpChangesGroup(e: Edit, p: Info, width: nat, k: nat, r: nat, up: bool)
    requires IsIp(p) && width >= 2 && Sound(e, p, width) && OnDigit(e, p, k, r)
    ensures r < p.width && k < GroupCount(p) && PlaceOf(p, k, p.width) <= |e.text|
    ensures GroupStart(p, e.pos) + p.width <= |e.text|
    ensures var n, step := Number(Group(e.text, p, k), p.base), Power(p.base, p.width - 1 - r);
      OnlyGroup(e, Bumped(e, p, up).(error := 0), p, k,
        if up then (if n + step > Limit(p) then 0 else n + step) else (if n < step then Limit(p) else n - step))
  {
    hide *;
    DigitParts(e, p, width, k, r);
    var start, stop := PlaceOf(p, k, 0), PlaceOf(p, k, p.width);
    BumpIs(e, p, width, up);
    var f := Bumped(e, p, up);
    SoundParts(e, p, width);
    SoundParts(f, p, width);
    GroupNumber(f.text, p, start);
    SameOutside(e.text, f.text, start, stop);
    GroupIs(e.text, p, k);
    GroupIs(f.text, p, k);
    var n, step := Number(Group(e.text, p, k), p.base), Power(p.base, p.width - 1 - r);
    Wraps(n, step, p.limit);
    OnlyGroupIs(e, f.(error := 0), p, k, if up then Raised(n, step, p.limit) else Lowered(n, step, p.limit));
  }

  lemma GroupIs(text: string, p: Info, k: nat)
    requires PlaceOf(p, k, p.width) <= |text|
    ensures PlaceOf(p, k, p.width) == PlaceOf(p, k, 0) + p.width
    ensures Group(text, p, k) == text[PlaceOf(p, k, 0)..PlaceOf(p, k, 0) + p.width]
  {
  }

  lemma Wraps(n: nat, step: nat, limit: nat)
    ensures Raised(n, step, limit) == if n + step > limit then 0 else n + step
    ensures Lowered(n, step, limit) == if n < step then limit else n - step
  {
  }

  lemma OnlyGroupIs(e: Edit, f: Edit, p: Info, k: nat, n: nat)
    requires PlaceOf(p, k, p.width) <= |e.text| && f == e.(text := f.text, error := 0) && |f.text| == |e.text|
    requires forall i :: 0 <= i < |e.text| && !(PlaceOf(p, k, 0) <= i < PlaceOf(p, k, p.width)) ==>
      f.text[i] == e.text[i]
    requires AllPrinted(Group(f.text, p, k), p.base) && Number(Group(f.text, p, k), p.base) == n
    ensures OnlyGroup(e, f, p, k, n)
  {
  }

  /** The keys that only clear the error, or change the text but not the cursor, at a digit. */
  lemma PressIs(e: Edit, p: Info, width: nat, verify: string -> bool, extended: bool)
    requires IsIp(p) && width >= 2 && Sound(e, p, width)
    requires GroupStart(p, e.pos) + p.width <= |e.text|
    ensures Press(e, p, width, verify, extended, UpKey) == (Bumped(e.(error := 0), p, true), Stay)
    ensures Press(e, p, width, verify, extended, DownKey) == (Bumped(e.(error := 0), p, false), Stay)
  {
    hide Bumped;
  }

  lemma BumpIgnoresError(e: Edit, p: Info, up: bool)
    requires IsIp(p) && GroupStart(p, e.pos) + p.width <= |e.text|
    ensures Bumped(e.(error := 0), p, up) == Bumped(e, p, up).(error := 0)
  {
    hide WithGroup;
  }

  /**
    UP adds the place value of the digit under the cursor to the number of its group, or makes it 0
    when that goes beyond the limit; everything else stays.
   */
  lemma UpKeyAdds(e: Edit, p: Info, width: nat, verify: string -> bool, extended: bool, k: nat, r: nat)
    requires IsIp(p) && width >= 2 && Sound(e, p, width) && OnDigit(e, p, k, r)
    ensures r < p.width && PlaceOf(p, k, p.width) <= |e.text|
    ensures var n, step := Number(Group(e.text, p, k), p.base), Power(p.base, p.width - 1 - r);
      var (f, outcome) := Press(e, p, width, verify, extended, UpKey);
      OnlyGroup(e, f, p, k, if n + step > Limit(p) then 0 else n + step) && outcome == Stay
  {
    hide *;
    BumpChangesGroup(e, p, width, k, r, true);
    PressIs(e, p, width, verify, extended);
    BumpIgnoresError(e, p, true);
  }

  /** DOWN subtracts it, or goes to the limit when that would be less than zero. */
  lemma DownKeySubtracts(e: Edit, p: Info, width: nat, verify: string -> bool, extended: bool, k: nat, r: nat)
    requires IsIp(p) && width >= 2 && Sound(e, p, width) && OnDigit(e, p, k, r)
    ensures r < p.width && PlaceOf(p, k, p.width) <= |e.text|
    ensures var n, step := Number(Group(e.text, p, k), p.base), Power(p.base, p.width - 1 - r);
      var (f, outcome) := Press(e, p, width, verify, extended, DownKey);
      OnlyGroup(e, f, p, k, if n < step then Limit(p) else n - step) && outcome == Stay
  {
    hide *;
    BumpChangesGroup(e, p, width, k, r, false);
    PressIs(e, p, width, verify, extended);
    BumpIgnoresError(e, p, false);
  }

  // ----- moving -----------------------------------------------------------------------------------------------

  /** The next digit place, over a separator; the last one is its own. */
  function NextPlace(p: Info, k: nat, r: nat): nat {
    if r + 1 < p.width then PlaceOf(p, k, r + 1)
    else if k + 1 < GroupCount(p) then PlaceOf(p, k + 1, 0) else PlaceOf(p, k, r)
  }

  function PreviousPlace(p: Info, k: nat, r: nat): nat {
    if r > 0 then PlaceOf(p, k, r - 1)
    else if k > 0 && p.width > 0 then PlaceOf(p, k - 1, p.width - 1) else PlaceOf(p, k, r)
  }

  /** The window scrolls just as far as the cursor needs. */
  function ScrolledRight(offs: nat, pos: nat, width: nat): int { Max(offs, pos - (width - 2)) }

  lemma PlaceSteps(p: Info, k: nat, r: nat)
    ensures PlaceOf(p, k, r) + 1 == PlaceOf(p, k, r + 1)
    ensures PlaceOf(p, k, p.width) + 1 == PlaceOf(p, k + 1, 0)
  {
    assert (k + 1) * (p.width + 1) == k * (p.width + 1) + (p.width + 1);
  }

  lemma SeparatorAt(e: Edit, p: Info, width: nat, k: nat, r: nat)
    requires IsIp(p) && Sound(e, p, width) && r <= p.width && PlaceOf(p, k, r) < p.maxlen
    ensures PlaceOf(p, k, r) < |e.text| && (e.text[PlaceOf(p, k, r)] == p.sep <==> r == p.width)
  {
    hide *;
    SoundParts(e, p, width);
    PlaceFacts(p, k, r);
    PlaceIs(p, e.text, PlaceOf(p, k, r));
  }

  lemma NextPlaceIs(p: Info, k: nat, r: nat)
    requires IsIp(p) && r < p.width && PlaceOf(p, k, r) < p.maxlen - 1
    ensures NextPlace(p, k, r) == PlaceOf(p, k, r) + if r + 1 == p.width then 2 else 1
    ensures PlaceOf(p, k, r + 1) == PlaceOf(p, k, r) + 1
  {
    hide PlaceOf;
    hide GroupCount;
    hide GroupStart;
    PlaceFacts(p, k, p.width);
    PlaceSteps(p, k, r);
  }

  lemma PreviousPlaceIs(p: Info, k: nat, r: nat)
    requires IsIp(p) && r < p.width && PlaceOf(p, k, r) > 0
    ensures PreviousPlace(p, k, r) == PlaceOf(p, k, r) - if r == 0 then 2 else 1
    ensures if r > 0 then PlaceOf(p, k, r - 1) == PlaceOf(p, k, r) - 1
      else k > 0 && PlaceOf(p, k - 1, p.width) == PlaceOf(p, k, r) - 1 && PlaceOf(p, k, r) > 1
  {
    hide PlaceOf;
    FirstOfGroup(p, k);
    if r > 0 {
      PlaceSteps(p, k, r - 1);
    } else {
      PlaceSteps(p, k - 1, p.width - 1);
    }
  }

  lemma MovesRightBy(e: Edit, p: Info, width: nat)
    requires width >= 2 && e.pos + 1 < |e.text|
    ensures var q := e.pos + if e.text[e.pos + 1] == p.sep then 2 else 1;
      MovedRight(e, p, width) == e.(pos := q, offs := ScrolledRight(e.offs, q, width))
  {
  }

  lemma MovesLeftBy(e: Edit, p: Info)
    requires 0 < e.pos <= |e.text|
    ensures var q := e.pos - if e.text[e.pos - 1] == p.sep && e.pos > 1 then 2 else 1;
      MovedLeft(e, p) == e.(pos := q, offs := Min(e.offs, q))
  {
  }

  lemma StepRight(e: Edit, p: Info, width: nat, k: nat, r: nat)
    requires IsIp(p) && width >= 2 && Sound(e, p, width) && OnDigit(e, p, k, r) && e.pos < p.maxlen - 1
    ensures var q := NextPlace(p, k, r);
      q > e.pos && MovedRight(e, p, width) == e.(pos := q, offs := ScrolledRight(e.offs, q, width))
  {
    hide *;
    SoundParts(e, p, width);
    OnDigitIs(e, p, k, r);
    NextPlaceIs(p, k, r);
    SeparatorAt(e, p, width, k, r + 1);
    MovesRightBy(e, p, width);
  }

  lemma StepLeft(e: Edit, p: Info, width: nat, k: nat, r: nat)
    requires IsIp(p) && width >= 2 && Sound(e, p, width) && OnDigit(e, p, k, r) && e.pos > 0
    ensures var q := PreviousPlace(p, k, r); MovedLeft(e, p) == e.(pos := q, offs := Min(e.offs, q))
  {
    hide *;
    SoundParts(e, p, width);
    OnDigitIs(e, p, k, r);
    PreviousPlaceIs(p, k, r);
    if r > 0 {
      SeparatorAt(e, p, width, k, r - 1);
    } else {
      SeparatorAt(e, p, width, k - 1, p.width);
    }
    MovesLeftBy(e, p);
  }

  lemma FirstOfGroup(p: Info, k: nat)
    requires IsIp(p)
    ensures PlaceOf(p, k, 0) > 1 <==> k > 0
    ensures PlaceOf(p, k, 0) == 0 <==> k == 0
  {
  }

  lemma LastPlace(p: Info, k: nat, r: nat)
    requires IsIp(p) && k < GroupCount(p) && r < p.width
    ensures PlaceOf(p, k, r) == p.maxlen - 1 <==> NextPlace(p, k, r) == PlaceOf(p, k, r)
    ensures PlaceOf(p, k, r) == 0 <==> PreviousPlace(p, k, r) == PlaceOf(p, k, r)
  {
  }

  /** RIGHT goes to the next digit and LEFT to the previous one; nothing else changes but the window. */
  lemma MoveKeysMove(e: Edit, p: Info, width: nat, verify: string -> bool, extended: bool, k: nat, r: nat)
    requires IsIp(p) && width >= 2 && Sound(e, p, width) && OnDigit(e, p, k, r)
    ensures var q := NextPlace(p, k, r);
      Press(e, p, width, verify, extended, RightKey) ==
        (e.(error := 0, pos := q, offs := if q == e.pos then e.offs else ScrolledRight(e.offs, q, width)), Stay)
    ensures var q := PreviousPlace(p, k, r);
      Press(e, p, width, verify, extended, LeftKey) == (e.(error := 0, pos := q, offs := Min(e.offs, q)), Stay)
  {
    var e0 := e.(error := 0);
    DigitParts(e, p, width, k, r);
    LastPlace(p, k, r);
    if e.pos < p.maxlen - 1 {
      StepRight(e0, p, width, k, r);
    }
    if e.pos > 0 {
      StepLeft(e0, p, width, k, r);
    }
    hide NumbersFit;
    hide Separators;
    hide WellFormed;
    hide MovedRight;
    hide MovedLeft;
    hide NextPlace;
    hide PreviousPlace;
    hide PlaceOf;
  }

  // ----- typing -------------------------------------------------------------------------------------------------

  /** One decimal digit, or with IPv6 one hexadecimal digit in either case. */
  predicate IsDigitKey(p: Info, key: string) {
    |key| == 1 && ('0' <= key[0] <= '9' || (p.base == 16 && ('a' <= key[0] <= 'f' || 'A' <= key[0] <= 'F')))
  }

  lemma DigitKeyTypes(p: Info, key: string)
    requires IsIp(p)
    ensures Types(p, key) <==> IsDigitKey(p, key)
  {
  }

  /**
    A digit takes the place of the one under the cursor, in lower case, and the cursor goes on; other
    keys do nothing.
   */
  lemma DigitKeyWrites(e: Edit, p: Info, width: nat, verify: string -> bool, extended: bool, k: nat, r: nat,
    key: string)
    requires IsIp(p) && width >= 2 && Sound(e, p, width) && OnDigit(e, p, k, r)
    ensures var q := NextPlace(p, k, r);
      e.pos < |e.text| && Press(e, p, width, verify, extended, OtherKey(key)) ==
        (if IsDigitKey(p, key) then
           e.(error := 0, text := e.text[e.pos := Lower(key[0])], pos := q,
              offs := if q == e.pos then e.offs else ScrolledRight(e.offs, q, width))
         else e.(error := 0), Stay)
  {
    var e0 := e.(error := 0);
    DigitParts(e, p, width, k, r);
    LastPlace(p, k, r);
    DigitKeyTypes(p, key);
    if IsDigitKey(p, key) {
      var f := e0.(text := e0.text[e0.pos := Lower(key[0])]);
      TypedIsSound(e0, p, width, key);
      if e.pos < p.maxlen - 1 {
        StepRight(f, p, width, k, r);
      }
    }
    hide NumbersFit;
    hide Separators;
    hide WellFormed;
    hide MovedRight;
    hide IsDigitKey;
    hide Types;
    hide Lower;
    hide NextPlace;
    hide PlaceOf;
  }

  lemma TypedIsSound(e: Edit, p: Info, width: nat, key: string)
    requires IsIp(p) && width >= 2 && Sound(e, p, width) && Types(p, key)
    ensures e.pos < |e.text| && Sound(e.(text := e.text[e.pos := Lower(key[0])]), p, width)
  {
    hide Resettable;
    var f := e.(text := e.text[e.pos := Lower(key[0])]);
    assert WellFormed(f.text, p) by {
      hide InPlace;
      DigitInPlace(Lower(key[0]), e.pos, p);
      assert forall i :: 0 <= i < |f.text| && i != e.pos ==> f.text[i] == e.text[i];
    }
  }

  /**
    ENTER on a digit before the last moves like RIGHT; on the last, or when extended, it commits or
    reports error 4.
   */
  lemma EnterKeyCommits(e: Edit, p: Info, width: nat, verify: string -> bool, extended: bool, k: nat, r: nat)
    requires IsIp(p) && width >= 2 && Sound(e, p, width) && OnDigit(e, p, k, r)
    ensures var stripped := StripAll(e.text, p.sep);
      Press(e, p, width, verify, extended, EnterKey) ==
        if !extended && e.pos < p.maxlen - 1 then Press(e, p, width, verify, extended, RightKey)
        else if verify(stripped) then (e.(error := 0, value := stripped), ToSuccessor)
        else (e.(error := 4), Stay)
  {
    hide StripAll;
    hide MovedRight;
    hide NumbersFit;
    hide Separators;
    hide WellFormed;
    DigitParts(e, p, width, k, r);
  }

  /** MENU on the first digit leaves the item, and otherwise loads the value again. */
  lemma MenuKeyResets(e: Edit, p: Info, width: nat, verify: string -> bool, extended: bool)
    requires IsIp(p) && width >= 2 && Sound(e, p, width)
    ensures Press(e, p, width, verify, extended, MenuKey) ==
      if e.pos == 0 then (e.(error := 0), ToPredecessor)
      else (e.(error := 0, text := PadAll(e.value, p), pos := 0, offs := 0), Stay)
  {
    hide PadAll;
    hide NumbersFit;
    hide Separators;
    hide WellFormed;
  }

  // ----- typing an address ----------------------------------------------------------------------------------------

  /** The digits of an edit text from a place on, as keys; separators are not typed. */
  function KeysFrom(t: string, p: Info, i: nat): seq<Token>
    decreases |t| - i
  {
    if i >= |t| then []
    else (if i % (p.width + 1) == p.width then [] else [OtherKey([t[i]])]) + KeysFrom(t, p, i + 1)
  }

  lemma KeysFromDigit(t: string, p: Info, k: nat, r: nat)
    requires IsIp(p) && |t| == p.maxlen && k < GroupCount(p) && r < p.width
    ensures var i, q := PlaceOf(p, k, r), NextPlace(p, k, r);
      && i < |t| && KeysFrom(t, p, i) == [OtherKey([t[i]])] + if q == i then [] else KeysFrom(t, p, q)
  {
    hide *;
    var i := PlaceOf(p, k, r);
    PlaceFacts(p, k, r);
    PlaceFacts(p, k, r + 1);
    LastPlace(p, k, r);
    KeyAt(t, p, i);
    var k', r' := NextDigit(p, k, r);
    if i + 1 < |t| {
      KeyAt(t, p, i + 1);
    } else {
      NoKeys(t, p, i + 1);
    }
    var q := NextPlace(p, k, r);
    PlaceFacts(p, k', r');
    assert q == i || q == i + 1 || q == i + 2;
  }

  lemma KeyAt(t: string, p: Info, i: nat)
    requires i < |t|
    ensures KeysFrom(t, p, i) ==
      if i % (p.width + 1) == p.width then KeysFrom(t, p, i + 1) else [OtherKey([t[i]])] + KeysFrom(t, p, i + 1)
  {
    var more := KeysFrom(t, p, i + 1);
    assert [] + more == more;
  }

  lemma NoKeys(t: string, p: Info, i: nat)
    requires i >= |t|
    ensures KeysFrom(t, p, i) == []
  {
  }

  lemma PrintedIsDigitKey(t: string, p: Info, k: nat, r: nat)
    requires IsIp(p) && |t| == p.maxlen && WellFormed(t, p) && k < GroupCount(p) && r < p.width
    ensures var i := PlaceOf(p, k, r); i < |t| && IsDigitKey(p, [t[i]]) && Lower(t[i]) == t[i]
  {
    PlaceFacts(p, k, r);
    assert InPlace(t[PlaceOf(p, k, r)], PlaceOf(p, k, r), p);
  }

  /** The group and digit behind the one typed. */
  lemma NextDigit(p: Info, k: nat, r: nat) returns (k': nat, r': nat)
    requires IsIp(p) && k < GroupCount(p) && r < p.width
    ensures k' < GroupCount(p) && r' < p.width && NextPlace(p, k, r) == PlaceOf(p, k', r')
    ensures PlaceOf(p, k', r') == PlaceOf(p, k, r) || PlaceOf(p, k, r) < PlaceOf(p, k', r') <= PlaceOf(p, k, r) + 2
    ensures PlaceOf(p, k', r') == PlaceOf(p, k, r) + 2 ==> (PlaceOf(p, k, r) + 1) % (p.width + 1) == p.width
    ensures PlaceOf(p, k', r') == PlaceOf(p, k, r) <==> PlaceOf(p, k, r) == p.maxlen - 1
  {
    k', r' := k, r;
    if r + 1 < p.width {
      r' := r + 1;
    } else if k + 1 < GroupCount(p) {
      k', r' := k + 1, 0;
    }
    LastPlace(p, k, r);
    PlaceFacts(p, k, p.width);
    PlaceFacts(p, k', r');
  }

  /** Texts in full width agree on all separators. */
  lemma SameSeparators(s: string, t: string, p: Info, i: nat)
    requires IsIp(p) && |s| == |t| == p.maxlen && WellFormed(s, p) && WellFormed(t, p)
    requires i < p.maxlen && i % (p.width + 1) == p.width
    ensures s[i] == t[i]
  {
    assert InPlace(s[i], i, p) && InPlace(t[i], i, p);
  }

  lemma PressOne(e: Edit, p: Info, width: nat, verify: string -> bool, extended: bool, token: Token, more: seq<Token>)
    requires IsIp(p) && width >= 2 && Sound(e, p, width)
    ensures Sound(Press(e, p, width, verify, extended, token).0, p, width)
    ensures PressAll(e, p, width, verify, extended, [token] + more) ==
      PressAll(Press(e, p, width, verify, extended, token).0, p, width, verify, extended, more)
  {
    hide Press;
    hide Sound;
    PressKeeps(e, p, width, verify, extended, token);
    assert ([token] + more)[1..] == more;
  }

  /** Typing the digits of a text from the cursor on leaves that text, with the cursor on its last digit. */
  lemma {:induction false} TypingWrites(
      e: Edit, p: Info, width: nat, verify: string -> bool, extended: bool, t: string, k: nat, r: nat)
    requires IsIp(p) && width >= 2 && Sound(e, p, width) && k < GroupCount(p) && OnDigit(e, p, k, r)
    requires |t| == p.maxlen && WellFormed(t, p) && |e.text| == |t| && e.pos <= |t| && e.text[..e.pos] == t[..e.pos]
    ensures var f := PressAll(e, p, width, verify, extended, KeysFrom(t, p, e.pos));
      Sound(f, p, width) && f.text == t && f.pos == p.maxlen - 1 && f.value == e.value
    decreases p.maxlen - e.pos
  {
    hide *;
    OnDigitIs(e, p, k, r);
    SoundParts(e, p, width);
    PrintedIsDigitKey(t, p, k, r);
    KeysFromDigit(t, p, k, r);
    DigitKeyWrites(e, p, width, verify, extended, k, r, [t[e.pos]]);
    var k', r' := NextDigit(p, k, r);
    var q := NextPlace(p, k, r);
    var more := if q == e.pos then [] else KeysFrom(t, p, q);
    PressOne(e, p, width, verify, extended, OtherKey([t[e.pos]]), more);
    var f := Press(e, p, width, verify, extended, OtherKey([t[e.pos]])).0;
    SoundParts(f, p, width);
    WrittenUpTo(e.text, t, p, e.pos, q);
    if q == e.pos {
      NoMoreKeys(f, p, width, verify, extended);
    } else {
      OnDigitIs(f, p, k', r');
      TypingWrites(f, p, width, verify, extended, t, k', r');
    }
  }

  lemma OnDigitIs(e: Edit, p: Info, k: nat, r: nat)
    ensures OnDigit(e, p, k, r) <==> r < p.width && e.pos == PlaceOf(p, k, r)
  {
  }

  lemma NoMoreKeys(e: Edit, p: Info, width: nat, verify: string -> bool, extended: bool)
    requires IsIp(p) && width >= 2 && Sound(e, p, width)
    ensures PressAll(e, p, width, verify, extended, []) == e
  {
  }

  lemma WrittenUpTo(s: string, t: string, p: Info, i: nat, q: nat)
    requires IsIp(p) && |s| == |t| == p.maxlen && WellFormed(s, p) && WellFormed(t, p)
    requires i < p.maxlen && s[..i] == t[..i]
    requires q == i || (i < q <= i + 2 && q < p.maxlen)
    requires q == i <==> i == p.maxlen - 1
    requires q == i + 2 ==> (i + 1) % (p.width + 1) == p.width
    ensures var s' := s[i := t[i]];
      && |s'| == |t| && (if q == i then s' == t else s'[..q] == t[..q])
  {
    hide WellFormed;
    var s' := s[i := t[i]];
    assert forall j :: 0 <= j < i ==> s[j] == s[..i][j] == t[..i][j] == t[j];
    if q == i + 2 {
      SameSeparators(s, t, p, i + 1);
    }
  }

  /** Typing the digits of an address from the first one on and pressing ENTER makes its stripped form the value. */
  lemma TypedAddressIsCommitted(e: Edit, p: Info, width: nat, verify: string -> bool, extended: bool, t: string)
    requires IsIp(p) && width >= 2 && Sound(e, p, width) && e.pos == 0
    requires |t| == p.maxlen && WellFormed(t, p) && verify(StripAll(t, p.sep))
    ensures var f := PressAll(e, p, width, verify, extended, KeysFrom(t, p, 0));
      && Sound(f, p, width) && f.text == t
      && Press(f, p, width, verify, extended, EnterKey) == (f.(error := 0, value := StripAll(t, p.sep)), ToSuccessor)
  {
    hide *;
    FirstPlaceIs(p);
    OnDigitIs(e, p, 0, 0);
    SoundParts(e, p, width);
    assert e.text[..0] == t[..0];
    TypingWrites(e, p, width, verify, extended, t, 0, 0);
    var f := PressAll(e, p, width, verify, extended, KeysFrom(t, p, 0));
    OnDigitIs(f, p, GroupCount(p) - 1, p.width - 1);
    EnterKeyCommits(f, p, width, verify, extended, GroupCount(p) - 1, p.width - 1);
  }

  lemma FirstPlaceIs(p: Info)
    requires IsIp(p)
    ensures PlaceOf(p, 0, 0) == 0 && p.width > 0 && GroupCount(p) > 0 && p.maxlen > 0
    ensures PlaceOf(p, GroupCount(p) - 1, p.width - 1) == p.maxlen - 1
  {
    if p == IPV4 {
      assert GroupCount(p) == 4 && PlaceOf(p, 3, 2) == 14;
    } else {
      assert GroupCount(p) == 8 && PlaceOf(p, 7, 3) == 38;
    }
  }

  /** In particular every canonical address in lower case can be typed as it is. */
  lemma CanonicalAddressIsTyped(e: Edit, p: Info, width: nat, verify: string -> bool, extended: bool, s: string)
    requires IsIp(p) && width >= 2 && Sound(e, p, width) && e.pos == 0
    requires CanonicalGroups(s, p, GroupCount(p)) && !HasUpperCase(s) && verify(s)
    ensures var f := PressAll(e, p, width, verify, extended, KeysFrom(PadAll(s, p), p, 0));
      Sound(f, p, width) && Press(f, p, width, verify, extended, EnterKey) == (f.(error := 0, value := s), ToSuccessor)
  {
    hide *;
    IpBases(p);
    var n := GroupCount(p);
    CanonicalIsGroups(s, p, n);
    PadIsFull(s, p, n);
    FullLength(PadAll(s, p), p, n);
    FullIsWellFormed(PadAll(s, p), p, n);
    StripOfPadIff(s, p, n);
    TypedAddressIsCommitted(e, p, width, verify, extended, PadAll(s, p));
  }
}
