/**
  The IP menu item as the object that the server keeps: its buffers, and the key handler that works
  in them.  Every key does to the buffers what IpEditor.Press says.
 */
module IpItems {
  import opened Common
  import opened Numbers
  import opened IpText
  import opened IpEditor
  import opened CStrings
  import opened StripLoop

  function InfoFor(v6: bool): (p: Info)
    ensures IsIp(p)
  {
    if v6 then IPV6 else IPV4
  }

  function Dummy(v6: bool): string { if v6 then "0:0:0:0:0:0:0:0" else "0.0.0.0" }

  class IpItem {
    const v6: bool
    const width: nat
    const verify: string -> bool
    const editStr: array<char>
    var value: string
    var editPos: nat
    var editOffs: nat
    var errorCode: nat

    /** The buffer has room for the longest text and its NUL, and the display shows at least one digit. */
    predicate Made()
    {
      width >= 2 && editStr.Length == InfoFor(v6).maxlen + 1
    }

    function State(): Edit
      requires Made()
      reads this, editStr
    {
      Edit(value, editStr[..InfoFor(v6).maxlen], editPos, editOffs, errorCode)
    }

    /** The item is being edited. */
    ghost predicate Valid()
      reads this, editStr
    {
      Made() && editStr[InfoFor(v6).maxlen] == NUL && Sound(State(), InfoFor(v6), width)
    }

    /** The value given is cut at the length of an address, stripped, and replaced when it is not an address. */
    constructor (v6: bool, width: nat, verify: string -> bool, initial: string)
      requires width >= 2 && NUL !in initial
      ensures Made() && fresh(editStr) && this.v6 == v6 && this.width == width && this.verify == verify
      ensures var p := InfoFor(v6);
        var stripped := StripAll(Prefix(initial, p.maxlen), p.sep);
        value == if verify(stripped) then stripped else Dummy(v6)
    {
      hide StripAll;
      hide CString;
      hide Ends;
      hide FirstIndex;
      hide Prefix;
      hide Dummy;
      var p := InfoFor(v6);
      InfoFacts(v6);
      var buffer := new char[p.maxlen + 1];
      var text := Prefix(initial, p.maxlen);
      PrefixFits(initial, p.maxlen);
      forall i | 0 <= i < buffer.Length { buffer[i] := if i < |text| then text[i] else NUL; }
      Filled(buffer[..], text);
      StripGroups(buffer, p.sep);
      var stripped := CString(buffer[..]);
      this.v6 := v6;
      this.width := width;
      this.verify := verify;
      this.value := if verify(stripped) then stripped else Dummy(v6);
      this.editStr := new char[p.maxlen + 1];
      editPos, editOffs, errorCode := 0, 0, 0;
    }

    // ----- resetting --------------------------------------------------------------------------------

    /** strcat, at the known end of the string. */
    method Append(len: nat, text: string)
      requires Made() && len + |text| <= InfoFor(v6).maxlen && editStr[InfoFor(v6).maxlen] == NUL
      modifies editStr
      ensures editStr[..len + |text|] == old(editStr[..len]) + text && editStr[InfoFor(v6).maxlen] == NUL
    {
      forall i | 0 <= i < |text| { editStr[len + i] := text[i]; }
    }

    /** Start editing the value from the left. */
    method Reset()
      requires Made() && Resettable(value, InfoFor(v6))
      modifies this, editStr
      ensures Valid() && State() == ResetEdit(old(State()), InfoFor(v6))
    {
      hide PadAll;
      hide NumbersFit;
      hide Separators;
      hide Padded;
      hide Strtol;
      hide FirstIndex;
      hide WellFormed;
      hide GroupCount;
      hide Power;
      var p := InfoFor(v6);
      InfoFacts(v6);
      editPos := 0;
      editOffs := 0;
      forall i | 0 <= i < editStr.Length { editStr[i] := NUL; }
      PadLength(value, p);
      ResettableIff(State(), p, width);
      var start: nat, len: nat := 0, 0;
      ghost var done, rest := "", value;
      PadStarts(value, p);
      while true
        invariant unchanged(this`value) && unchanged(this`errorCode) && editPos == 0 && editOffs == 0
        invariant start <= |value| && rest == value[start..] && len <= InfoFor(v6).maxlen
          && editStr[InfoFor(v6).maxlen] == NUL
        invariant len == |done| && editStr[..len] == done && PadLoop(done, rest, p, PadAll(value, p))
        decreases |rest|
      {
        PaddedGroup(done, rest, p, PadAll(value, p));
        var group := Padded(Strtol(value[start..], p.base), p.width, p.base);
        Append(len, group);
        len := len + |group|;
        var end := FirstIndex(value[start..], p.sep);
        if end == |value[start..]| {
          break;
        }
        start := start + end + 1;
        Append(len, [p.sep]);
        len := len + 1;
        done, rest := done + group + [p.sep], rest[end + 1..];
      }
    }

    // ----- the key handler --------------------------------------------------------------------------

    /** One digit to the right, scrolling until the cursor is in the window again. */
    method MoveRight()
      requires Made() && editPos + 1 < InfoFor(v6).maxlen && editOffs <= editPos
      modifies this`editPos, this`editOffs
      ensures State() == MovedRight(old(State()), InfoFor(v6), width)
    {
      var p := InfoFor(v6);
      editPos := editPos + 1;
      if editStr[editPos] == p.sep {
        editPos := editPos + 1;
      }
      ghost var offs := editOffs;
      while editPos - editOffs > width - 2
        invariant unchanged(this`value) && unchanged(this`errorCode)
          && offs <= editOffs <= Max(offs, editPos - (width - 2))
        invariant editPos == MovedRight(old(State()), p, width).pos
      {
        editOffs := editOffs + 1;
      }
    }

    method MoveLeft()
      requires Valid() && editPos > 0
      modifies this`editPos, this`editOffs
      ensures State() == MovedLeft(old(State()), InfoFor(v6))
    {
      hide Resettable;
      hide WellFormed;
      var p := InfoFor(v6);
      Neighbours(p, editPos);
      PlaceIs(p, State().text, editPos - 1);
      editPos := editPos - 1;
      if editStr[editPos] == p.sep {
        editPos := editPos - 1;
      }
      if editOffs > editPos {
        editOffs := editPos;
      }
    }

    /** UP and DOWN: the group as a number, stepped by the place value of the digit, printed over the group. */
    method Bump(up: bool)
      requires Valid()
      modifies editStr
      ensures GroupStart(InfoFor(v6), editPos) + InfoFor(v6).width <= |old(State()).text|
      ensures editStr[InfoFor(v6).maxlen] == NUL && State() == Bumped(old(State()), InfoFor(v6), up)
    {
      hide Resettable;
      hide WellFormed;
      hide Padded;
      hide Strtol;
      hide PlaceValue;
      hide Power;
      hide Number;
      hide GroupStart;
      var p := InfoFor(v6);
      ghost var e := State();
      GroupFits(p, editPos);
      BumpPrints(e, p, width, up);
      var start := GroupStart(p, editPos);
      var num := Strtol(editStr[start..p.maxlen], p.base);
      assert editStr[start..p.maxlen] == e.text[start..];
      var step := PlaceValue(p, editPos);
      if up {
        num := num + step;
        if num > p.limit {
          num := 0;
        }
      } else {
        num := if num < step then p.limit else num - step;
      }
      var numstr := Padded(num, p.width, p.base);
      Overwrite(start, numstr);
    }

    /** memcpy into the edit text. */
    method Overwrite(start: nat, piece: string)
      requires Made() && start + |piece| <= InfoFor(v6).maxlen
      modifies editStr
      ensures editStr[InfoFor(v6).maxlen] == old(editStr[InfoFor(v6).maxlen])
      ensures State() ==
        old(State()).(text := old(State()).text[..start] + piece + old(State()).text[start + |piece|..])
    {
      ghost var text := State().text;
      forall i | 0 <= i < |piece| { editStr[start + i] := piece[i]; }
      assert State().text == text[..start] + piece + text[start + |piece|..];
    }

    method ProcessInput(token: Token, extended: bool) returns (outcome: Outcome)
      requires Valid()
      modifies this, editStr
      ensures Valid() && (State(), outcome) == Press(old(State()), InfoFor(v6), width, verify, extended, token)
    {
      hide Resettable;
      hide WellFormed;
      hide Padded;
      hide PadAll;
      hide StripAll;
      hide Strtol;
      hide FirstIndex;
      hide Bumped;
      hide MovedLeft;
      hide MovedRight;
      hide IsPrintedDigit;
      var p := InfoFor(v6);
      ghost var e := State();
      PressKeeps(e, p, width, verify, extended, token);
      errorCode := 0;
      outcome := Stay;
      match token
      case MenuKey =>
        if editPos == 0 {
          outcome := ToPredecessor;
        } else {
          Reset();
        }
      case EnterKey =>
        if extended || editPos >= p.maxlen - 1 {
          outcome := Commit();
        } else {
          MoveRight();
        }
      case UpKey => Bump(true);
      case DownKey => Bump(false);
      case RightKey =>
        if editPos < p.maxlen - 1 {
          MoveRight();
        }
      case LeftKey =>
        if editPos > 0 {
          MoveLeft();
        }
      case OtherKey(key) =>
        if |key| == 1 && IsPrintedDigit(Lower(key[0]), p.base) {
          editStr[editPos] := Lower(key[0]);
          assert State().text == e.text[e.pos := Lower(key[0])];
          if editPos < p.maxlen - 1 {
            MoveRight();
          }
        }
    }

    /** Strip a copy of the edit text; it becomes the value when it is an address. */
    method Commit() returns (outcome: Outcome)
      requires Valid() && errorCode == 0
      modifies this`value, this`errorCode
      ensures (State(), outcome) == Committed(old(State()), InfoFor(v6), verify)
    {
      hide Resettable;
      hide WellFormed;
      hide StripAll;
      hide FirstIndex;
      hide CString;
      hide Ends;
      var p := InfoFor(v6);
      InfoFacts(v6);
      ghost var e := State();
      var tmp := new char[p.maxlen + 1];
      forall i | 0 <= i < tmp.Length { tmp[i] := editStr[i]; }
      TextIsString(tmp[..], e, p, width);
      StripGroups(tmp, p.sep);
      var stripped := CString(tmp[..]);
      assert stripped == StripAll(e.text, p.sep);
      if !verify(stripped) {
        errorCode := 4;
        assert State() == e.(error := 4);
        return Stay;
      }
      value := stripped;
      assert State() == e.(value := stripped);
      return ToSuccessor;
    }
  }

  /** A well-formed edit text is the string of its buffer. */
  lemma TextIsString(b: seq<char>, e: Edit, p: Info, width: nat)
    requires IsIp(p) && Sound(e, p, width) && |b| == p.maxlen + 1 && b[p.maxlen] == NUL
    requires forall i :: 0 <= i < p.maxlen ==> b[i] == e.text[i]
    ensures Ends(b) && CString(b) == e.text
  {
    hide Resettable;
    hide FirstIndex;
    assert b[..p.maxlen] == e.text;
    forall i | 0 <= i < p.maxlen ensures e.text[i] != NUL {
      assert InPlace(e.text[i], i, p);
    }
    EndsAt(b, p.maxlen);
  }

  /** What UP and DOWN print fills the group. */
  lemma GroupFits(p: Info, pos: nat)
    requires IsIp(p) && pos < p.maxlen
    ensures GroupStart(p, pos) + p.width <= p.maxlen
  {
    InGroup(p, pos);
  }

  lemma BumpPrints(e: Edit, p: Info, width: nat, up: bool)
    requires IsIp(p) && width >= 2 && Sound(e, p, width) && GroupStart(p, e.pos) + p.width <= |e.text|
    ensures |Padded(NextNumber(Strtol(e.text[GroupStart(p, e.pos)..], p.base), p, e.pos, up), p.width, p.base)| ==
      p.width
  {
    hide Resettable;
    hide WellFormed;
    hide Padded;
    hide Strtol;
    hide PlaceValue;
    hide Power;
    InGroup(p, e.pos);
    GroupNumber(e.text, p, GroupStart(p, e.pos));
    Limits(p);
    NumberOfPadded(NextNumber(Strtol(e.text[GroupStart(p, e.pos)..], p.base), p, e.pos, up), p.width, p.base);
  }

  /** The pad loop at a group: the groups before are done, the rest is still to pad. */
  ghost predicate PadLoop(done: string, rest: string, p: Info, goal: string)
    requires p.base in {10, 16}
  {
    NumbersFit(rest, p) && done + PadAll(rest, p) == goal
  }

  lemma PadStarts(s: string, p: Info)
    requires p.base in {10, 16} && NumbersFit(s, p)
    ensures PadLoop("", s, p, PadAll(s, p)) && s == s[0..]
  {
    hide PadAll;
    assert "" + PadAll(s, p) == PadAll(s, p);
  }

  lemma PaddedGroup(done: string, rest: string, p: Info, goal: string)
    requires p.base in {10, 16} && PadLoop(done, rest, p, goal)
    ensures var end := FirstIndex(rest, p.sep);
      var group := Padded(Strtol(rest, p.base), p.width, p.base);
      if end == |rest| then done + group == goal
      else
        && PadLoop(done + group + [p.sep], rest[end + 1..], p, goal)
        && |done + group| + 1 <= |goal|
  {
    hide PadAll;
    hide NumbersFit;
    hide Separators;
    hide Padded;
    hide Strtol;
    hide FirstIndex;
    PadUnfolds(rest, p);
    FitUnfolds(rest, p);
    var end := FirstIndex(rest, p.sep);
    var group := Padded(Strtol(rest, p.base), p.width, p.base);
    if end < |rest| {
      Regroup(done, group, [p.sep], PadAll(rest[end + 1..], p));
      ThreePieces(done, group, [p.sep]);
    }
  }

  lemma InfoFacts(v6: bool)
    ensures var p := InfoFor(v6);
      IsIp(p) && p.base in {10, 16} && p.sep != NUL && p.sep != ' ' && p.sep != '0'
  {
  }

  lemma PrefixFits(s: string, n: nat)
    requires NUL !in s
    ensures |Prefix(s, n)| <= n && NUL !in Prefix(s, n)
  {
  }

  lemma Filled(b: seq<char>, text: string)
    requires NUL !in text && |text| < |b|
    requires forall i :: 0 <= i < |b| ==> b[i] == if i < |text| then text[i] else NUL
    ensures Ends(b) && CString(b) == text
  {
    hide FirstIndex;
    assert b[..|text|] == text;
    EndsAt(b, |text|);
  }

  lemma ResettableIs(s: string, p: Info)
    requires IsIp(p)
    ensures Resettable(s, p) <==> NumbersFit(s, p) && Separators(s, p.sep) + 1 == GroupCount(p)
  {
  }

  lemma PadLength(s: string, p: Info)
    requires IsIp(p) && Resettable(s, p)
    ensures |PadAll(s, p)| == p.maxlen
  {
    hide *;
    ResettableIs(s, p);
    IpBases(p);
    PadFillsGroups(s, p);
    FullLength(PadAll(s, p), p, GroupCount(p));
  }
}
