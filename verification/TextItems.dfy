/**
  The alphanumeric and numeric menu items as the objects that the server keeps.  Every key does to their
  buffers what TextEditors says.
 */
module TextItems {
  import opened Common
  import opened Snprintf
  import opened CStrings
  import opened IpEditor
  import opened TextEditors

  class AlphaItem {
    const minLength: nat
    const maxLength: nat
    const allowCaps: bool
    const allowNoncaps: bool
    const allowNumbers: bool
    const allowedExtra: string
    const below: char           // what is in memory in front of the list of allowed characters
    const width: nat
    const editStr: array<char>
    var value: string
    var editPos: nat
    var editOffs: nat
    var errorCode: nat

    function Settings(): Alpha {
      Alpha(minLength, maxLength, Alphabet(allowCaps, allowNoncaps, allowNumbers, allowedExtra), below)
    }

    function State(): EditField
      reads this, editStr
    {
      EditField(editStr[..], editPos, editOffs, errorCode)
    }

    ghost predicate Made()
      reads this
    {
      width >= 2 && IsAlpha(Settings()) && editStr.Length == maxLength + 1 && |value| <= maxLength && NUL !in value
    }

    ghost predicate Valid()
      reads this, editStr
    {
      Made() && SoundField(State(), maxLength, width)
    }

    method Reset()
      requires Made()
      modifies this`editPos, this`editOffs, editStr
      ensures Valid() && State() == Loaded(value, maxLength + 1).(error := errorCode)
    {
      editPos := 0;
      editOffs := 0;
      forall i | 0 <= i < editStr.Length { editStr[i] := if i < |value| then value[i] else NUL; }
      assert editStr[..] == Loaded(value, maxLength + 1).buf;
    }

    method MoveRight(pos: nat)
      requires pos == editPos
      modifies this`editPos, this`editOffs
      ensures State() == Right(old(State()), width)
    {
      editPos := editPos + 1;
      if pos + 2 >= width {
        editOffs := editOffs + 1;
      }
    }

    method ProcessInput(token: Token, extended: bool) returns (outcome: Outcome)
      requires Valid()
      modifies this, editStr
      ensures Valid()
      ensures (State(), value, outcome) == PressAlpha(old(State()), old(value), Settings(), width, extended, token)
    {
      hide NextChar;
      hide PreviousChar;
      hide Alphabet;
      hide CString;
      ghost var f := State();
      PressAlphaKeeps(f, value, Settings(), width, extended, token);
      TextEnds(f, maxLength, width);
      NoNul(editStr[..]);
      var pos := editPos;
      var chars := Alphabet(allowCaps, allowNoncaps, allowNumbers, allowedExtra);
      errorCode := 0;
      outcome := Stay;
      match token
      case MenuKey =>
        if pos == 0 {
          outcome := ToPredecessor;
        } else {
          Reset();
        }
      case EnterKey =>
        if extended || editStr[editPos] == NUL {
          if |CString(editStr[..])| < minLength {
            errorCode := 3;
          } else {
            value := CString(editStr[..]);
            outcome := ToSuccessor;
          }
        } else if pos < maxLength {
          MoveRight(pos);
        }
      case UpKey =>
        if pos >= maxLength {
          Refuse();
        } else {
          editStr[pos] := NextChar(chars, editStr[pos]);
        }
      case DownKey =>
        if pos >= maxLength {
          Refuse();
        } else {
          editStr[pos] := if chars == "" && editStr[pos] == NUL then below else PreviousChar(chars, editStr[pos]);
        }
      case RightKey =>
        if editStr[editPos] != NUL && pos < maxLength - 1 {
          MoveRight(pos);
        }
      case LeftKey =>
        if pos > 0 {
          editPos := editPos - 1;
          if editOffs > editPos {
            editOffs := editPos;
          }
        }
      case OtherKey(key) =>
        if pos >= maxLength {
          Refuse();
        } else if |key| == 1 && ' ' <= key[0] < 128 as char && key[0] in chars {
          editStr[pos] := key[0];
          MoveRight(pos);
        }
    }

    /** Nothing may be added any more. */
    method Refuse()
      modifies this`editPos, this`editOffs, this`errorCode
      ensures State() == Full(old(State()))
    {
      errorCode := 2;
      editPos := 0;
      editOffs := 0;
    }
  }

  lemma NoNul(b: seq<char>)
    ensures NUL !in CString(b)
  {
    hide FirstIndex;
    FirstIndexFacts(b, NUL);
  }

  class NumericItem {
    const minValue: int
    const maxValue: int
    const width: nat
    const editStr: array<char>
    var value: int
    var editPos: nat
    var editOffs: nat
    var errorCode: nat

    function Settings(): Numeric { Numeric(minValue, maxValue) }

    function State(): EditField
      reads this, editStr
    {
      EditField(editStr[..], editPos, editOffs, errorCode)
    }

    ghost predicate Made()
      reads this
    {
      width >= 2 && IsNumeric(Settings()) && IsInt(value) && editStr.Length == MAX_NUMERIC_LEN
    }

    ghost predicate Valid()
      reads this, editStr
    {
      Made() && SoundNumeric(State(), value, Settings(), width)
    }

    method Reset()
      requires Made()
      modifies this`editPos, this`editOffs, editStr
      ensures Valid() && State() == Loaded(Formatted(Settings(), value), MAX_NUMERIC_LEN).(error := errorCode)
    {
      hide Formatted;
      editPos := 0;
      editOffs := 0;
      FormattedFits(Settings(), value);
      var text := Formatted(Settings(), value);
      forall i | 0 <= i < editStr.Length { editStr[i] := if i < |text| then text[i] else NUL; }
      assert editStr[..] == Loaded(text, MAX_NUMERIC_LEN).buf;
    }

    method MoveRight(pos: nat)
      requires pos == editPos
      modifies this`editPos, this`editOffs
      ensures State() == Right(old(State()), width)
    {
      editPos := editPos + 1;
      if pos + 2 >= width {
        editOffs := editOffs + 1;
      }
    }

    method Refuse()
      modifies this`editPos, this`editOffs, this`errorCode
      ensures State() == Full(old(State()))
    {
      errorCode := 2;
      editPos := 0;
      editOffs := 0;
    }

    /** UP and DOWN: the sign of a signed number, or a digit. */
    method Step(up: bool)
      requires Valid() && errorCode == 0
      modifies this`editPos, this`editOffs, this`errorCode, editStr
      ensures State() == Stepped(old(State()), Settings(), up)
    {
      hide Formatted;
      var pos := editPos;
      if pos >= MaxLength(Settings()) {
        Refuse();
      } else if minValue < 0 && pos == 0 {
        editStr[0] := if editStr[0] == '-' then '+' else '-';
      } else if up {
        if '0' <= editStr[pos] < '9' {
          editStr[pos] := (editStr[pos] as int + 1) as char;
        } else if editStr[pos] == '9' {
          editStr[pos] := NUL;
        } else if editStr[pos] == NUL {
          editStr[pos] := '0';
        }
      } else {
        if '0' < editStr[pos] <= '9' {
          editStr[pos] := (editStr[pos] as int - 1) as char;
        } else if editStr[pos] == '0' {
          editStr[pos] := NUL;
        } else if editStr[pos] == NUL {
          editStr[pos] := '9';
        }
      }
    }

    method ProcessInput(token: Token, extended: bool) returns (answer: Answer)
      requires Valid()
      modifies this, editStr
      ensures Valid()
      ensures (State(), value, answer) == PressNumeric(old(State()), old(value), Settings(), width, extended, token)
    {
      hide CString;
      hide Scan;
      hide Formatted;
      ghost var f := State();
      PressNumericKeeps(f, value, Settings(), width, extended, token);
      TextEnds(f, MAX_NUMERIC_LEN - 1, width);
      LengthFits(Settings());
      var pos := editPos;
      errorCode := 0;
      answer := Done(Stay);
      match token
      case MenuKey =>
        if pos == 0 {
          answer := Done(ToPredecessor);
        } else {
          Reset();
        }
      case EnterKey =>
        if extended || editStr[pos] == NUL {
          match Scan(CString(editStr[..])) {
            case None => answer := Failed;
            case Some(v) =>
              if v < minValue || v > maxValue {
                errorCode := 1;
                editPos := 0;
                editOffs := 0;
              } else {
                value := v;
                answer := Done(ToSuccessor);
              }
          }
        } else if pos < MaxLength(Settings()) {
          MoveRight(pos);
        }
      case UpKey => Step(true);
      case DownKey => Step(false);
      case RightKey =>
        if editStr[pos] != NUL && pos < MaxLength(Settings()) {
          MoveRight(pos);
        }
      case LeftKey =>
        if pos > 0 {
          editPos := editPos - 1;
          if editOffs > editPos {
            editOffs := editPos;
          }
        }
      case OtherKey(key) =>
        if pos >= MaxLength(Settings()) {
          Refuse();
        } else if |key| == 1 && IsDigit(key[0]) {
          editStr[pos] := key[0];
          MoveRight(pos);
        }
    }
  }
}
