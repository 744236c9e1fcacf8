/**
  The layout of integer conversions, against the wording of section 7.19.6.1 of ISO/IEC 9899:1999,
  and the allocating members of the family, which rely on the length being independent of the buffer.
 */
module SnprintfLayout {
  import opened Common
  import Numbers
  import opened Snprintf

  // ----- the standard's layout ---------------------------------------------------------------

  function Sign(d: Directive, v: int): string {
    if d.spec != 'd' then ""
    else if v < 0 then "-"
    else if d.flags.force then (if d.flags.space then " " else "+")
    else ""
  }

  /** A nonzero result of %#x or %#X has 0x or 0X in front. */
  function Prefix(d: Directive, v: int): string {
    if d.flags.alt && v != 0 && d.spec == 'x' then "0x"
    else if d.flags.alt && v != 0 && d.spec == 'X' then "0X"
    else ""
  }

  function Magnitude(d: Directive, v: int): (r: string)
    ensures r != "" && (r[0] == '0' <==> v == 0)
  {
    var n := if v < 0 then -v else v;
    if d.spec == 'o' then Digits(n, 8, false)
    else if d.spec == 'x' then Digits(n, 16, false)
    else if d.spec == 'X' then Digits(n, 16, true)
    else Digits(n, 10, false)
  }

  /** The precision is the minimum number of digits; zero with precision zero has none. */
  function PreciseDigits(d: Directive, v: int): string {
    var precision := if d.precise then d.precision else 1;
    if v == 0 && precision == 0 then ""
    else Repeat('0', precision - |Magnitude(d, v)|) + Magnitude(d, v)
  }

  /** %#o increases the precision to make the first digit a zero. */
  function AllDigits(d: Directive, v: int): string {
    var digits := PreciseDigits(d, v);
    if d.flags.alt && d.spec == 'o' && (digits == "" || digits[0] != '0') then "0" + digits else digits
  }

  /**
    Sign or prefix and digits in their field: a '-' flag overrides a '0' flag, and so does a precision.
   */
  function Placed(d: Directive, front: string, digits: string): string {
    var missing := d.width - |front + digits|;
    if d.flags.left then front + digits + Repeat(' ', missing)
    else if d.flags.zero && !d.precise then front + Repeat('0', missing) + digits
    else Repeat(' ', missing) + (front + digits)
  }

  function Standard(d: Directive, v: int): string {
    Placed(d, Sign(d, v) + Prefix(d, v), AllDigits(d, v))
  }

  // ----- when the program meets it --------------------------------------------------------------

  /**
    Whether zero with precision zero is to be left out is decided on the fetched argument, not on the
    short that is printed.
   */
  predicate DigitsMisjudged(d: Directive, i: int) {
    d.precise && d.precision == 0 && Converted(d, i) == 0 && Fetched(d, i) != 0 && !(d.spec == 'o' && d.flags.alt)
  }

  /** So are the sign and the prefix. */
  predicate FrontMisjudged(d: Directive, i: int) {
    var fetched, v := Fetched(d, i), Converted(d, i);
    match d.spec
    case 'd' => d.flags.force && (fetched >= 0) != (v >= 0)
    case 'o' => false
    case 'u' => false
    case _ => d.flags.alt && v == 0 && fetched != 0
  }

  predicate Misjudged(d: Directive, i: int) {
    DigitsMisjudged(d, i) || FrontMisjudged(d, i)
  }

  /** A blank too many or too few in front of the sign does not show among the blanks of a wide enough field. */
  predicate BlankIsHidden(d: Directive, i: int) {
    var v := Converted(d, i);
    && d.spec == 'd' && d.flags.space && !d.flags.left && !(d.flags.zero && !d.precise)
    && !DigitsMisjudged(d, i)
    && d.width > |AllDigits(d, v)| + (if v < 0 then 1 else 0)
  }

  /** Only a length modifier 'h' can be misjudged. */
  lemma OnlyShortsAreMisjudged(d: Directive, i: int)
    requires IsInteger(d.spec) && Misjudged(d, i)
    ensures d.length == 'h' && Fetched(d, i) != Converted(d, i)
  {
  }

  /** The digits the program prints for v, and what it puts in front of them. */
  function Printed(d: Directive, i: int): string {
    if (if d.precise then d.precision else 1) == 0 && Fetched(d, i) == 0 then "" else Magnitude(d, Converted(d, i))
  }

  function Front(d: Directive, i: int): string {
    OwnPrefix(d, Fetched(d, i)) + if d.spec == 'd' && Converted(d, i) < 0 then "-" else ""
  }

  lemma SprintfIs(d: Directive, v: int)
    requires IsInteger(d.spec) && (d.spec != 'd' ==> v >= 0)
    ensures Sprintf(d.spec, v) == (if d.spec == 'd' && v < 0 then "-" else "") + Magnitude(d, v)
  {
    assert "" + Magnitude(d, v) == Magnitude(d, v);
  }

  lemma PrefixNotDoubled(own: string, minus: string, digits: string)
    requires own in ["", " ", "+", "0x", "0X"] && minus in ["", "-"]
    requires digits != "" && digits[0] != '-' && (|digits| >= 2 ==> digits[1] != 'x' && digits[1] != 'X')
    ensures InsertionPoint(own + (minus + digits), |own|) == |own + minus|
  {
    var text := own + (minus + digits);
    assert text == own + minus + digits;
    assert forall k :: 0 <= k < |digits| ==> text[|own + minus| + k] == digits[k];
    assert minus != "" ==> text[|own|] == '-';
  }

  /** The text and insertion point of an integer conversion. */
  lemma NumberText(d: Directive, i: int)
    requires IsInteger(d.spec)
    ensures var f := NumberField(d, i);
      f.text == Front(d, i) + Printed(d, i) && f.insert == |Front(d, i)|
  {
    hide Digits;
    hide Wrap;
    hide InsertionPoint;
    hide Magnitude;
    hide Sprintf;
    var v, own := Converted(d, i), OwnPrefix(d, Fetched(d, i));
    var minus := if d.spec == 'd' && v < 0 then "-" else "";
    if Printed(d, i) == "" {
      FetchedZero(d, i);
      assert own + "" + "" == own;
    } else {
      SprintfIs(d, v);
      MagnitudeDigits(d, v);
      PrefixNotDoubled(own, minus, Magnitude(d, v));
      assert own + (minus + Magnitude(d, v)) == own + minus + Magnitude(d, v);
    }
  }

  lemma MagnitudeDigits(d: Directive, v: int)
    ensures var r := Magnitude(d, v); r[0] != '-' && (|r| >= 2 ==> r[1] != 'x' && r[1] != 'X')
  {
  }

  lemma FetchedZero(d: Directive, i: int)
    requires Fetched(d, i) == 0
    ensures Converted(d, i) == 0
  {
  }

  /** Zeros inserted for the precision. */
  function PrecisionZeros(d: Directive, i: int): nat {
    var precision := if d.precise then d.precision else 1;
    var digits := Printed(d, i);
    var leadingZero := d.flags.alt && d.spec == 'o' && !(digits != "" && digits[0] == '0');
    var precision' := if leadingZero && (!d.precise || precision < |digits| + 1) then |digits| + 1 else precision;
    if |digits| < precision' then precision' - |digits| else 0
  }

  lemma NumberZeros(d: Directive, i: int)
    requires IsInteger(d.spec)
    ensures var f := NumberField(d, i);
      var n := Wrap(d.width - (|f.text| + PrecisionZeros(d, i)), 32);
      f == Field(f.text, f.insert,
        PrecisionZeros(d, i) + (if !d.flags.left && d.flags.zero && !d.precise && n > 0 then n else 0),
        d.flags.left, d.flags.zero && !d.precise, d.width)
  {
    hide Digits;
    hide Wrap;
    NumberText(d, i);
    var f := NumberField(d, i);
    var front, digits := Front(d, i), Printed(d, i);
    assert digits != "" ==> f.text[f.insert] == digits[0];
  }

  /** A field laid out without overflow: blanks, front, zeros, digits, blanks. */
  lemma LaidOutIs(f: Field, front: string, digits: string)
    requires f.text == front + digits && f.insert == |front|
    requires f.width <= INT_MAX && |f.text| + f.zeros <= INT_MAX
    ensures var missing := f.width - (|f.text| + f.zeros);
      LaidOut(f) ==
        (if f.left then "" else Repeat(if f.zeroPad then '0' else ' ', missing))
        + (front + Repeat('0', f.zeros) + digits)
        + (if f.left then Repeat(' ', missing) else "")
  {
    hide Repeat;
    hide Wrap;
    assert Wrap(f.zeros, 32) == f.zeros;
    assert Wrap(f.width - (|f.text| + f.zeros), 32) == f.width - (|f.text| + f.zeros);
    Middle(f, front, digits);
    ThreePieces(LeftPadding(f), Inserted(f), Body(f));
  }

  lemma Middle(f: Field, front: string, digits: string)
    requires f.text == front + digits && f.insert == |front| && f.zeros <= INT_MAX && |f.text| <= INT_MAX
    ensures Inserted(f) + Body(f) == front + Repeat('0', f.zeros) + digits
  {
    hide Wrap;
    assert Wrap(f.zeros, 32) == f.zeros;
    assert f.text[..f.insert] == front && f.text[f.insert..] == digits;
    assert front + "" == front && f.text[0..] == f.text;
  }

  lemma RepeatAdds(c: char, a: nat, b: nat)
    ensures Repeat(c, a) + Repeat(c, b) == Repeat(c, a + b)
  {
  }

  lemma FrontIsStandard(d: Directive, i: int)
    requires IsInteger(d.spec) && !FrontMisjudged(d, i)
    ensures Front(d, i) == Sign(d, Converted(d, i)) + Prefix(d, Converted(d, i))
  {
    var v := Converted(d, i);
    assert Sign(d, v) + "" == Sign(d, v) && "" + Prefix(d, v) == Prefix(d, v);
    assert OwnPrefix(d, Fetched(d, i)) + "" == OwnPrefix(d, Fetched(d, i));
    if Fetched(d, i) == 0 {
      FetchedZero(d, i);
    }
  }

  lemma MagnitudeOfZero(d: Directive)
    ensures Magnitude(d, 0) == "0"
  {
  }

  lemma DigitsAreStandard(d: Directive, i: int)
    requires IsInteger(d.spec) && !DigitsMisjudged(d, i)
    ensures Repeat('0', PrecisionZeros(d, i)) + Printed(d, i) == AllDigits(d, Converted(d, i))
  {
    hide Digits;
    hide Wrap;
    hide Magnitude;
    var v := Converted(d, i);
    var m := Magnitude(d, v);
    if v == 0 {
      MagnitudeOfZero(d);
    }
    var precision := if d.precise then d.precision else 1;
    assert "" + m == m && "0" + "" == "0" && "" + "" == "";
    if Fetched(d, i) == 0 {
      FetchedZero(d, i);
    }
    assert Repeat('0', 1) == "0";
    assert precision > |m| ==> Repeat('0', precision - |m|)[0] == '0';
  }

  lemma FitsInt(n: int)
    requires -INT_MAX <= n <= INT_MAX
    ensures Wrap(n, 32) == n
  {
  }

  lemma EmptyPieces(s: string)
    ensures "" + s == s && s + "" == s
  {
  }

  /** The program's output stays below INT_MAX: no int overflows while padding. */
  predicate OutputInRange(d: Directive, i: int) {
    d.width <= INT_MAX && |Front(d, i)| + PrecisionZeros(d, i) + |Printed(d, i)| <= INT_MAX
  }

  /** What the program prints for the digits, zeros for the precision included. */
  function PrintedDigits(d: Directive, i: int): string {
    Repeat('0', PrecisionZeros(d, i)) + Printed(d, i)
  }

  /** What padding makes of a number's field when the zeros of the precision are taken as digits. */
  lemma FieldIsPlaced(d: Directive, f: Field, front: string, digits: string, zeros: nat)
    requires f.text == front + digits && f.insert == |front| && f.width == d.width
    requires f.left == d.flags.left && f.zeroPad == (d.flags.zero && !d.precise)
    requires d.width <= INT_MAX && |f.text| + zeros <= INT_MAX
    requires f.zeros == zeros + if !f.left && f.zeroPad then Max(0, d.width - (|f.text| + zeros)) else 0
    ensures LaidOut(f) == Placed(d, front, Repeat('0', zeros) + digits)
  {
    hide LaidOut;
    hide Repeat;
    RepeatLength('0', zeros);
    LaidOutIs(f, front, digits);
    var all, pad := Repeat('0', zeros) + digits, f.zeros - zeros;
    assert front + Repeat('0', zeros) + digits == front + all;
    assert f.left ==> Placed(d, front, all) == front + all + Repeat(' ', d.width - |front + all|);
    EmptyPieces(front + all);
    if !f.left && f.zeroPad {
      RepeatAdds('0', pad, zeros);
      assert front + (Repeat('0', pad) + Repeat('0', zeros)) + digits == front + Repeat('0', pad) + all;
      NoRepeat('0', d.width - |front + all|);
      NoRepeat('0', 0);
      NoRepeat('0', d.width - (|f.text| + f.zeros));
      EmptyPieces(front + Repeat('0', pad) + all);
    }
  }

  /** The program places what it has judged to be the sign, the prefix and the digits as the standard places its own. */
  lemma LaidOutIsPlaced(d: Directive, i: int)
    requires IsInteger(d.spec) && OutputInRange(d, i)
    ensures LaidOut(NumberField(d, i)) == Placed(d, Front(d, i), PrintedDigits(d, i))
  {
    hide Digits;
    hide Repeat;
    hide NumberField;
    hide LaidOut;
    hide Placed;
    hide PrecisionZeros;
    hide Wrap;
    hide Front;
    hide Printed;
    NumberText(d, i);
    NumberZeros(d, i);
    FitsInt(d.width - (|Front(d, i)| + |Printed(d, i)| + PrecisionZeros(d, i)));
    FieldIsPlaced(d, NumberField(d, i), Front(d, i), Printed(d, i), PrecisionZeros(d, i));
  }

  lemma RepeatLength(c: char, n: nat)
    ensures |Repeat(c, n)| == n
  {
  }

  lemma NoRepeat(c: char, n: int)
    ensures n <= 0 ==> Repeat(c, n) == ""
  {
  }

  /** A number is as long as the width or, when that is less, as its sign or prefix and its digits. */
  lemma LaidOutLength(d: Directive, i: int)
    requires IsInteger(d.spec) && OutputInRange(d, i)
    ensures |LaidOut(NumberField(d, i))| == Max(d.width, |Front(d, i)| + |PrintedDigits(d, i)|)
  {
    hide *;
    LaidOutIsPlaced(d, i);
    PlacedLength(d, Front(d, i), PrintedDigits(d, i));
  }

  lemma PlacedLength(d: Directive, front: string, digits: string)
    ensures |Placed(d, front, digits)| == Max(d.width, |front| + |digits|)
  {
  }

  /** The digits are as many as the precision or, when that is less, as the number takes; %#o takes a zero in front. */
  lemma PrintedDigitsLength(d: Directive, i: int)
    requires IsInteger(d.spec)
    ensures var digits := Printed(d, i);
      var zero := if d.flags.alt && d.spec == 'o' && (digits == "" || digits[0] != '0') then 1 else 0;
      |PrintedDigits(d, i)| == Max(if d.precise then d.precision else 1, |digits| + zero)
  {
    hide Digits;
    hide Fetched;
    hide Converted;
    RepeatLength('0', PrecisionZeros(d, i));
  }

  /** Unless the value was misjudged, an integer conversion is laid out as the standard says. */
  lemma LayoutIsStandard(d: Directive, i: int)
    requires IsInteger(d.spec) && !Misjudged(d, i) && OutputInRange(d, i)
    ensures LaidOut(NumberField(d, i)) == Standard(d, Converted(d, i))
  {
    FrontIsStandard(d, i);
    DigitsAreStandard(d, i);
    hide *;
    LaidOutIsPlaced(d, i);
    StandardIs(d, Converted(d, i));
    PrintedDigitsIs(d, i);
  }

  lemma StandardIs(d: Directive, v: int)
    ensures Standard(d, v) == Placed(d, Sign(d, v) + Prefix(d, v), AllDigits(d, v))
  {
  }

  lemma PrintedDigitsIs(d: Directive, i: int)
    ensures PrintedDigits(d, i) == Repeat('0', PrecisionZeros(d, i)) + Printed(d, i)
  {
  }

  // ----- when it does not -----------------------------------------------------------------------

  /** Padding adds blanks and zeros only, and no zeros where there is a precision. */
  lemma PlacedCharacters(d: Directive, front: string, digits: string, c: char)
    requires c != ' ' && (c != '0' || d.precise)
    ensures c in Placed(d, front, digits) <==> c in front || c in digits
  {
  }

  lemma AllDigitsDecimal(d: Directive, v: int)
    requires d.spec == 'd'
    ensures forall c :: c in AllDigits(d, v) ==> '0' <= c <= '9'
    ensures !(v == 0 && d.precise && d.precision == 0) ==> AllDigits(d, v) != ""
  {
    hide Digits;
    Numbers.NumberOfDigits(if v < 0 then -v else v, 10);
  }

  /** A zero that should have been left out shows. */
  lemma MisjudgedZeroShows(d: Directive, i: int)
    requires IsInteger(d.spec) && OutputInRange(d, i) && DigitsMisjudged(d, i)
    ensures LaidOut(NumberField(d, i)) != Standard(d, Converted(d, i))
  {
    hide NumberField;
    hide LaidOut;
    hide Placed;
    hide Fetched;
    hide Converted;
    LaidOutIsPlaced(d, i);
    MagnitudeOfZero(d);
    assert Converted(d, i) == 0 && Printed(d, i) == "0";
    assert '0' in PrintedDigits(d, i) by {
      var t := PrintedDigits(d, i);
      assert t[|t| - 1] == '0';
    }
    PlacedCharacters(d, Front(d, i), PrintedDigits(d, i), '0');
    PlacedCharacters(d, Sign(d, 0) + Prefix(d, 0), AllDigits(d, 0), '0');
  }

  /** So does a prefix 0x that should not be there. */
  lemma MisjudgedPrefixShows(d: Directive, i: int)
    requires IsInteger(d.spec) && d.spec != 'd' && OutputInRange(d, i) && FrontMisjudged(d, i) && !DigitsMisjudged(d, i)
    ensures LaidOut(NumberField(d, i)) != Standard(d, Converted(d, i))
  {
    hide NumberField;
    hide LaidOut;
    hide Placed;
    hide Fetched;
    hide Converted;
    LaidOutIsPlaced(d, i);
    DigitsAreStandard(d, i);
    MagnitudeOfZero(d);
    var x := if d.spec == 'x' then 'x' else 'X';
    assert Front(d, i)[1] == x;
    PlacedCharacters(d, Front(d, i), PrintedDigits(d, i), x);
    PlacedCharacters(d, Sign(d, 0) + Prefix(d, 0), AllDigits(d, 0), x);
  }

  /** What stands in front of a number whose sign was misjudged. */
  lemma MisjudgedSign(d: Directive, i: int)
    requires d.spec == 'd' && FrontMisjudged(d, i)
    ensures var v := Converted(d, i);
      var blank := if d.flags.space then " " else "+";
      && Front(d, i) == (if v < 0 then blank + "-" else "")
      && Sign(d, v) + Prefix(d, v) == (if v < 0 then "-" else blank)
  {
    hide Fetched;
    hide Converted;
    var blank := if d.flags.space then " " else "+";
    assert blank + "" == blank && "" + "-" == "-" && "-" + "" == "-" && "" + "" == "";
  }

  /** Two layouts of the same digits that differ by a blank in front. */
  lemma BlankInFront(d: Directive, front: string, digits: string)
    requires front in ["", "-"] && digits != "" && forall c :: c in digits ==> '0' <= c <= '9'
    ensures Placed(d, " " + front, digits) == Placed(d, front, digits) <==>
      !d.flags.left && !(d.flags.zero && !d.precise) && d.width > |front| + |digits|
  {
    hide Repeat;
    var missing := d.width - |front + digits|;
    var a, e := Placed(d, " " + front, digits), Placed(d, front, digits);
    if d.flags.left || (d.flags.zero && !d.precise) {
      assert a[0] == ' ';
      FirstIsNoBlank(d, front, digits);
    } else if missing > 0 {
      RepeatAdds(' ', missing - 1, 1);
      assert Repeat(' ', 1) == " " by { OneRepeat(' '); }
      assert Repeat(' ', missing) + (front + digits) == Repeat(' ', missing - 1) + (" " + front + digits);
    } else {
      NoRepeat(' ', missing);
      NoRepeat(' ', missing - 1);
      assert |a| == |e| + 1;
    }
  }

  lemma OneRepeat(c: char)
    ensures Repeat(c, 1) == [c]
  {
  }

  lemma FirstIsNoBlank(d: Directive, front: string, digits: string)
    requires front in ["", "-"] && digits != "" && forall c :: c in digits ==> '0' <= c <= '9'
    requires d.flags.left || (d.flags.zero && !d.precise)
    ensures Placed(d, front, digits) != "" && Placed(d, front, digits)[0] != ' '
  {
    assert digits[0] in digits;
  }

  /** A number with a sign too many or without its sign. */
  lemma SignShows(d: Directive, negative: bool, digits: string)
    requires digits != "" && forall c :: c in digits ==> '0' <= c <= '9'
    ensures var blank := if d.flags.space then " " else "+";
      Placed(d, if negative then blank + "-" else "", digits) == Placed(d, if negative then "-" else blank, digits) <==>
        && d.flags.space && !d.flags.left && !(d.flags.zero && !d.precise)
        && d.width > |digits| + if negative then 1 else 0
  {
    hide Placed;
    if d.flags.space {
      BlankInFront(d, if negative then "-" else "", digits);
      EmptyPieces(" ");
    } else {
      PlacedCharacters(d, if negative then "+-" else "", digits, '+');
      PlacedCharacters(d, if negative then "-" else "+", digits, '+');
      assert "+" + "-" == "+-" && "+-"[0] == '+' && "+"[0] == '+';
    }
  }

  /** A misjudged sign shows unless it is a blank among blanks. */
  lemma MisjudgedSignShows(d: Directive, i: int)
    requires d.spec == 'd' && OutputInRange(d, i) && FrontMisjudged(d, i) && !DigitsMisjudged(d, i)
    ensures LaidOut(NumberField(d, i)) == Standard(d, Converted(d, i)) <==> BlankIsHidden(d, i)
  {
    hide NumberField;
    hide LaidOut;
    hide Placed;
    hide Fetched;
    hide Converted;
    hide AllDigits;
    hide Front;
    hide Sign;
    hide Prefix;
    var v := Converted(d, i);
    LaidOutIsPlaced(d, i);
    DigitsAreStandard(d, i);
    AllDigitsDecimal(d, v);
    MisjudgedSign(d, i);
    SignShows(d, v < 0, AllDigits(d, v));
  }

  /** Exactly when an integer conversion meets the standard. */
  lemma LayoutIsStandardIff(d: Directive, i: int)
    requires IsInteger(d.spec) && OutputInRange(d, i)
    ensures LaidOut(NumberField(d, i)) == Standard(d, Converted(d, i)) <==>
      !Misjudged(d, i) || BlankIsHidden(d, i)
  {
    hide *;
    MisjudgedIs(d, i);
    if !Misjudged(d, i) {
      LayoutIsStandard(d, i);
    } else if DigitsMisjudged(d, i) {
      MisjudgedZeroShows(d, i);
    } else if d.spec == 'd' {
      MisjudgedSignShows(d, i);
    } else {
      MisjudgedPrefixShows(d, i);
    }
  }

  lemma MisjudgedIs(d: Directive, i: int)
    ensures Misjudged(d, i) <==> DigitsMisjudged(d, i) || FrontMisjudged(d, i)
    ensures BlankIsHidden(d, i) ==> d.spec == 'd' && !DigitsMisjudged(d, i)
  {
  }

  const PLUS_SHORT := Directive(Flags(false, false, true, false, false), 0, 0, false, 'h', 'd', 3)

  /** "%+hd" of 32768, which is -32768 as a short, comes out with both signs. */
  lemma BothSigns()
    ensures DirectiveFrom("%+hd", 1, [Slot(32768, None)]).0 == PLUS_SHORT
    ensures Misjudged(PLUS_SHORT, 32768) && Converted(PLUS_SHORT, 32768) == -32768
    ensures LaidOut(NumberField(PLUS_SHORT, 32768))[..2] == "+-"
  {
    hide NumberField;
    hide LaidOut;
    hide Digits;
    hide Standard;
    hide Wrap;
    var d := PLUS_SHORT;
    assert FlagsFrom("%+hd", 2, d.flags) == (d.flags, 2);
    assert NumberFrom("%+hd", 2, 0) == (0, 2);
    WrapOfShort();
    ShortDigits();
    assert Front(d, 32768) == "+-";
    LaidOutIsPlaced(d, 32768);
    assert (Front(d, 32768) + PrintedDigits(d, 32768))[..2] == "+-";
  }

  lemma WrapOfShort()
    ensures Wrap(32768, 32) == 32768 && Wrap(32768, 16) == -32768
  {
  }

  lemma ShortDigits()
    ensures |Digits(32768, 10, false)| == 5
  {
    assert |Digits(32, 10, false)| == 2;
    assert |Digits(3276, 10, false)| == 4;
  }

  // ----- the allocating family -------------------------------------------------------------------

  /** The buffer of exactly the right size: measure with no space, allocate, print. */
  method Asprintf(fmt: string, args: seq<Slot>) returns (ptr: array<char>, length: int)
    requires |Render(fmt, 0, args)| <= INT_MAX
    ensures fresh(ptr) && length == |Render(fmt, 0, args)|
    ensures ptr[..] == Render(fmt, 0, args) + ['\0']
  {
    hide *;
    var nothing := new char[0];
    length := Vsnprintf(nothing, 0, fmt, args);
    FitsInt(|Render(fmt, 0, args)|);
    ptr := new char[length + 1];
    ghost var before := ptr[..];
    var length2 := Vsnprintf(ptr, length + 1, fmt, args);
    assert length2 == length;
    TruncatedIs(before, length + 1, Render(fmt, 0, args));
  }

  /** The same with at most m characters; nothing is allocated when m is 0. */
  method Asnprintf(m: nat, fmt: string, args: seq<Slot>) returns (ptr: Option<array<char>>, length: int)
    requires |Render(fmt, 0, args)| <= INT_MAX
    ensures length == |Render(fmt, 0, args)|
    ensures ptr.None? <==> m == 0
    ensures ptr.Some? ==> fresh(ptr.value) && ptr.value[..] == Render(fmt, 0, args)[..Min(length, m - 1)] + ['\0']
  {
    hide Render;
    hide Wrap;
    hide Truncated;
    var nothing := new char[0];
    length := Vsnprintf(nothing, 0, fmt, args);
    FitsInt(|Render(fmt, 0, args)|);
    var strM := if length + 1 < m then length + 1 else m;
    ptr := None;
    if strM > 0 {
      var buffer := new char[strM];
      ghost var before := buffer[..];
      var length2 := Vsnprintf(buffer, strM, fmt, args);
      assert length2 == length;
      TruncatedIs(before, strM, Render(fmt, 0, args));
      ptr := Some(buffer);
    }
  }

  lemma TruncatedIs(buffer: seq<char>, m: nat, out: string)
    requires 0 < m == |buffer| <= |out| + 1
    ensures Truncated(buffer, m, out) == out[..m - 1] + ['\0']
    ensures m == |out| + 1 ==> out[..m - 1] == out
  {
  }
}
