/**
  What a format text means: which directive each of its conversions is read as, and what the whole prints.

  A format is written from its parts, apart from the reader.  Numbers are laid out as section 7.19.6.1 of
  ISO/IEC 9899:1999 says wherever `LayoutIsStandardIff` allows it.
 */
module FormatTexts {
  import opened Common
  import opened Numbers
  import opened Snprintf
  import opened SnprintfLayout

  // ----- written formats ----------------------------------------------------------------------------

  /** A width or precision: none, a number, or an argument. */
  datatype Amount = NoAmount | Given(digits: string) | Star

  datatype Conversion = Conversion(flags: string, width: Amount, precision: Amount, length: string, spec: char)

  datatype Piece = Literal(text: string) | Convert(c: Conversion)

  predicate IsDecimal(s: string) { forall i :: 0 <= i < |s| ==> '0' <= s[i] <= '9' }

  /** A width does not begin with 0, which would be a flag. */
  predicate IsConversion(c: Conversion) {
    && (forall f :: f in c.flags ==> f in "0-+ #'")
    && (c.width.Given? ==> IsDecimal(c.width.digits) && c.width.digits != "" && c.width.digits[0] != '0')
    && (c.precision.Given? ==> IsDecimal(c.precision.digits))
    && c.length in ["", "h", "l", "ll"]
    && !('0' <= c.spec <= '9') && c.spec !in "-+ #'*.hl"
  }

  function WidthText(w: Amount): string {
    match w case NoAmount => "" case Given(digits) => digits case Star => "*"
  }

  function PrecisionText(p: Amount): string {
    match p case NoAmount => "" case Given(digits) => "." + digits case Star => ".*"
  }

  function ConversionText(c: Conversion): string {
    c.flags + (WidthText(c.width) + (PrecisionText(c.precision) + (c.length + [c.spec])))
  }

  predicate IsPiece(p: Piece) {
    match p
    case Literal(text) => '%' !in text
    case Convert(c) => IsConversion(c)
  }

  function PieceText(p: Piece): string {
    match p
    case Literal(text) => text
    case Convert(c) => "%" + ConversionText(c)
  }

  function FormatText(pieces: seq<Piece>): string {
    if pieces == [] then "" else PieceText(pieces[0]) + FormatText(pieces[1..])
  }

  // ----- what is meant --------------------------------------------------------------------------------

  /** A number as it fits an unsigned int. */
  function Amounted(digits: string): nat { Number(digits, 10) % 0x1_0000_0000 }

  /** D, U and O are old names of ld, lu and lo, and i is d. */
  function MeantSpec(spec: char): char {
    match spec
    case 'i' => 'd'
    case 'D' => 'd'
    case 'U' => 'u'
    case 'O' => 'o'
    case _ => spec
  }

  function MeantLength(c: Conversion): char {
    if c.spec in "DUO" then 'l' else if c.length == "" then '-' else c.length[0]
  }

  /** The arguments that stars take before the converted one. */
  function Taken(a: Amount, args: seq<Slot>): seq<Slot> { if a.Star? then Rest(args) else args }

  /** Arguments are taken in order; behind the last one they read as zero. */
  lemma ArgumentsInOrder(a: Slot, more: seq<Slot>)
    ensures Next([a] + more) == a && Rest([a] + more) == more
    ensures Next([]) == Slot(0, None) && Rest([]) == []
  {
  }

  function StarValue(args: seq<Slot>): int { Wrap(Next(args).i, 32) }

  /** A negative width is a '-' flag and a width; a negative precision is none. */
  function Meant(c: Conversion, args: seq<Slot>, at: nat): Directive {
    var w, args' := StarValue(args), Taken(c.width, args);
    var p := StarValue(args');
    Directive(
      Flags('0' in c.flags, '-' in c.flags || (c.width.Star? && w < 0), '+' in c.flags || ' ' in c.flags,
        '+' !in c.flags, '#' in c.flags),
      match c.width case NoAmount => 0 case Given(digits) => Amounted(digits) case Star => (if w < 0 then -w else w),
      match c.precision case NoAmount => 0 case Given(digits) => Amounted(digits) case Star => Max(p, 0),
      c.precision.Given? || (c.precision.Star? && p >= 0),
      MeantLength(c), MeantSpec(c.spec), at)
  }

  // ----- reading a directive --------------------------------------------------------------------------

  predicate IsFlagCharacter(c: char) { c in "0-+ #'" }

  /** f with more flags set, in any order and number. */
  function WithFlags(f: Flags, flags: string): Flags {
    Flags(f.zero || '0' in flags, f.left || '-' in flags, f.force || '+' in flags || ' ' in flags,
      f.space && '+' !in flags, f.alt || '#' in flags)
  }

  lemma OneFlagMore(f: Flags, c: char, flags: string)
    requires IsFlagCharacter(c)
    ensures WithFlags(f, [c] + flags) == WithFlags(AddFlag(f, c), flags)
  {
  }

  lemma FlagIsRead(fmt: string, p: nat, f: Flags)
    requires p < |fmt|
    ensures FlagsFrom(fmt, p, f) ==
      if IsFlagCharacter(fmt[p]) then FlagsFrom(fmt, p + 1, AddFlag(f, fmt[p])) else (f, p)
  {
  }

  lemma {:induction false} FlagsAreRead(fmt: string, p: nat, flags: string, more: string, f: Flags)
    requires p <= |fmt| && fmt[p..] == flags + more && more != "" && !IsFlagCharacter(more[0])
    requires forall c :: c in flags ==> IsFlagCharacter(c)
    ensures FlagsFrom(fmt, p, f) == (WithFlags(f, flags), p + |flags|)
    decreases |flags|
  {
    hide FlagsFrom;
    hide IsFlagCharacter;
    hide AddFlag;
    Suffix(fmt, p, flags, more);
    FlagIsRead(fmt, p, f);
    if flags == "" {
      assert WithFlags(f, "") == f;
    } else {
      hide WithFlags;
      var c, rest := flags[0], flags[1..];
      assert c in flags && flags == [c] + rest && fmt[p + 0] == c;
      assert [c] + rest + more == [c] + (rest + more);
      Suffix(fmt, p, [c], rest + more);
      FlagsAreRead(fmt, p + 1, rest, more, AddFlag(f, c));
      OneFlagMore(f, c, rest);
    }
  }

  lemma {:induction false} NumberIsRead(fmt: string, p: nat, digits: string, k: nat, more: string)
    requires p <= |fmt| && fmt[p..] == digits + more && IsDecimal(digits) && k <= |digits|
    requires more != "" ==> !('0' <= more[0] <= '9')
    ensures p + |digits| <= |fmt|
    ensures NumberFrom(fmt, p + k, Amounted(digits[..k])) == (Amounted(digits), p + |digits|)
    decreases |digits| - k
  {
    Suffix(fmt, p, digits, more);
    if k < |digits| {
      NumberIsRead(fmt, p, digits, k + 1, more);
      OneDigitMore(digits, k);
      assert fmt[p + k] == digits[k];
    } else {
      assert digits[..k] == digits;
      assert p + k < |fmt| ==> more != "" by { assert |fmt[p..]| == |fmt| - p; }
    }
  }

  lemma OneDigitMore(digits: string, k: nat)
    requires IsDecimal(digits) && k < |digits|
    ensures Amounted(digits[..k + 1]) == (10 * Amounted(digits[..k]) + (digits[k] - '0') as int) % 0x1_0000_0000
  {
    assert digits[..k + 1][..k] == digits[..k];
    var n, d := Number(digits[..k], 10), (digits[k] - '0') as int;
    assert Number(digits[..k + 1], 10) == n * 10 + d;
    WrapStep(n, d);
  }

  lemma WrapStep(n: nat, d: nat)
    ensures (n * 10 + d) % 0x1_0000_0000 == (10 * (n % 0x1_0000_0000) + d) % 0x1_0000_0000
  {
    var q, r := n / 0x1_0000_0000, n % 0x1_0000_0000;
    assert n == q * 0x1_0000_0000 + r;
    WrapsAround(10 * r + d, 10 * q);
    assert n * 10 + d == 10 * r + d + (10 * q) * 0x1_0000_0000;
  }

  lemma WrapsAround(x: nat, k: nat)
    ensures (x + k * 0x1_0000_0000) % 0x1_0000_0000 == x % 0x1_0000_0000
  {
  }

  lemma NothingCounted()
    ensures Amounted("") == 0
  {
  }

  lemma WidthIsRead(fmt: string, p: nat, c: Conversion, more: string, args: seq<Slot>)
    requires IsConversion(c) && p <= |fmt| && fmt[p..] == WidthText(c.width) + more
    requires more != "" && !('0' <= more[0] <= '9') && more[0] != '*'
    ensures var d := Meant(c, args, 0);
      WidthFrom(fmt, p, args) ==
        (d.width, c.width.Star? && StarValue(args) < 0, p + |WidthText(c.width)|, Taken(c.width, args))
  {
    hide Wrap;
    hide Amounted;
    hide NumberFrom;
    Suffix(fmt, p, WidthText(c.width), more);
    NothingCounted();
    match c.width {
      case NoAmount =>
        NumberIsRead(fmt, p, "", 0, more);
      case Given(digits) =>
        assert digits[..0] == "";
        NumberIsRead(fmt, p, digits, 0, more);
        assert fmt[p + 0] == digits[0];
      case Star =>
        assert fmt[p + 0] == '*';
    }
  }

  lemma PrecisionIsRead(fmt: string, p: nat, c: Conversion, more: string, args: seq<Slot>)
    requires IsConversion(c) && p <= |fmt| && fmt[p..] == PrecisionText(c.precision) + more
    requires more != "" && !('0' <= more[0] <= '9') && more[0] != '*' && more[0] != '.'
    ensures var d, args' := Meant(c, args, 0), Taken(c.width, args);
      PrecisionFrom(fmt, p, args') ==
        (d.precision, d.precise, p + |PrecisionText(c.precision)|, Taken(c.precision, args'))
  {
    MeantPrecision(c, args);
    hide Meant;
    hide Wrap;
    hide Amounted;
    hide NumberFrom;
    Suffix(fmt, p, PrecisionText(c.precision), more);
    NothingCounted();
    match c.precision {
      case NoAmount =>
      case Given(digits) =>
        assert "." + digits + more == "." + (digits + more);
        Suffix(fmt, p, ".", digits + more);
        assert digits[..0] == "";
        NumberIsRead(fmt, p + 1, digits, 0, more);
        assert fmt[p + 1] == (digits + more)[0];
      case Star =>
        assert fmt[p + 0] == '.' && fmt[p + 1] == '*';
    }
  }

  lemma LengthIsRead(fmt: string, p: nat, c: Conversion, more: string)
    requires IsConversion(c) && p <= |fmt| && fmt[p..] == c.length + ([c.spec] + more)
    ensures LengthFrom(fmt, p) == (if c.length == "" then '-' else c.length[0], p + |c.length|)
    ensures p + |c.length| < |fmt| && fmt[p + |c.length|] == c.spec
  {
    Suffix(fmt, p, c.length, [c.spec] + more);
  }

  lemma SynonymIsMeant(c: Conversion)
    requires IsConversion(c)
    ensures Synonym(if c.length == "" then '-' else c.length[0], c.spec) == (MeantLength(c), MeantSpec(c.spec))
  {
  }

  lemma DirectiveOfParts(fmt: string, p: nat, p1: nat, p2: nat, p3: nat, at: nat, c: Conversion, args: seq<Slot>)
    requires p <= p1 <= p2 <= p3 <= at < |fmt| && fmt[at] == c.spec
    requires FlagsFrom(fmt, p, Flags(false, false, false, true, false)) ==
      (WithFlags(Flags(false, false, false, true, false), c.flags), p1)
    requires WidthFrom(fmt, p1, args) ==
      (Meant(c, args, 0).width, c.width.Star? && StarValue(args) < 0, p2, Taken(c.width, args))
    requires PrecisionFrom(fmt, p2, Taken(c.width, args)) ==
      (Meant(c, args, 0).precision, Meant(c, args, 0).precise, p3, Taken(c.precision, Taken(c.width, args)))
    requires LengthFrom(fmt, p3) == (if c.length == "" then '-' else c.length[0], at)
    requires IsConversion(c)
    ensures DirectiveFrom(fmt, p, args) == (Meant(c, args, at), Taken(c.precision, Taken(c.width, args)))
  {
    SynonymIsMeant(c);
    hide FlagsFrom;
    hide WidthFrom;
    hide PrecisionFrom;
    hide LengthFrom;
    hide Wrap;
    hide Amounted;
    hide Synonym;
    hide IsConversion;
    hide MeantLength;
    hide MeantSpec;
  }

  // What is left of a format from the width, the precision and the length on.

  function FromLength(c: Conversion, more: string): string { c.length + ([c.spec] + more) }

  function FromPrecision(c: Conversion, more: string): string { PrecisionText(c.precision) + FromLength(c, more) }

  function FromWidth(c: Conversion, more: string): string { WidthText(c.width) + FromPrecision(c, more) }

  lemma Stages(fmt: string, p: nat, c: Conversion, more: string)
    requires p <= |fmt| && fmt[p..] == ConversionText(c) + more
    ensures fmt[p..] == c.flags + FromWidth(c, more)
    ensures var p1 := p + |c.flags|; p1 <= |fmt| && fmt[p1..] == WidthText(c.width) + FromPrecision(c, more)
    ensures var p2 := p + |c.flags| + |WidthText(c.width)|;
      p2 <= |fmt| && fmt[p2..] == PrecisionText(c.precision) + FromLength(c, more)
    ensures var p3 := p + |c.flags| + |WidthText(c.width)| + |PrecisionText(c.precision)|;
      p3 <= |fmt| && fmt[p3..] == c.length + ([c.spec] + more)
    ensures |ConversionText(c)| == |c.flags| + |WidthText(c.width)| + |PrecisionText(c.precision)| + |c.length| + 1
  {
    hide WidthText;
    hide PrecisionText;
    var p1, p2 := p + |c.flags|, p + |c.flags| + |WidthText(c.width)|;
    Regrouped(c, more);
    Behind(fmt, p, c.flags, FromWidth(c, more));
    Behind(fmt, p1, WidthText(c.width), FromPrecision(c, more));
    Behind(fmt, p2, PrecisionText(c.precision), FromLength(c, more));
  }

  /** Every conversion is read back, wherever it stands in a format and whatever follows it. */
  lemma DirectiveIsRead(fmt: string, p: nat, c: Conversion, more: string, args: seq<Slot>)
    requires IsConversion(c) && p <= |fmt| && fmt[p..] == ConversionText(c) + more
    ensures var at := p + |ConversionText(c)| - 1;
      && at < |fmt| && fmt[at] == c.spec
      && DirectiveFrom(fmt, p, args) == (Meant(c, args, at), Taken(c.precision, Taken(c.width, args)))
  {
    hide *;
    FlagsOf(c);
    FirstCharacters(c, more);
    Stages(fmt, p, c, more);
    var p1, p2 := p + |c.flags|, p + |c.flags| + |WidthText(c.width)|;
    var p3 := p2 + |PrecisionText(c.precision)|;
    FlagsAreRead(fmt, p, c.flags, FromWidth(c, more), Flags(false, false, false, true, false));
    WidthIsRead(fmt, p1, c, FromPrecision(c, more), args);
    PrecisionIsRead(fmt, p2, c, FromLength(c, more), args);
    LengthIsRead(fmt, p3, c, more);
    DirectiveOfParts(fmt, p, p1, p2, p3, p3 + |c.length|, c, args);
  }

  lemma FlagsOf(c: Conversion)
    requires IsConversion(c)
    ensures forall f :: f in c.flags ==> IsFlagCharacter(f)
  {
  }

  lemma MeantPrecision(c: Conversion, args: seq<Slot>)
    ensures var j, d := StarValue(Taken(c.width, args)), Meant(c, args, 0);
      && d.precision ==
        (match c.precision case NoAmount => 0 case Given(digits) => Amounted(digits) case Star => Max(j, 0))
      && d.precise == (c.precision.Given? || (c.precision.Star? && j >= 0))
  {
  }

  lemma Regrouped(c: Conversion, more: string)
    ensures ConversionText(c) + more == c.flags + FromWidth(c, more)
    ensures |ConversionText(c)| == |c.flags| + |WidthText(c.width)| + |PrecisionText(c.precision)| + |c.length| + 1
  {
    hide WidthText;
    hide PrecisionText;
  }

  lemma FirstCharacters(c: Conversion, more: string)
    requires IsConversion(c)
    ensures var t := FromLength(c, more); t != "" && !('0' <= t[0] <= '9') && t[0] != '*' && t[0] != '.'
    ensures var t := FromPrecision(c, more); t != "" && !('0' <= t[0] <= '9') && t[0] != '*'
    ensures var t := FromWidth(c, more); t != "" && !IsFlagCharacter(t[0])
  {
    assert FromLength(c, more)[0] == if c.length == "" then c.spec else c.length[0];
    assert FromPrecision(c, more)[0] == if c.precision.NoAmount? then FromLength(c, more)[0] else '.';
    assert FromWidth(c, more)[0] ==
      match c.width case NoAmount => FromPrecision(c, more)[0] case Given(digits) => digits[0] case Star => '*';
  }

  // ----- what a format prints -------------------------------------------------------------------------

  /** Blanks around a text; strings and characters are never padded with zeros. */
  function PaddedText(d: Directive, text: string): string {
    if d.flags.left then text + Repeat(' ', d.width - |text|) else Repeat(' ', d.width - |text|) + text
  }

  /** A string is cut to its precision; NULL prints as nothing. */
  function CutText(d: Directive, s: Option<string>): string {
    if s.None? then "" else if d.precise && d.precision < |s.value| then s.value[..d.precision] else s.value
  }

  /** What a conversion prints of its argument: numbers by the standard, other characters as themselves. */
  function Output(d: Directive, arg: Slot): string {
    if IsInteger(d.spec) then Standard(d, Converted(d, arg.i))
    else if d.spec == 's' then PaddedText(d, CutText(d, arg.s))
    else if d.spec == 'c' then PaddedText(d, [(arg.i % 256) as char])
    else if d.spec == '%' then PaddedText(d, "%")
    else [d.spec]
  }

  /** The bits of the type that is printed. */
  function Bits(d: Directive): nat {
    if d.length == 'h' then 16 else if d.length == 'l' then 64 else 32
  }

  /** v is the number of that many bits, with a sign or without, that i wraps around to. */
  predicate WrapsTo(i: int, v: int, bits: nat, signed: bool)
    requires bits in {16, 32, 64}
  {
    var m := Modulus(bits);
    (v - i) % m == 0 && if signed then -(m / 2) <= v < m / 2 else 0 <= v < m
  }

  lemma WrapWraps(i: int, bits: nat)
    requires bits in {16, 32, 64}
    ensures WrapsTo(i, Wrap(i, bits), bits, true) && WrapsTo(i, i % Modulus(bits), bits, false)
  {
    match bits {
      case 16 => WrapsShort(i);
      case 32 => WrapsInt(i);
      case _ => WrapsLong(i);
    }
  }

  lemma WrapsShort(i: int)
    ensures WrapsTo(i, Wrap(i, 16), 16, true) && WrapsTo(i, i % 0x1_0000, 16, false)
  {
    assert i == i / 0x1_0000 * 0x1_0000 + i % 0x1_0000;
  }

  lemma WrapsInt(i: int)
    ensures WrapsTo(i, Wrap(i, 32), 32, true) && WrapsTo(i, i % 0x1_0000_0000, 32, false)
  {
    assert i == i / 0x1_0000_0000 * 0x1_0000_0000 + i % 0x1_0000_0000;
  }

  lemma WrapsLong(i: int)
    ensures WrapsTo(i, Wrap(i, 64), 64, true) && WrapsTo(i, i % 0x1_0000_0000_0000_0000, 64, false)
  {
    assert i == i / 0x1_0000_0000_0000_0000 * 0x1_0000_0000_0000_0000 + i % 0x1_0000_0000_0000_0000;
  }

  lemma ShortOfInt(i: int, w: int, v: int, first: bool, signed: bool)
    requires WrapsTo(i, w, 32, first) && WrapsTo(w, v, 16, signed)
    ensures WrapsTo(i, v, 16, signed)
  {
    var k, n := (w - i) / 0x1_0000_0000, (v - w) / 0x1_0000;
    assert w - i == k * 0x1_0000_0000 && v - w == n * 0x1_0000;
    IsMultiple(v - i, k * 0x1_0000 + n);
  }

  lemma IsMultiple(x: int, k: int)
    requires x == k * 0x1_0000
    ensures x % 0x1_0000 == 0
  {
  }

  /** The number that is printed is the argument in its type, signed for d only. */
  lemma ConvertedIs(d: Directive, i: int)
    requires IsInteger(d.spec)
    ensures WrapsTo(i, Converted(d, i), Bits(d), d.spec == 'd')
  {
    hide Wrap;
    hide WrapsTo;
    var w := Fetched(d, i);
    WrapWraps(i, if d.length == 'l' then 64 else 32);
    if d.length == 'h' {
      WrapWraps(w, 16);
      ShortOfInt(i, w, Converted(d, i), d.spec == 'd', d.spec == 'd');
    }
  }

  predicate IsDigitOf(c: char, base: nat, upper: bool) {
    && ('0' <= c <= '9' || if upper then 'A' <= c <= 'F' else 'a' <= c <= 'f') && DigitValue(c) < base
  }

  lemma DigitCharIs(k: nat, base: nat, upper: bool)
    requires k < base && base in {8, 10, 16}
    ensures IsDigitOf(DigitChar(k, upper), base, upper) && DigitValue(DigitChar(k, upper)) == k
  {
  }

  lemma LastDigitApart(n: nat, base: nat, upper: bool)
    requires base in {8, 10, 16}
    ensures var c := [DigitChar(n % base, upper)];
      Digits(n, base, upper) == if n < base then c else Digits(n / base, base, upper) + c
    ensures n == n / base * base + n % base && n % base < base && (n >= base ==> 0 < n / base < n)
    ensures n < base ==> n / base == 0
  {
  }

  lemma NumberAppend(h: string, c: char, base: nat)
    ensures Number(h + [c], base) == Number(h, base) * base + DigitValue(c)
  {
    assert (h + [c])[..|h|] == h;
  }

  /** The digits of a number are its digits in that base, most significant first and without leading zeros. */
  lemma {:induction false} DigitsAreOf(n: nat, base: nat, upper: bool)
    requires base in {8, 10, 16}
    ensures var s := Digits(n, base, upper);
      && Number(s, base) == n && s != "" && (n > 0 ==> s[0] != '0')
      && forall c :: c in s ==> IsDigitOf(c, base, upper)
    decreases n
  {
    hide DigitChar;
    hide DigitValue;
    hide IsDigitOf;
    var c := DigitChar(n % base, upper);
    LastDigitApart(n, base, upper);
    DigitCharIs(n % base, base, upper);
    assert Digits(n, base, upper) != "" && (n > 0 ==> Digits(n, base, upper)[0] != '0');
    hide Digits;
    var h := if n < base then "" else Digits(n / base, base, upper);
    if n >= base {
      DigitsAreOf(n / base, base, upper);
    } else {
      assert Number("", base) == 0;
    }
    hide Number;
    NumberAppend(h, c, base);
    assert h == "" ==> h + [c] == [c];
  }

  predicate TakesArgument(spec: char) { IsInteger(spec) || spec == 's' || spec == 'c' }

  /** The numbers are not misjudged, and nothing is so long that an int overflows.  Pointers are left aside. */
  predicate Printable(d: Directive, arg: Slot) {
    if IsInteger(d.spec) then OutputInRange(d, arg.i) && (!Misjudged(d, arg.i) || BlankIsHidden(d, arg.i))
    else if d.spec == 's' then d.width <= INT_MAX && |CutText(d, arg.s)| <= INT_MAX
    else d.spec != 'p' && d.width <= INT_MAX
  }

  /** The arguments left behind a conversion. */
  function Left(c: Conversion, args: seq<Slot>): seq<Slot> {
    var args' := Taken(c.precision, Taken(c.width, args));
    if TakesArgument(MeantSpec(c.spec)) then Rest(args') else args'
  }

  function Argument(c: Conversion, args: seq<Slot>): Slot { Next(Taken(c.precision, Taken(c.width, args))) }

  function PrintedPieces(pieces: seq<Piece>, args: seq<Slot>): string {
    if pieces == [] then ""
    else
      match pieces[0]
      case Literal(text) => text + PrintedPieces(pieces[1..], args)
      case Convert(c) => Output(Meant(c, args, 0), Argument(c, args)) + PrintedPieces(pieces[1..], Left(c, args))
  }

  predicate AllPrintable(pieces: seq<Piece>, args: seq<Slot>) {
    pieces == [] ||
    match pieces[0]
    case Literal(text) => AllPrintable(pieces[1..], args)
    case Convert(c) => Printable(Meant(c, args, 0), Argument(c, args)) && AllPrintable(pieces[1..], Left(c, args))
  }

  lemma TextIsPadded(d: Directive, text: string)
    requires d.width <= INT_MAX && |text| <= INT_MAX
    ensures LaidOut(TextField(d, text)) == PaddedText(d, text)
  {
    hide Repeat;
    hide Wrap;
    var f, blanks := TextField(d, text), Repeat(' ', d.width - |text|);
    FitsInt(d.width - |text|);
    BodyIs(f, text);
    assert LeftPadding(f) == if f.left then "" else blanks;
    assert RightPadding(f) == if f.left then blanks else "";
    hide LeftPadding;
    hide RightPadding;
    hide Body;
    hide Inserted;
    AroundText(text, blanks);
  }

  lemma BodyIs(f: Field, text: string)
    requires f.text == text && f.insert == 0 && f.zeros == 0 && |text| <= INT_MAX
    ensures Inserted(f) == "" && Body(f) == text
  {
    hide Wrap;
    assert text[0..] == text;
  }

  lemma AroundText(text: string, blanks: string)
    ensures "" + "" + text + blanks == text + blanks && blanks + "" + text + "" == blanks + text
  {
  }

  lemma UnknownPrintsItself(c: char)
    ensures LaidOut(Field([c], 0, 0, true, false, 0)) == [c]
  {
    assert Repeat(' ', Wrap(-1, 32)) == "";
    assert [c][0..] == [c];
  }

  // The position of a directive does not matter to what it prints.

  lemma SameConverted(d: Directive, at: nat, i: int)
    ensures Fetched(d.(at := at), i) == Fetched(d, i) && Converted(d.(at := at), i) == Converted(d, i)
  {
    hide Wrap;
  }

  lemma SameStandard(d: Directive, at: nat, v: int)
    ensures Standard(d.(at := at), v) == Standard(d, v)
    ensures SnprintfLayout.AllDigits(d.(at := at), v) == SnprintfLayout.AllDigits(d, v)
  {
    hide Digits;
    hide Repeat;
    var e := d.(at := at);
    assert Magnitude(e, v) == Magnitude(d, v);
    hide Magnitude;
    assert SnprintfLayout.AllDigits(e, v) == SnprintfLayout.AllDigits(d, v);
    hide SnprintfLayout.AllDigits;
    assert Sign(e, v) == Sign(d, v) && SnprintfLayout.Prefix(e, v) == SnprintfLayout.Prefix(d, v);
  }

  lemma SameMisjudged(d: Directive, at: nat, i: int)
    ensures var e := d.(at := at);
      && Misjudged(e, i) == Misjudged(d, i) && BlankIsHidden(e, i) == BlankIsHidden(d, i)
      && OutputInRange(e, i) == OutputInRange(d, i)
  {
    var e := d.(at := at);
    SameConverted(d, at, i);
    SameStandard(d, at, Converted(d, i));
    hide Fetched;
    hide Converted;
    hide SnprintfLayout.AllDigits;
    hide Digits;
    assert Magnitude(e, Converted(d, i)) == Magnitude(d, Converted(d, i));
    hide Magnitude;
    assert SnprintfLayout.Printed(e, i) == SnprintfLayout.Printed(d, i);
    hide SnprintfLayout.Printed;
    assert Front(e, i) == Front(d, i);
    hide Front;
    assert PrecisionZeros(e, i) == PrecisionZeros(d, i);
  }

  lemma SameTexts(d: Directive, at: nat, arg: Slot)
    ensures CutText(d.(at := at), arg.s) == CutText(d, arg.s)
    ensures forall t :: PaddedText(d.(at := at), t) == PaddedText(d, t)
  {
    hide Repeat;
  }

  lemma PositionDoesNotMatter(d: Directive, at: nat, arg: Slot)
    ensures Output(d.(at := at), arg) == Output(d, arg) && Printable(d.(at := at), arg) == Printable(d, arg)
  {
    hide *;
    var e := d.(at := at);
    SameConverted(d, at, arg.i);
    SameStandard(d, at, Converted(d, arg.i));
    SameMisjudged(d, at, arg.i);
    SameTexts(d, at, arg);
    OutputIs(d, arg);
    OutputIs(e, arg);
    PrintableIs(d, arg);
    PrintableIs(e, arg);
  }

  lemma OutputIs(d: Directive, arg: Slot)
    ensures Output(d, arg) ==
      if IsInteger(d.spec) then Standard(d, Converted(d, arg.i))
      else if d.spec == 's' then PaddedText(d, CutText(d, arg.s))
      else if d.spec == 'c' then PaddedText(d, [(arg.i % 256) as char])
      else if d.spec == '%' then PaddedText(d, "%")
      else [d.spec]
  {
    hide Standard;
    hide PaddedText;
  }

  lemma PrintableIs(d: Directive, arg: Slot)
    ensures Printable(d, arg) ==
      if IsInteger(d.spec) then OutputInRange(d, arg.i) && (!Misjudged(d, arg.i) || BlankIsHidden(d, arg.i))
      else if d.spec == 's' then d.width <= INT_MAX && |CutText(d, arg.s)| <= INT_MAX
      else d.spec != 'p' && d.width <= INT_MAX
  {
    hide OutputInRange;
    hide Misjudged;
    hide BlankIsHidden;
  }

  lemma CutIs(d: Directive, s: Option<string>)
    ensures StringArgument(d, s) == CutText(d, s)
  {
    assert s.Some? ==> s.value[..|s.value|] == s.value;
  }

  /** One conversion. */
  lemma FieldIsOutput(fmt: string, d: Directive, args: seq<Slot>)
    requires d.at < |fmt| && (IsInteger(d.spec) || d.spec in "sc%" || fmt[d.at] == d.spec)
    requires Printable(d, Next(args))
    ensures LaidOut(FieldFrom(fmt, d, args).0) == Output(d, Next(args))
    ensures FieldFrom(fmt, d, args).1 == if TakesArgument(d.spec) then Rest(args) else args
  {
    hide LaidOut;
    hide NumberField;
    hide TextField;
    hide PaddedText;
    hide Misjudged;
    hide BlankIsHidden;
    hide OutputInRange;
    hide Standard;
    hide Converted;
    var arg := Next(args);
    if IsInteger(d.spec) {
      LayoutIsStandardIff(d, arg.i);
    } else if d.spec == 's' {
      CutIs(d, arg.s);
      TextIsPadded(d, CutText(d, arg.s));
    } else if d.spec == 'c' {
      TextIsPadded(d, [(arg.i % 256) as char]);
    } else if d.spec == '%' {
      TextIsPadded(d, "%");
    } else {
      UnknownPrintsItself(d.spec);
    }
  }

  lemma SpecIsKept(c: Conversion)
    ensures IsInteger(MeantSpec(c.spec)) || MeantSpec(c.spec) in "sc%" || c.spec == MeantSpec(c.spec)
  {
  }

  /** A conversion that stands at p, and the format behind it. */
  lemma ConversionPrints(fmt: string, p: nat, c: Conversion, more: string, args: seq<Slot>)
    requires IsConversion(c) && p <= |fmt| && fmt[p..] == "%" + ConversionText(c) + more
    requires Printable(Meant(c, args, 0), Argument(c, args))
    ensures var q := p + 1 + |ConversionText(c)|;
      && q <= |fmt| && fmt[q..] == more
      && Render(fmt, p, args) == Output(Meant(c, args, 0), Argument(c, args)) + Render(fmt, q, Left(c, args))
  {
    hide *;
    var at := p + |ConversionText(c)|;
    var d, args' := Meant(c, args, at), Taken(c.precision, Taken(c.width, args));
    assert "%" + ConversionText(c) + more == "%" + (ConversionText(c) + more);
    Suffix(fmt, p, "%", ConversionText(c) + more);
    Behind(fmt, p + 1, ConversionText(c), more);
    DirectiveIsRead(fmt, p + 1, c, more, args);
    RenderConversion(fmt, p, args);
    MeantAt(c, args, at);
    PositionDoesNotMatter(Meant(c, args, 0), at, Next(args'));
    SpecIsKept(c);
    LeftIs(c, args);
    FieldIsOutput(fmt, d, args');
  }

  lemma MeantAt(c: Conversion, args: seq<Slot>, at: nat)
    ensures Meant(c, args, at) == Meant(c, args, 0).(at := at) && Meant(c, args, at).spec == MeantSpec(c.spec)
  {
  }

  lemma LeftIs(c: Conversion, args: seq<Slot>)
    ensures var args' := Taken(c.precision, Taken(c.width, args));
      && Argument(c, args) == Next(args')
      && Left(c, args) == if TakesArgument(MeantSpec(c.spec)) then Rest(args') else args'
  {
  }

  lemma LiteralPrints(fmt: string, p: nat, text: string, more: string, args: seq<Slot>)
    requires '%' !in text && p <= |fmt| && fmt[p..] == text + more
    ensures var q := p + |text|;
      q <= |fmt| && fmt[q..] == more && Render(fmt, p, args) == text + Render(fmt, q, args)
  {
    hide Render;
    Suffix(fmt, p, text, more);
    var q := p + |text|;
    assert fmt[p..q] == text;
    forall i | p <= i < q ensures fmt[i] != '%' {
      assert fmt[p + (i - p)] == text[i - p] && text[i - p] in text;
    }
    RenderLiteral(fmt, p, q, args);
  }

  lemma {:induction false} FormatPrintsFrom(fmt: string, p: nat, pieces: seq<Piece>, args: seq<Slot>)
    requires (forall x :: x in pieces ==> IsPiece(x)) && AllPrintable(pieces, args)
    requires p <= |fmt| && fmt[p..] == FormatText(pieces)
    ensures Render(fmt, p, args) == PrintedPieces(pieces, args)
    decreases |pieces|
  {
    hide Render;
    hide IsConversion;
    hide ConversionText;
    hide Output;
    hide Printable;
    hide Meant;
    hide Left;
    hide Argument;
    if pieces == [] {
      assert p == |fmt|;
      RenderEnd(fmt, args);
    } else {
      assert pieces[0] in pieces;
      match pieces[0] {
        case Literal(text) =>
          LiteralPrints(fmt, p, text, FormatText(pieces[1..]), args);
          FormatPrintsFrom(fmt, p + |text|, pieces[1..], args);
        case Convert(c) =>
          ConversionPrints(fmt, p, c, FormatText(pieces[1..]), args);
          FormatPrintsFrom(fmt, p + 1 + |ConversionText(c)|, pieces[1..], Left(c, args));
      }
    }
  }

  /**
    What a whole format prints: its literal text as it is, and for every conversion what the standard
    says of the flags, width, precision and length that are written and of the next argument.
   */
  lemma FormatPrints(pieces: seq<Piece>, args: seq<Slot>)
    requires (forall x :: x in pieces ==> IsPiece(x)) && AllPrintable(pieces, args)
    ensures Render(FormatText(pieces), 0, args) == PrintedPieces(pieces, args)
  {
    hide *;
    assert FormatText(pieces)[0..] == FormatText(pieces);
    FormatPrintsFrom(FormatText(pieces), 0, pieces, args);
  }

  /** A format of one number prints what the standard says if and only if the number is not misjudged. */
  lemma NumberPrintsIff(c: Conversion, args: seq<Slot>)
    requires IsConversion(c) && IsInteger(MeantSpec(c.spec))
    requires OutputInRange(Meant(c, args, 0), Argument(c, args).i)
    ensures var d, i := Meant(c, args, 0), Argument(c, args).i;
      Render("%" + ConversionText(c), 0, args) == Standard(d, Converted(d, i)) <==>
        !Misjudged(d, i) || BlankIsHidden(d, i)
  {
    hide *;
    var fmt := "%" + ConversionText(c);
    var at := |ConversionText(c)|;
    var d, args' := Meant(c, args, at), Taken(c.precision, Taken(c.width, args));
    var i := Argument(c, args).i;
    assert fmt[1..] == ConversionText(c) + "" && |fmt| == at + 1;
    DirectiveIsRead(fmt, 1, c, "", args);
    RenderConversion(fmt, 0, args);
    MeantAt(c, args, at);
    LeftIs(c, args);
    NumberFieldIs(fmt, d, args');
    RenderEnd(fmt, Rest(args'));
    EmptyPieces(LaidOut(NumberField(d, i)));
    var e := Meant(c, args, 0);
    SameConverted(e, at, i);
    SameStandard(e, at, Converted(e, i));
    SameMisjudged(e, at, i);
    LayoutIsStandardIff(d, i);
  }

  lemma NumberFieldIs(fmt: string, d: Directive, args: seq<Slot>)
    requires IsInteger(d.spec)
    ensures FieldFrom(fmt, d, args) == (NumberField(d, Next(args).i), Rest(args))
  {
  }

  // ----- two formats ------------------------------------------------------------------------------------

  const POINTER_FORMAT := Conversion("", NoAmount, NoAmount, "", 'p')

  lemma PowersOf16()
    ensures Power(16, 16) == Modulus(64)
  {
    assert Power(16, 4) == 0x1_0000;
    assert Power(16, 8) == 0x1_0000_0000;
    assert Power(16, 12) == 0x1_0000_0000_0000;
  }

  lemma PlainField(text: string, insert: nat)
    requires |text| <= INT_MAX && insert <= |text|
    ensures LaidOut(Field(text, insert, 0, false, false, 0)) == text
  {
    hide Repeat;
    hide Wrap;
    var f := Field(text, insert, 0, false, false, 0);
    FitsInt(-|text|);
    NoRepeat(' ', -|text|);
    assert Body(f) == text by { assert text[0..] == text; }
    assert "" + "" + text + "" == text;
  }

  lemma PointerField(d: Directive, i: int)
    requires d == Meant(POINTER_FORMAT, [], d.at)
    ensures var v := i % Modulus(64);
      LaidOut(NumberField(d, i)) == if v == 0 then "(nil)" else "0x" + Digits(v, 16, false)
  {
    hide Digits;
    hide LaidOut;
    hide Wrap;
    var v := i % Modulus(64);
    var text := if v == 0 then "(nil)" else "0x" + Digits(v, 16, false);
    PowersOf16();
    FewDigits(v, 16, 16);
    DigitsAreOf(v, 16, false);
    assert "" + text == text;
    var f := NumberField(d, i);
    assert f == Field(text, f.insert, 0, false, false, 0);
    PlainField(text, f.insert);
  }

  lemma PointerText()
    ensures IsConversion(POINTER_FORMAT) && ConversionText(POINTER_FORMAT) == "p" && "%p"[1..] == "p" + ""
  {
  }

  lemma PointerIsMeant(args: seq<Slot>)
    ensures Meant(POINTER_FORMAT, args, 1) == Meant(POINTER_FORMAT, [], 1)
    ensures Taken(POINTER_FORMAT.precision, Taken(POINTER_FORMAT.width, args)) == args
    ensures Meant(POINTER_FORMAT, args, 1).spec == 'p' && Meant(POINTER_FORMAT, args, 1).at == 1
  {
  }

  lemma PointerFieldIs(fmt: string, d: Directive, args: seq<Slot>)
    requires d.spec == 'p'
    ensures FieldFrom(fmt, d, args) == (NumberField(d, Next(args).i), Rest(args))
  {
    hide NumberField;
    hide TextField;
  }

  /** %p prints the address in hexadecimal behind 0x, and NULL as the GNU C library does. */
  lemma PointersPrint(i: int)
    ensures var v := i % Modulus(64);
      Render("%p", 0, [Slot(i, None)]) == if v == 0 then "(nil)" else "0x" + Digits(v, 16, false)
  {
    var args := [Slot(i, None)];
    assert Next(args).i == i && "%p"[0] == '%';
    hide *;
    var d := Meant(POINTER_FORMAT, args, 1);
    PointerText();
    PointerIsMeant(args);
    DirectiveIsRead("%p", 1, POINTER_FORMAT, "", args);
    RenderConversion("%p", 0, args);
    PointerFieldIs("%p", d, args);
    PointerField(d, i);
    RenderEnd("%p", Rest(args));
    EmptyPieces(LaidOut(NumberField(d, i)));
  }

  const IP_FORMAT := Conversion("0", Given("3"), NoAmount, "", 'd')

  lemma IpFormatText()
    ensures IsConversion(IP_FORMAT) && "%" + ConversionText(IP_FORMAT) == "%03d"
  {
    assert "3" + ("" + ("" + ['d'])) == "3d";
    assert ConversionText(IP_FORMAT) == "03d";
    assert "%" + "03d" == "%03d";
  }

  lemma IpFormatMeans()
    ensures Meant(IP_FORMAT, [Slot(7, None)], 0) ==
      Directive(Flags(true, false, false, true, false), 3, 0, false, '-', 'd', 0)
    ensures MeantSpec(IP_FORMAT.spec) == 'd' && Argument(IP_FORMAT, [Slot(7, None)]).i == 7
  {
    assert Number("3", 10) == 3 by { assert "3"[..0] == ""; }
  }

  lemma PaddedSeven()
    ensures var d := Directive(Flags(true, false, false, true, false), 3, 0, false, '-', 'd', 0);
      && Converted(d, 7) == 7 && Standard(d, 7) == "007" && OutputInRange(d, 7) && !Misjudged(d, 7)
  {
    var d := Directive(Flags(true, false, false, true, false), 3, 0, false, '-', 'd', 0);
    assert Converted(d, 7) == 7 && Fetched(d, 7) == 7;
    assert Digits(7, 10, false) == "7";
    assert SnprintfLayout.AllDigits(d, 7) == "7" by { assert Repeat('0', 0) + "7" == "7"; }
    hide SnprintfLayout.AllDigits;
    assert Repeat('0', 2) == "00";
    assert "" + "" == "" && "" + Repeat('0', 2) + "7" == "007";
  }

  /** The format of an IP item prints 7 as 007. */
  lemma LeadingZeros()
    ensures Render("%03d", 0, [Slot(7, None)]) == "007"
  {
    IpFormatText();
    IpFormatMeans();
    PaddedSeven();
    assert IsInteger('d');
    hide *;
    NumberPrintsIff(IP_FORMAT, [Slot(7, None)]);
  }
}
