/**
  Bounded formatted printing.

  `Render` is the unlimited output of a format, conversion by conversion; `Vsnprintf` writes it
  piecewise into a buffer of limited size.  Integer widths are 32-bit int and 64-bit long and
  size_t; a format string holds no NUL.
 */
module Snprintf {
  import opened Common

  // ----- machine integers ---------------------------------------------------------------------

  function Wrap(x: int, bits: nat): (r: int)
    requires bits in {16, 32, 64}
    ensures var m := Modulus(bits); -(m / 2) <= r < m / 2
    ensures var m := Modulus(bits); -(m / 2) <= x < m / 2 ==> r == x
  {
    var m := Modulus(bits);
    var u := if bits == 16 then x % 0x1_0000 else if bits == 32 then x % 0x1_0000_0000 else x % 0x1_0000_0000_0000_0000;
    if u < m / 2 then u else u - m
  }

  function Modulus(bits: nat): (m: int)
    requires bits in {16, 32, 64}
  {
    if bits == 16 then 0x1_0000 else if bits == 32 then 0x1_0000_0000 else 0x1_0000_0000_0000_0000
  }

  const INT_MAX := 0x7fff_ffff

  // ----- arguments ------------------------------------------------------------------------------

  /**
    One variadic argument, as an integer or as a string (None is NULL).  Reading past the end yields a
    zero argument.
   */
  datatype Slot = Slot(i: int, s: Option<string>)

  function Next(args: seq<Slot>): Slot {
    if args == [] then Slot(0, None) else args[0]
  }

  function Rest(args: seq<Slot>): seq<Slot> {
    if args == [] then [] else args[1..]
  }

  // ----- digits ---------------------------------------------------------------------------------

  function DigitChar(k: nat, upper: bool): (c: char)
    requires k < 16
    ensures (c == '0' <==> k == 0) && c != '-' && c != 'x' && c != 'X'
  {
    if k < 10 then '0' + k as char else (if upper then 'A' else 'a') + (k - 10) as char
  }

  function Digits(n: nat, base: nat, upper: bool): (r: string)
    requires base in {8, 10, 16}
    ensures r != "" && (r[0] == '0' <==> n == 0) && r[0] != '-'
    ensures |r| >= 2 ==> r[1] != 'x' && r[1] != 'X'
    decreases n
  {
    if n < base then [DigitChar(n, upper)] else Digits(n / base, base, upper) + [DigitChar(n % base, upper)]
  }

  function Decimal(v: int): string {
    if v < 0 then "-" + Digits(-v, 10, false) else Digits(v, 10, false)
  }

  function Repeat(c: char, n: int): (r: string)
    ensures |r| == if n > 0 then n else 0
    ensures forall i :: 0 <= i < |r| ==> r[i] == c
  {
    if n > 0 then seq(n, _ => c) else ""
  }

  // ----- parsing a conversion -----------------------------------------------------------------

  datatype Flags = Flags(zero: bool, left: bool, force: bool, space: bool, alt: bool)

  /** length is '-' for none; at is the position of the conversion character. */
  datatype Directive = Directive(flags: Flags, width: nat, precision: nat, precise: bool, length: char, spec: char,
    at: nat)

  /** The character at p, NUL behind the end. */
  function At(fmt: string, p: nat): char {
    if p < |fmt| then fmt[p] else '\0'
  }

  predicate IsFlag(c: char) { c in "0-+ #'" }

  predicate IsDigit(c: char) { '0' <= c <= '9' }

  function AddFlag(f: Flags, c: char): Flags {
    match c
    case '0' => f.(zero := true)
    case '-' => f.(left := true)
    case '+' => f.(force := true, space := false)
    case ' ' => f.(force := true)
    case '#' => f.(alt := true)
    case _ => f
  }

  function FlagsFrom(fmt: string, p: nat, f: Flags): (r: (Flags, nat))
    requires p <= |fmt|
    ensures p <= r.1 <= |fmt|
    decreases |fmt| - p
  {
    if p < |fmt| && IsFlag(fmt[p]) then FlagsFrom(fmt, p + 1, AddFlag(f, fmt[p])) else (f, p)
  }

  /** An unsigned int read in decimal, with its overflow. */
  function NumberFrom(fmt: string, p: nat, n: nat): (r: (nat, nat))
    requires p <= |fmt|
    ensures p <= r.1 <= |fmt|
    decreases |fmt| - p
  {
    if p < |fmt| && IsDigit(fmt[p])
    then NumberFrom(fmt, p + 1, (10 * n + (fmt[p] - '0') as int) % 0x1_0000_0000)
    else (n, p)
  }

  /** Width: minimal field width, '-' flag set by a negative one, position, arguments left. */
  function WidthFrom(fmt: string, p: nat, args: seq<Slot>): (r: (nat, bool, nat, seq<Slot>))
    requires p <= |fmt|
    ensures p <= r.2 <= |fmt|
  {
    if At(fmt, p) == '*' && p < |fmt| then
      var j := Wrap(Next(args).i, 32);
      (if j >= 0 then j else -j, j < 0, p + 1, Rest(args))
    else
      var (n, q) := NumberFrom(fmt, p, 0);
      (n, false, q, args)
  }

  /** Precision: value, whether specified, position, arguments left. */
  function PrecisionFrom(fmt: string, p: nat, args: seq<Slot>): (r: (nat, bool, nat, seq<Slot>))
    requires p <= |fmt|
    ensures p <= r.2 <= |fmt|
  {
    if p >= |fmt| || fmt[p] != '.' then (0, false, p, args)
    else if p + 1 < |fmt| && fmt[p + 1] == '*' then
      var j := Wrap(Next(args).i, 32);
      (if j >= 0 then j else 0, j >= 0, p + 2, Rest(args))
    else
      var (n, q) := NumberFrom(fmt, p + 1, 0);
      (n, true, q, args)
  }

  /** 'h', 'l', and 'll', which is taken for 'l'. */
  function LengthFrom(fmt: string, p: nat): (r: (char, nat))
    requires p <= |fmt|
    ensures p <= r.1 <= |fmt|
  {
    if p < |fmt| && fmt[p] == 'h' then ('h', p + 1)
    else if p < |fmt| && fmt[p] == 'l' then ('l', if p + 1 < |fmt| && fmt[p + 1] == 'l' then p + 2 else p + 1)
    else ('-', p)
  }

  function Synonym(length: char, spec: char): (char, char) {
    match spec
    case 'i' => (length, 'd')
    case 'D' => ('l', 'd')
    case 'U' => ('l', 'u')
    case 'O' => ('l', 'o')
    case _ => (length, spec)
  }

  function DirectiveFrom(fmt: string, p: nat, args: seq<Slot>): (r: (Directive, seq<Slot>))
    requires p <= |fmt|
    ensures p <= r.0.at <= |fmt|
  {
    var (flags, p1) := FlagsFrom(fmt, p, Flags(false, false, false, true, false));
    var (width, negative, p2, args1) := WidthFrom(fmt, p1, args);
    var (precision, precise, p3, args2) := PrecisionFrom(fmt, p2, args1);
    var (length, p4) := LengthFrom(fmt, p3);
    var (length', spec) := Synonym(length, At(fmt, p4));
    (Directive(if negative then flags.(left := true) else flags, width, precision, precise, length', spec, p4), args2)
  }

  // ----- converting an argument -----------------------------------------------------------------

  /** What is to be laid out: text with zeros to be put in at position insert, and the field around it. */
  datatype Field = Field(text: string, insert: nat, zeros: nat, left: bool, zeroPad: bool, width: nat)

  predicate IsInteger(spec: char) { spec in "duoxX" }

  /** The argument as the full int or long fetched from the list. */
  function Fetched(d: Directive, i: int): int {
    if d.spec == 'd' then Wrap(i, if d.length == 'l' then 64 else 32)
    else i % Modulus(if d.length == 'l' || d.spec == 'p' then 64 else 32)
  }

  /** The value that is printed: 'h' narrows it to a short. */
  function Converted(d: Directive, i: int): (v: int)
    ensures d.spec != 'd' ==> v >= 0
  {
    if d.length == 'h' && d.spec == 'd' then Wrap(Fetched(d, i), 16)
    else if d.length == 'h' && d.spec != 'p' then Fetched(d, i) % 0x1_0000
    else Fetched(d, i)
  }

  /** What sprintf makes of the value; pointers as in the GNU C library. */
  function Sprintf(spec: char, v: int): string
    requires spec != 'd' ==> v >= 0
  {
    match spec
    case 'd' => Decimal(v)
    case 'o' => Digits(v, 8, false)
    case 'x' => Digits(v, 16, false)
    case 'X' => Digits(v, 16, true)
    case 'p' => if v == 0 then "(nil)" else "0x" + Digits(v, 16, false)
    case _ => Digits(v, 10, false)
  }

  /** Sign or 0x put in front of the digits by the function itself. */
  function OwnPrefix(d: Directive, fetched: int): string {
    if d.spec == 'd' then
      if d.flags.force && fetched >= 0 then (if d.flags.space then " " else "+") else ""
    else if d.flags.alt && fetched != 0 && d.spec == 'x' then "0x"
    else if d.flags.alt && fetched != 0 && d.spec == 'X' then "0X"
    else ""
  }

  /** Zeros go behind a minus sign and a 0x found at position k of the text. */
  function InsertionPoint(text: string, k: nat): (r: nat)
    requires k <= |text|
    ensures k <= r <= |text|
  {
    var k1 := if k < |text| && text[k] == '-' then k + 1 else k;
    if k1 + 1 < |text| && text[k1] == '0' && (text[k1 + 1] == 'x' || text[k1 + 1] == 'X') then k1 + 2 else k1
  }

  function NumberField(d: Directive, i: int): (r: Field)
    ensures r.insert <= |r.text|
  {
    var fetched := Fetched(d, i);
    var precision := if d.precise then d.precision else 1;
    var own := OwnPrefix(d, fetched);
    var empty := precision == 0 && fetched == 0;
    var text := if empty then own else own + Sprintf(d.spec, Converted(d, i));
    var insert := if empty then |own| else InsertionPoint(text, |own|);
    var digits := |text| - insert;
    var leadingZero := d.flags.alt && d.spec == 'o' && !(insert < |text| && text[insert] == '0');
    var precision' := if leadingZero && (!d.precise || precision < digits + 1) then digits + 1 else precision;
    var zeros := if digits < precision' then precision' - digits else 0;
    var zeroPad := d.flags.zero && !d.precise;
    var n := Wrap(d.width - (|text| + zeros), 32);
    var zeros' := if !d.flags.left && zeroPad && n > 0 then zeros + n else zeros;
    Field(text, insert, zeros', d.flags.left, zeroPad, d.width)
  }

  /** Strings, characters and '%' are never zero padded. */
  function TextField(d: Directive, text: string): Field {
    Field(text, 0, 0, d.flags.left, false, d.width)
  }

  function StringArgument(d: Directive, s: Option<string>): string {
    if s.None? then ""
    else if !d.precise || |s.value| < d.precision then s.value
    else s.value[..d.precision]
  }

  function FieldFrom(fmt: string, d: Directive, args: seq<Slot>): (r: (Field, seq<Slot>))
    ensures r.0.insert <= |r.0.text|
  {
    if d.spec == '%' then (TextField(d, "%"), args)
    else if d.spec == 'c' then (TextField(d, [(Next(args).i % 256) as char]), Rest(args))
    else if d.spec == 's' then (TextField(d, StringArgument(d, Next(args).s)), Rest(args))
    else if IsInteger(d.spec) || d.spec == 'p' then (NumberField(d, Next(args).i), Rest(args))
    else (Field(if d.at < |fmt| then [fmt[d.at]] else "", 0, 0, true, false, 0), args)
  }

  // ----- laying out -------------------------------------------------------------------------------

  /** The blanks or zeros around the text, an int that may overflow. */
  function Padding(f: Field): int {
    Wrap(f.width - (|f.text| + f.zeros), 32)
  }

  function LeftPadding(f: Field): string {
    if f.left then "" else Repeat(if f.zeroPad then '0' else ' ', Padding(f))
  }

  /** Sign or prefix, then zeros. */
  function Inserted(f: Field): string
    requires f.insert <= |f.text|
  {
    if f.zeros == 0 then "" else f.text[..f.insert] + Repeat('0', Wrap(f.zeros, 32))
  }

  lemma WrapAtMost(n: nat)
    ensures Wrap(n, 32) <= n
  {
  }

  /** What an int counts of the text from k on; a count that overflowed takes nothing or too little. */
  function CountedFrom(text: string, k: nat): (r: string)
    requires k <= |text|
    ensures |text| - k <= INT_MAX ==> r == text[k..]
  {
    WrapAtMost(|text| - k);
    var n := Wrap(|text| - k, 32);
    if n > 0 then text[k..k + n] else ""
  }

  function Body(f: Field): string
    requires f.insert <= |f.text|
  {
    CountedFrom(f.text, if f.zeros == 0 then 0 else f.insert)
  }

  function RightPadding(f: Field): string {
    if f.left then Repeat(' ', Padding(f)) else ""
  }

  function LaidOut(f: Field): string
    requires f.insert <= |f.text|
  {
    LeftPadding(f) + Inserted(f) + Body(f) + RightPadding(f)
  }

  /** The whole output, for unlimited space. */
  function Render(fmt: string, p: nat, args: seq<Slot>): string
    requires p <= |fmt|
    decreases |fmt| - p
  {
    if p == |fmt| then ""
    else if fmt[p] != '%' then [fmt[p]] + Render(fmt, p + 1, args)
    else
      var (d, args1) := DirectiveFrom(fmt, p + 1, args);
      var (f, args2) := FieldFrom(fmt, d, args1);
      LaidOut(f) + Render(fmt, if d.at < |fmt| then d.at + 1 else d.at, args2)
  }

  // ----- the bounded buffer -----------------------------------------------------------------------

  /** buffer after as much of out as fits into its first m positions has been copied to its front. */
  function Copied(buffer: seq<char>, m: nat, out: string): (r: seq<char>)
    requires m <= |buffer|
    ensures |r| == |buffer|
  {
    out[..Min(|out|, m)] + buffer[Min(|out|, m)..]
  }

  /**
    What is left in a buffer of which m positions may be used: the output cut off to fit, then NUL,
    the rest untouched.
   */
  function Truncated(buffer: seq<char>, m: nat, out: string): (r: seq<char>)
    requires m <= |buffer|
    ensures |r| == |buffer|
  {
    if m == 0 then buffer
    else
      var k := Min(|out|, m - 1);
      out[..k] + ['\0'] + buffer[k + 1..]
  }

  /** Append a piece: copy what fits, count all of it. */
  method Put(str: array<char>, m: nat, l: nat, piece: string, ghost before: seq<char>, ghost out: string)
    returns (l': nat)
    requires m <= str.Length == |before|
    requires l == |out| && str[..] == Copied(before, m, out)
    modifies str
    ensures l' == |out + piece| && str[..] == Copied(before, m, out + piece)
  {
    if l < m {
      var avail := m - l;
      var n := if |piece| > avail then avail else |piece|;
      for i := 0 to n
        invariant str[..] == Copied(before, m, out + piece[..i])
      {
        assert out + piece[..i + 1] == out + piece[..i] + [piece[i]];
        str[l + i] := piece[i];
      }
      assert Copied(before, m, out + piece[..n]) == Copied(before, m, out + piece);
    }
    l' := l + |piece|;
  }

  method ReadFlags(fmt: string, p0: nat) returns (f: Flags, p: nat)
    requires p0 <= |fmt|
    ensures (f, p) == FlagsFrom(fmt, p0, Flags(false, false, false, true, false))
    ensures p <= |fmt|
  {
    f, p := Flags(false, false, false, true, false), p0;
    while p < |fmt| && IsFlag(fmt[p])
      invariant p <= |fmt|
      invariant FlagsFrom(fmt, p, f) == FlagsFrom(fmt, p0, Flags(false, false, false, true, false))
    {
      match fmt[p] {
        case '0' => f := f.(zero := true);
        case '-' => f := f.(left := true);
        case '+' => f := f.(force := true, space := false);
        case ' ' => f := f.(force := true);
        case '#' => f := f.(alt := true);
        case _ =>
      }
      p := p + 1;
    }
  }

  method ReadNumber(fmt: string, p0: nat) returns (n: nat, p: nat)
    requires p0 <= |fmt|
    ensures (n, p) == NumberFrom(fmt, p0, 0)
    ensures p <= |fmt|
  {
    n, p := 0, p0;
    while p < |fmt| && IsDigit(fmt[p])
      invariant p <= |fmt|
      invariant NumberFrom(fmt, p, n) == NumberFrom(fmt, p0, 0)
    {
      n := (10 * n + (fmt[p] - '0') as int) % 0x1_0000_0000;
      p := p + 1;
    }
  }

  /** The minimal field width; a negative argument counts as a '-' flag. */
  method ReadWidth(fmt: string, p0: nat, ap0: seq<Slot>) returns (width: nat, negative: bool, p: nat, ap: seq<Slot>)
    requires p0 <= |fmt|
    ensures (width, negative, p, ap) == WidthFrom(fmt, p0, ap0) && p <= |fmt|
  {
    hide NumberFrom;
    hide Wrap;
    p, ap, negative := p0, ap0, false;
    if p < |fmt| && fmt[p] == '*' {
      p := p + 1;
      var j := Wrap(Next(ap).i, 32);
      ap := Rest(ap);
      if j >= 0 {
        width := j;
      } else {
        width, negative := -j, true;
      }
    } else {
      width, p := ReadNumber(fmt, p);
    }
  }

  method ReadPrecision(fmt: string, p0: nat, ap0: seq<Slot>)
    returns (precision: nat, precise: bool, p: nat, ap: seq<Slot>)
    requires p0 <= |fmt|
    ensures (precision, precise, p, ap) == PrecisionFrom(fmt, p0, ap0) && p <= |fmt|
  {
    hide NumberFrom;
    hide Wrap;
    p, ap, precision, precise := p0, ap0, 0, false;
    if p < |fmt| && fmt[p] == '.' {
      p, precise := p + 1, true;
      if p < |fmt| && fmt[p] == '*' {
        p := p + 1;
        var j := Wrap(Next(ap).i, 32);
        ap := Rest(ap);
        if j >= 0 {
          precision := j;
        } else {
          precise := false;
        }
      } else {
        precision, p := ReadNumber(fmt, p);
      }
    }
  }

  method ReadDirective(fmt: string, p0: nat, ap0: seq<Slot>) returns (d: Directive, ap: seq<Slot>)
    requires p0 <= |fmt|
    ensures (d, ap) == DirectiveFrom(fmt, p0, ap0) && d.at <= |fmt|
  {
    hide FlagsFrom;
    hide WidthFrom;
    hide PrecisionFrom;
    var flags, p := ReadFlags(fmt, p0);
    var width, negative, precision, precise;
    width, negative, p, ap := ReadWidth(fmt, p, ap0);
    if negative {
      flags := flags.(left := true);
    }
    precision, precise, p, ap := ReadPrecision(fmt, p, ap);
    var length := '-';
    if p < |fmt| && (fmt[p] == 'h' || fmt[p] == 'l') {
      length := fmt[p];
      p := p + 1;
      if length == 'l' && p < |fmt| && fmt[p] == 'l' {
        p := p + 1;
      }
    }
    var spec := At(fmt, p);
    length, spec := Synonym(length, spec).0, Synonym(length, spec).1;
    d := Directive(flags, width, precision, precise, length, spec, p);
  }

  /** Write one field: left padding, inserted zeros behind the sign, text, right padding. */
  method Emit(str: array<char>, m: nat, l: nat, f: Field, ghost before: seq<char>, ghost out: string) returns (l': nat)
    requires f.insert <= |f.text|
    requires m <= str.Length == |before|
    requires l == |out| && str[..] == Copied(before, m, out)
    modifies str
    ensures l' == |out + LaidOut(f)| && str[..] == Copied(before, m, out + LaidOut(f))
  {
    hide Copied;
    hide CountedFrom;
    hide Repeat;
    hide Wrap;
    l' := l;
    ghost var done := out;
    var n := Wrap(f.width - (|f.text| + f.zeros), 32);
    if !f.left {
      l' := Put(str, m, l', Repeat(if f.zeroPad then '0' else ' ', n), before, done);
    }
    AppendNothing(done);
    done := done + LeftPadding(f);
    var insert := f.insert;
    AppendNothing(done);
    if f.zeros == 0 {
      insert := 0;
    } else {
      l' := Put(str, m, l', f.text[..insert], before, done);
      ghost var zeros := Repeat('0', Wrap(f.zeros, 32));
      l' := Put(str, m, l', Repeat('0', Wrap(f.zeros, 32)), before, done + f.text[..insert]);
      assert done + f.text[..insert] + zeros == done + (f.text[..insert] + zeros);
    }
    done := done + Inserted(f);
    l' := Put(str, m, l', CountedFrom(f.text, insert), before, done);
    done := done + Body(f);
    if f.left {
      l' := Put(str, m, l', Repeat(' ', n), before, done);
    }
    AppendNothing(done);
    done := done + RightPadding(f);
    FourPieces(out, LeftPadding(f), Inserted(f), Body(f), RightPadding(f));
  }

  lemma AppendNothing(s: string)
    ensures s + "" == s
  {
  }

  lemma FourPieces(s: string, a: string, b: string, c: string, d: string)
    ensures s + a + b + c + d == s + (a + b + c + d)
  {
  }

  /** Literal characters of the format up to the next '%'. */
  lemma {:induction false} RenderLiteral(fmt: string, p: nat, q: nat, args: seq<Slot>)
    requires p <= q <= |fmt| && forall i :: p <= i < q ==> fmt[i] != '%'
    ensures Render(fmt, p, args) == fmt[p..q] + Render(fmt, q, args)
    decreases q - p
  {
    hide Render;
    if p < q {
      RenderLiteral(fmt, p + 1, q, args);
      RenderCharacter(fmt, p, args);
      assert fmt[p..q] == [fmt[p]] + fmt[p + 1..q];
    } else {
      assert fmt[p..q] == "";
    }
  }

  lemma RenderCharacter(fmt: string, p: nat, args: seq<Slot>)
    requires p < |fmt| && fmt[p] != '%'
    ensures Render(fmt, p, args) == [fmt[p]] + Render(fmt, p + 1, args)
  {
  }

  lemma RenderConversion(fmt: string, p: nat, args: seq<Slot>)
    requires p < |fmt| && fmt[p] == '%'
    ensures var (d, args1) := DirectiveFrom(fmt, p + 1, args);
      var (f, args2) := FieldFrom(fmt, d, args1);
      Render(fmt, p, args) == LaidOut(f) + Render(fmt, if d.at < |fmt| then d.at + 1 else d.at, args2)
  {
  }

  lemma RenderEnd(fmt: string, args: seq<Slot>)
    ensures Render(fmt, |fmt|, args) == ""
  {
  }

  lemma Terminated(before: seq<char>, m: nat, out: string)
    requires 0 < m <= |before|
    ensures Copied(before, m, out)[Min(|out|, m - 1) := '\0'] == Truncated(before, m, out)
  {
  }

  /**
    vsnprintf: the result is the length of the unlimited output whatever m is, as an int; only the
    first m positions are written, and they hold the output cut off to fit and terminated.
   */
  method Vsnprintf(str: array<char>, m: nat, fmt: string, args: seq<Slot>) returns (result: int)
    requires m <= str.Length
    modifies str
    ensures result == Wrap(|Render(fmt, 0, args)|, 32)
    ensures str[..] == Truncated(old(str[..]), m, Render(fmt, 0, args))
  {
    hide *;
    ghost var before, all := str[..], Render(fmt, 0, args);
    ghost var out := "";
    NothingCopied(before, m);
    AppendNothing(all);
    var l, p, ap := 0, 0, args;
    while p < |fmt|
      invariant 0 <= p <= |fmt| && l == |out| && str[..] == Copied(before, m, out)
      invariant out + Render(fmt, p, ap) == all
      decreases |fmt| - p
    {
      if fmt[p] != '%' {
        var q := p + 1;
        while q < |fmt| && fmt[q] != '%'
          invariant p < q <= |fmt| && forall i :: p <= i < q ==> fmt[i] != '%'
        {
          q := q + 1;
        }
        RenderLiteral(fmt, p, q, ap);
        ThreePieces(out, fmt[p..q], Render(fmt, q, ap));
        l := Put(str, m, l, fmt[p..q], before, out);
        out := out + fmt[p..q];
        p := q;
      } else {
        RenderConversion(fmt, p, ap);
        var d: Directive;
        d, ap := ReadDirective(fmt, p + 1, ap);
        var f := FieldFrom(fmt, d, ap).0;
        ap := FieldFrom(fmt, d, ap).1;
        p := if d.at < |fmt| then d.at + 1 else d.at;
        ThreePieces(out, LaidOut(f), Render(fmt, p, ap));
        l := Emit(str, m, l, f, before, out);
        out := out + LaidOut(f);
      }
    }
    RenderEnd(fmt, ap);
    AppendNothing(out);
    Terminate(str, m, l, before, out);
    result := Wrap(l, 32);
  }

  /** Put the NUL behind the output, or on the last usable position. */
  method Terminate(str: array<char>, m: nat, l: nat, ghost before: seq<char>, ghost out: string)
    requires m <= str.Length == |before|
    requires l == |out| && str[..] == Copied(before, m, out)
    modifies str
    ensures str[..] == Truncated(before, m, out)
  {
    if m > 0 {
      Terminated(before, m, out);
      str[if l <= m - 1 then l else m - 1] := '\0';
    }
  }

  lemma NothingCopied(before: seq<char>, m: nat)
    requires m <= |before|
    ensures Copied(before, m, "") == before
  {
  }
}
