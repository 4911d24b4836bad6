/**
 Q_vsnprintf (code/lib/qvsnprintf.c, 273-278, 307-694): the format is read by a state
 machine, and every character goes through OUTCHAR into a buffer of a given size. The
 bounded output is the beginning of the unbounded one.

 Widths of the C types are those of a 32-bit build. What a floating-point conversion
 prints is a parameter.
 */
module Formatter {
  import opened FormatFields

  const INT_MAX: int := 0x7FFF_FFFF

  datatype Modifier = Plain | CharMod | ShortMod | LongMod | LongLong | LongDouble | SizeMod | PtrDiff | IntMax

  /** An argument, seen as a number and as a string. */
  datatype Text = NullText | Chars(s: string)
  datatype Arg = Arg(n: int, text: Text)
  type Args = nat -> Arg

  /** What the conversions a to G print, and whether they overflow. */
  datatype FloatText = FloatText(text: string, overflow: bool)
  type Floats = (Arg, char, Modifier, int, int, Flags) -> FloatText

  datatype Mode = Default | InFlags | InWidth | InDot | InPrecision | InModifier | InConversion

  /** What has been read of a conversion. */
  datatype Spec = Spec(flags: Flags, width: int, precision: int, modifier: Modifier)

  const NO_FLAGS: Flags := Flags(false, false, false, false, false, false, false, false)
  const NO_SPEC: Spec := Spec(NO_FLAGS, 0, NO_PRECISION, Plain)

  // ---- the types of the arguments ---------------------------------------------------

  function Wrap(n: int, modulus: nat): nat
    requires modulus > 0
  {
    n % modulus
  }

  function Signed(n: int, modulus: nat): int
    requires modulus > 0
  {
    var low := n % modulus;
    if low < modulus / 2 then low else low - modulus
  }

  function SignedArg(n: int, m: Modifier): int {
    match m
    case CharMod => Signed(n, 0x100)
    case ShortMod => Signed(n, 0x1_0000)
    case LongLong => Signed(n, 0x1_0000_0000_0000_0000)
    case IntMax => Signed(n, 0x1_0000_0000_0000_0000)
    case SizeMod => Wrap(n, 0x1_0000_0000)
    case _ => Signed(n, 0x1_0000_0000)
  }

  function UnsignedArg(n: int, m: Modifier): int {
    match m
    case CharMod => Wrap(n, 0x100)
    case ShortMod => Wrap(n, 0x1_0000)
    case LongLong => Wrap(n, 0x1_0000_0000_0000_0000)
    case IntMax => Wrap(n, 0x1_0000_0000_0000_0000)
    case PtrDiff => Signed(n, 0x1_0000_0000)
    case _ => Wrap(n, 0x1_0000_0000)
  }

  // ---- one conversion ------------------------------------------------------------------

  /** What a conversion character prints, how many arguments it takes, and whether it overflows. */
  datatype Converted = Converted(text: string, used: nat, overflow: bool)

  predicate IsFloat(ch: char) {
    ch in {'a', 'A', 'e', 'E', 'f', 'F', 'g', 'G'}
  }

  function TextOf(t: Text): string {
    if t.NullText? then "(null)" else t.s
  }

  function Convert(ch: char, spec: Spec, arg: Arg, floats: Floats): Converted {
    if ch == 'd' || ch == 'i' then
      Converted(IntField(SignedArg(arg.n, spec.modifier), 10, spec.width, spec.precision, spec.flags), 1, false)
    else if ch == 'x' || ch == 'X' || ch == 'o' || ch == 'u' then
      var flags := spec.flags.(unsigned := true, up := spec.flags.up || ch == 'X');
      var base := if ch == 'o' then 8 else if ch == 'u' then 10 else 16;
      Converted(IntField(UnsignedArg(arg.n, spec.modifier), base, spec.width, spec.precision, flags), 1, false)
    else if IsFloat(ch) then
      var f := floats(arg, ch, spec.modifier, spec.width, spec.precision, spec.flags);
      Converted(f.text, 1, f.overflow)
    else if ch == 'c' then Converted([Wrap(arg.n, 0x100) as char], 1, false)
    else if ch == 's' then Converted(StrField(TextOf(arg.text), spec.width, spec.precision, spec.flags), 1, false)
    else if ch == 'p' then
      if Wrap(arg.n, 0x1_0000_0000) == 0
          then Converted(StrField("(nil)", spec.width, NO_PRECISION, spec.flags), 1, false)
      else Converted(IntField(Wrap(arg.n, 0x1_0000_0000), 16, spec.width, spec.precision,
          spec.flags.(num := true, unsigned := true)), 1, false)
    else if ch == 'n' then Converted("", 1, false)
    else if ch == '%' then Converted("%", 0, false)
    else Converted("", 0, false)
  }

  // ---- the machine, without a limit ------------------------------------------------------

  /** All that was printed, and whether a number overflowed on the way. */
  datatype Printed = Printed(out: string, overflow: bool)

  function FlagOf(flags: Flags, ch: char): Flags {
    match ch
    case '-' => flags.(minus := true)
    case '+' => flags.(plus := true)
    case ' ' => flags.(space := true)
    case '#' => flags.(num := true)
    case '0' => flags.(zero := true)
    case _ => flags.(quote := true)
  }

  predicate IsFlag(ch: char) {
    ch == '-' || ch == '+' || ch == ' ' || ch == '#' || ch == '0' || ch == '\''
  }

  predicate IsDigit(ch: char) {
    '0' <= ch <= '9'
  }

  function ModifierOf(f: string): (r: (Modifier, string))
    requires f != []
    ensures |r.1| <= |f|
  {
    if f[0] == 'h' then if |f| > 1 && f[1] == 'h' then (CharMod, f[2..]) else (ShortMod, f[1..])
    else if f[0] == 'l' then if |f| > 1 && f[1] == 'l' then (LongLong, f[2..]) else (LongMod, f[1..])
    else if f[0] == 'L' then (LongDouble, f[1..])
    else if f[0] == 'j' then (IntMax, f[1..])
    else if f[0] == 't' then (PtrDiff, f[1..])
    else if f[0] == 'z' then (SizeMod, f[1..])
    else (Plain, f)
  }

  function Rank(mode: Mode): nat {
    match mode
    case Default => 0
    case InFlags => 6
    case InWidth => 5
    case InDot => 4
    case InPrecision => 3
    case InModifier => 2
    case InConversion => 1
  }

  /** The number read so far grows by a digit, unless it would pass INT_MAX. */
  predicate TooBig(n: int, ch: char)
    requires IsDigit(ch)
  {
    n > (INT_MAX - (ch as int - '0' as int)) / 10
  }

  function Grown(n: int, ch: char): int
    requires IsDigit(ch)
  {
    10 * n + (ch as int - '0' as int)
  }

  /** The rest of a format, from a state of the machine on, after `out`. */
  function Run(mode: Mode, f: string, spec: Spec, args: Args, k: nat, floats: Floats, out: string): Printed
    decreases |f|, Rank(mode)
  {
    if f == [] then Printed(out, false)
    else
      var ch := f[0];
      match mode
      case Default =>
        if ch == '%' then Run(InFlags, f[1..], spec, args, k, floats, out)
        else Run(Default, f[1..], spec, args, k, floats, out + [ch])
      case InFlags =>
        if IsFlag(ch) then Run(InFlags, f[1..], spec.(flags := FlagOf(spec.flags, ch)), args, k, floats, out)
        else Run(InWidth, f, spec, args, k, floats, out)
      case InWidth =>
        if IsDigit(ch) then
          if TooBig(spec.width, ch) then Printed(out, true)
          else Run(InWidth, f[1..], spec.(width := Grown(spec.width, ch)), args, k, floats, out)
        else if ch == '*' then
          var w := args(k).n;
          Run(InDot, f[1..], if w < 0 then spec.(flags := spec.flags.(minus := true), width := -w)
              else spec.(width := w), args, k + 1, floats, out)
        else Run(InDot, f, spec, args, k, floats, out)
      case InDot =>
        if ch == '.' then Run(InPrecision, f[1..], spec, args, k, floats, out)
        else Run(InModifier, f, spec, args, k, floats, out)
      case InPrecision =>
        var p := if spec.precision == NO_PRECISION then 0 else spec.precision;
        if IsDigit(ch) then
          if TooBig(p, ch) then Printed(out, true)
          else Run(InPrecision, f[1..], spec.(precision := Grown(p, ch)), args, k, floats, out)
        else if ch == '*' then
          Run(InModifier, f[1..], spec.(precision := if args(k).n < 0 then NO_PRECISION else args(k).n), args, k + 1,
              floats, out)
        else Run(InModifier, f, spec.(precision := p), args, k, floats, out)
      case InModifier =>
        var (m, rest) := ModifierOf(f);
        Run(InConversion, rest, spec.(modifier := m), args, k, floats, out)
      case InConversion =>
        var c := Convert(ch, spec, args(k), floats);
        if c.overflow then Printed(out + c.text, true)
        else Run(Default, f[1..], NO_SPEC, args, k + c.used, floats, out + c.text)
  }

  /** What a format prints. */
  function Formatted(format: string, args: Args, floats: Floats): Printed {
    Run(Default, format, NO_SPEC, args, 0, floats, [])
  }

  /** Text without a percent sign prints itself. */
  lemma {:induction false} PlainTextPrintsItself(f: string, args: Args, k: nat, floats: Floats, out: string)
    requires '%' !in f
    ensures Run(Default, f, NO_SPEC, args, k, floats, out) == Printed(out + f, false)
    decreases |f|
  {
    if f == [] {
      assert out + f == out;
    } else {
      PlainTextPrintsItself(f[1..], args, k, floats, out + [f[0]]);
      assert out + [f[0]] + f[1..] == out + f;
    }
  }

  // ---- the buffer ------------------------------------------------------------------------

  /** How many characters fit ahead of the terminator. */
  function Room(size: nat): nat {
    if size == 0 then 0 else size - 1
  }

  function Kept(out: string, size: nat): nat {
    if |out| < Room(size) then |out| else Room(size)
  }

  /** The caller's buffer; `out` is all that was sent to it and `before` what was in it. */
  class Sink {
    const str: array<char>
    const size: nat
    var len: nat
    ghost var out: string
    ghost const before: string

    ghost predicate Valid()
      reads this, str
    {
      && size <= str.Length == |before| && len == |out|
      && forall i :: 0 <= i < str.Length ==> str[i] == if i < Kept(out, size) then out[i] else before[i]
    }

    constructor (str: array<char>, size: nat)
      requires size <= str.Length
      ensures Valid() && this.str == str && this.size == size && out == [] && before == str[..]
    {
      this.str, this.size, len, out, before := str, size, 0, [], str[..];
    }

    /** OUTCHAR. */
    method OutChar(ch: char)
      requires Valid()
      modifies this`len, this`out, str
      ensures Valid() && out == old(out) + [ch]
    {
      if len + 1 < size {
        str[len] := ch;
      }
      len := len + 1;
      out := out + [ch];
    }

    method OutRepeat(ch: char, n: int)
      requires Valid()
      modifies this`len, this`out, str
      ensures Valid() && out == old(out) + Repeat(ch, n)
    {
      var left := n;
      while left > 0
        invariant Valid() && left <= n && (n >= 0 ==> left >= 0)
        invariant out == old(out) + Repeat(ch, n - Max(0, left))
      {
        OutChar(ch);
        left := left - 1;
      }
    }

    method OutText(s: string)
      requires Valid()
      modifies this`len, this`out, str
      ensures Valid() && out == old(out) + s
    {
      for i := 0 to |s|
        invariant Valid() && out == old(out) + s[..i]
      {
        OutChar(s[i]);
      }
    }

    /** The terminator, and the return value. */
    method Finish(overflow: bool) returns (r: int)
      requires Valid()
      modifies str
      ensures size > 0 ==> str[..Kept(out, size)] == out[..Kept(out, size)] && str[Kept(out, size)] == '\0'
      ensures forall i :: Kept(out, size) < i < str.Length ==> str[i] == before[i]
      ensures size == 0 ==> str[..] == before
      ensures r == if overflow || |out| >= INT_MAX then -1 else |out|
    {
      if len < size {
        str[len] := '\0';
      } else if size > 0 {
        str[size - 1] := '\0';
      }
      r := if overflow || len >= INT_MAX then -1 else len;
    }
  }
}
