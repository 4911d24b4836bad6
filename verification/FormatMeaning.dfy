/**
 What a format directive prints (code/lib/qvsnprintf.c, 330-683), told by its letter, flags,
 width, precision and modifier: the number that reads back from the field, its sign and
 prefix, and where the padding goes.
 */
module FormatMeaning {
  import opened FormatFields
  import opened Formatter

  // ---- directives -------------------------------------------------------------------------

  /** A width or precision: none, a number, or the next argument. */
  datatype Size = Absent | Number(n: nat) | Star

  datatype Directive = Directive(flags: string, width: Size, precision: Size, modifier: Modifier, letter: char)

  predicate IsLetter(ch: char) {
    ch in {'d', 'i', 'u', 'o', 'x', 'X', 'c', 's', 'p', 'n', '%'}
  }

  predicate SizeFits(s: Size) {
    s.Number? ==> s.n <= INT_MAX
  }

  /** Flags in any order and number, but for the grouping one. */
  predicate Fits(d: Directive) {
    && (forall i :: 0 <= i < |d.flags| ==> d.flags[i] in {'-', '+', ' ', '#', '0'})
    && SizeFits(d.width) && SizeFits(d.precision) && IsLetter(d.letter)
  }

  function ModifierText(m: Modifier): string {
    match m
    case Plain => ""
    case CharMod => "hh"
    case ShortMod => "h"
    case LongMod => "l"
    case LongLong => "ll"
    case LongDouble => "L"
    case SizeMod => "z"
    case PtrDiff => "t"
    case IntMax => "j"
  }

  function SizeText(s: Size): string {
    match s
    case Absent => ""
    case Number(n) => Digits(n, 10, false)
    case Star => "*"
  }

  /** A width of zero is not written: its digit would be a flag. */
  function WidthText(s: Size): string {
    if s == Number(0) then "" else SizeText(s)
  }

  function PrecisionText(s: Size): string {
    if s.Absent? then "" else "." + SizeText(s)
  }

  function Written(d: Directive): string {
    "%" + d.flags + WidthText(d.width) + PrecisionText(d.precision) + ModifierText(d.modifier) + [d.letter]
  }

  // ---- what a directive asks for --------------------------------------------------------------

  function StarCount(s: Size): nat {
    if s.Star? then 1 else 0
  }

  /** The index of the argument that is converted. */
  function Operand(d: Directive, k: nat): nat {
    k + StarCount(d.width) + StarCount(d.precision)
  }

  function WidthAsked(d: Directive, args: Args, k: nat): nat {
    match d.width
    case Absent => 0
    case Number(n) => n
    case Star => if args(k).n < 0 then -args(k).n else args(k).n
  }

  /** -1 for none; a negative argument counts as none. */
  function PrecisionAsked(d: Directive, args: Args, k: nat): int {
    match d.precision
    case Absent => NO_PRECISION
    case Number(n) => n
    case Star => var p := args(k + StarCount(d.width)).n; if p < 0 then NO_PRECISION else p
  }

  /** Padded on the right: by its flag, or by a negative width argument. */
  predicate Left(d: Directive, args: Args, k: nat) {
    '-' in d.flags || (d.width.Star? && args(k).n < 0)
  }

  function SpecOf(d: Directive, args: Args, k: nat): Spec {
    Spec(Flags(Left(d, args, k), '+' in d.flags, ' ' in d.flags, '#' in d.flags, '0' in d.flags, false, false, false),
         WidthAsked(d, args, k), PrecisionAsked(d, args, k), d.modifier)
  }

  // ---- reading a directive -----------------------------------------------------------------------

  function AddFlags(flags: Flags, s: string): Flags
    decreases |s|
  {
    if s == [] then flags else AddFlags(FlagOf(flags, s[0]), s[1..])
  }

  predicate PlainFlags(s: string) {
    forall i :: 0 <= i < |s| ==> s[i] in {'-', '+', ' ', '#', '0'}
  }

  function With(flags: Flags, minus: bool, plus: bool, space: bool, num: bool, zero: bool): Flags {
    flags.(minus := flags.minus || minus, plus := flags.plus || plus, space := flags.space || space,
        num := flags.num || num, zero := flags.zero || zero)
  }

  lemma OneFlag(flags: Flags, c: char)
    requires c in {'-', '+', ' ', '#', '0'}
    ensures FlagOf(flags, c) == With(flags, c == '-', c == '+', c == ' ', c == '#', c == '0')
  {
  }

  lemma {:induction false} FlagsAdded(flags: Flags, s: string)
    requires PlainFlags(s)
    ensures AddFlags(flags, s) == With(flags, '-' in s, '+' in s, ' ' in s, '#' in s, '0' in s)
    decreases |s|
  {
    hide FlagOf;
    if s != [] {
      OneFlag(flags, s[0]);
      FlagsAdded(FlagOf(flags, s[0]), s[1..]);
      InOrFirst(s);
    }
  }

  lemma InOrFirst(s: string)
    requires s != []
    ensures forall c :: c in s <==> c == s[0] || c in s[1..]
  {
    assert s == [s[0]] + s[1..];
  }

  lemma {:induction false} FlagsRead(s: string, f: string, spec: Spec, args: Args, k: nat, floats: Floats, out: string)
    requires PlainFlags(s)
    ensures Run(InFlags, s + f, spec, args, k, floats, out) ==
            Run(InFlags, f, spec.(flags := AddFlags(spec.flags, s)), args, k, floats, out)
    decreases |s|
  {
    if s == [] {
      assert s + f == f;
    } else {
      var all := s + f;
      assert all[0] == s[0] && all[1..] == s[1..] + f;
      FlagsRead(s[1..], f, spec.(flags := FlagOf(spec.flags, s[0])), args, k, floats, out);
      FlagStep(all, spec, args, k, floats, out);
    }
  }

  lemma FlagStep(f: string, spec: Spec, args: Args, k: nat, floats: Floats, out: string)
    requires f != [] && IsFlag(f[0])
    ensures Run(InFlags, f, spec, args, k, floats, out) ==
            Run(InFlags, f[1..], spec.(flags := FlagOf(spec.flags, f[0])), args, k, floats, out)
  {
  }

  predicate AllDigits(s: string) {
    forall i :: 0 <= i < |s| ==> Formatter.IsDigit(s[i])
  }

  lemma ReadMore(s: string, c: char)
    ensures ReadIn(s + [c], 10) == ReadIn(s, 10) * 10 + Worth(c)
  {
    var all := s + [c];
    assert all[..|all| - 1] == s;
  }

  /** What is read only grows. */
  lemma {:induction false} ReadGrows(p: string, s: string)
    ensures ReadIn(p, 10) <= ReadIn(p + s, 10)
    decreases |s|
  {
    hide ReadIn;
    if s == [] {
      assert p + s == p;
    } else {
      var front := s[..|s| - 1];
      ReadGrows(p, front);
      ReadMore(p + front, s[|s| - 1]);
      assert p + s == p + front + [s[|s| - 1]];
    }
  }

  lemma {:induction false} WidthRead(p: string, s: string, f: string, spec: Spec, args: Args, k: nat, floats: Floats,
      out: string)
    requires AllDigits(s) && ReadIn(p + s, 10) <= INT_MAX
    ensures Run(InWidth, s + f, spec.(width := ReadIn(p, 10)), args, k, floats, out) ==
            Run(InWidth, f, spec.(width := ReadIn(p + s, 10)), args, k, floats, out)
    decreases |s|
  {
    hide Run;
    hide ReadIn;
    if s == [] {
      assert s + f == f && p + s == p;
    } else {
      var c := s[0];
      assert (s + f)[0] == c && (s + f)[1..] == s[1..] + f;
      assert p + s == p + [c] + s[1..];
      ReadGrows(p + [c], s[1..]);
      ReadMore(p, c);
      WidthStep(s + f, spec.(width := ReadIn(p, 10)), args, k, floats, out);
      WidthRead(p + [c], s[1..], f, spec, args, k, floats, out);
    }
  }

  lemma WidthStep(f: string, spec: Spec, args: Args, k: nat, floats: Floats, out: string)
    requires f != [] && Formatter.IsDigit(f[0]) && spec.width >= 0 && spec.width * 10 + Worth(f[0]) <= INT_MAX
    ensures Run(InWidth, f, spec, args, k, floats, out) ==
            Run(InWidth, f[1..], spec.(width := spec.width * 10 + Worth(f[0])), args, k, floats, out)
  {
    assert Grown(spec.width, f[0]) == spec.width * 10 + Worth(f[0]);
  }

  /** The precision after these digits. */
  function PrecisionOf(p: string): int {
    if p == [] then NO_PRECISION else ReadIn(p, 10)
  }

  lemma {:induction false} PrecisionRead(p: string, s: string, f: string, spec: Spec, args: Args, k: nat,
      floats: Floats, out: string)
    requires AllDigits(s) && ReadIn(p + s, 10) <= INT_MAX
    ensures Run(InPrecision, s + f, spec.(precision := PrecisionOf(p)), args, k, floats, out) ==
            Run(InPrecision, f, spec.(precision := PrecisionOf(p + s)), args, k, floats, out)
    decreases |s|
  {
    hide Run;
    hide ReadIn;
    if s == [] {
      assert s + f == f && p + s == p;
    } else {
      var c := s[0];
      assert (s + f)[0] == c && (s + f)[1..] == s[1..] + f;
      assert p + s == p + [c] + s[1..];
      ReadGrows(p + [c], s[1..]);
      ReadMore(p, c);
      NothingRead();
      PrecisionStep(s + f, spec.(precision := PrecisionOf(p)), args, k, floats, out);
      PrecisionRead(p + [c], s[1..], f, spec, args, k, floats, out);
    }
  }

  lemma NothingRead()
    ensures ReadIn([], 10) == 0
  {
  }

  lemma PrecisionStep(f: string, spec: Spec, args: Args, k: nat, floats: Floats, out: string)
    requires f != [] && Formatter.IsDigit(f[0]) && spec.precision >= NO_PRECISION
    requires (if spec.precision == NO_PRECISION then 0 else spec.precision) * 10 + Worth(f[0]) <= INT_MAX
    ensures var p := if spec.precision == NO_PRECISION then 0 else spec.precision;
            Run(InPrecision, f, spec, args, k, floats, out) ==
            Run(InPrecision, f[1..], spec.(precision := p * 10 + Worth(f[0])), args, k, floats, out)
  {
    var p := if spec.precision == NO_PRECISION then 0 else spec.precision;
    assert Grown(p, f[0]) == p * 10 + Worth(f[0]);
  }

  lemma {:induction false} DigitsAreDigits(n: nat)
    ensures AllDigits(Digits(n, 10, false))
    ensures n > 0 ==> Digits(n, 10, false)[0] != '0'
    decreases n
  {
    hide DigitChar;
    DecimalDigit(n % 10);
    if n < 10 {
      DecimalDigit(n);
    } else {
      DigitsAreDigits(n / 10);
    }
  }

  lemma DecimalDigit(d: nat)
    requires d < 10
    ensures Formatter.IsDigit(DigitChar(d, false)) && (d > 0 ==> DigitChar(d, false) != '0')
  {
    assert "0123456789abcdef" == ['0', '1', '2', '3', '4', '5', '6', '7', '8', '9', 'a', 'b', 'c', 'd', 'e', 'f'];
  }

  /** A character that ends flags, widths and precisions. */
  predicate Stops(ch: char) {
    !IsFlag(ch) && !Formatter.IsDigit(ch) && ch != '*' && ch != '.'
  }

  lemma FirstOfModifier(m: Modifier)
    requires !m.Plain?
    ensures Stops(ModifierText(m)[0])
  {
    var c := ModifierText(m)[0];
    assert c == 'h' || c == 'l' || c == 'L' || c == 'z' || c == 't' || c == 'j';
  }

  lemma LetterStops(ch: char)
    requires IsLetter(ch)
    ensures Stops(ch)
  {
  }

  /** The modifier, the letter and what follows. */
  lemma ModifierIsRead(m: Modifier, ch: char, rest: string, spec: Spec, args: Args, k: nat, floats: Floats, out: string)
    requires IsLetter(ch)
    ensures var f := ModifierText(m) + ([ch] + rest);
            && Stops(f[0])
            && Run(InModifier, f, spec, args, k, floats, out) ==
               Run(InConversion, [ch] + rest, spec.(modifier := m), args, k, floats, out)
  {
    var f, last := ModifierText(m) + ([ch] + rest), [ch] + rest;
    assert f[|ModifierText(m)|..] == last && last[0] == ch;
    LetterStops(ch);
    if m.Plain? {
      assert f[0] == last[0];
    } else {
      FirstOfModifier(m);
      assert f[0] == ModifierText(m)[0];
    }
    assert |ModifierText(m)| == 1 ==> f[1] == ch;
    assert ModifierOf(f) == (m, last);
    hide Run;
    ModifierStep(f, spec, args, k, floats, out);
  }

  lemma ModifierStep(f: string, spec: Spec, args: Args, k: nat, floats: Floats, out: string)
    requires f != []
    ensures Run(InModifier, f, spec, args, k, floats, out) ==
            Run(InConversion, ModifierOf(f).1, spec.(modifier := ModifierOf(f).0), args, k, floats, out)
  {
    hide ModifierOf;
  }

  lemma ConversionStep(ch: char, rest: string, spec: Spec, args: Args, k: nat, floats: Floats, out: string)
    requires !Convert(ch, spec, args(k), floats).overflow
    ensures var c := Convert(ch, spec, args(k), floats);
            Run(InConversion, [ch] + rest, spec, args, k, floats, out) ==
            Run(Default, rest, NO_SPEC, args, k + c.used, floats, out + c.text)
  {
    hide Convert;
    assert ([ch] + rest)[1..] == rest;
  }

  /** The precision part of a directive, up to the modifier. */
  lemma PrecisionPartIsRead(d: Directive, f: string, spec: Spec, args: Args, k: nat, floats: Floats, out: string)
    requires SizeFits(d.precision) && f != [] && Stops(f[0]) && spec.precision == NO_PRECISION
    ensures Run(InDot, PrecisionText(d.precision) + f, spec, args, k, floats, out) ==
            var p := match d.precision case Absent => NO_PRECISION case Number(n) => n
                     case Star => if args(k).n < 0 then NO_PRECISION else args(k).n;
            Run(InModifier, f, spec.(precision := p), args, k + StarCount(d.precision), floats, out)
  {
    var all := PrecisionText(d.precision) + f;
    match d.precision
    case Absent =>
      assert all == f;
      DotStep(f, spec, args, k, floats, out);
    case Number(n) =>
      var s := Digits(n, 10, false);
      assert all[0] == '.' && all[1..] == s + f;
      DotStep(all, spec, args, k, floats, out);
      DigitsAreDigits(n);
      DigitsReadBack(n, 10, false);
      assert [] + s == s;
      PrecisionRead([], s, f, spec, args, k, floats, out);
      PrecisionEnds(f, spec.(precision := n), args, k, floats, out);
    case Star =>
      assert all[0] == '.' && all[1..] == "*" + f && ("*" + f)[1..] == f;
      DotStep(all, spec, args, k, floats, out);
      PrecisionStar("*" + f, spec, args, k, floats, out);
  }

  lemma DotStep(f: string, spec: Spec, args: Args, k: nat, floats: Floats, out: string)
    requires f != []
    ensures Run(InDot, f, spec, args, k, floats, out) ==
            if f[0] == '.' then Run(InPrecision, f[1..], spec, args, k, floats, out)
            else Run(InModifier, f, spec, args, k, floats, out)
  {
  }

  lemma PrecisionEnds(f: string, spec: Spec, args: Args, k: nat, floats: Floats, out: string)
    requires f != [] && Stops(f[0]) && spec.precision >= 0
    ensures Run(InPrecision, f, spec, args, k, floats, out) == Run(InModifier, f, spec, args, k, floats, out)
  {
    assert spec.(precision := spec.precision) == spec;
  }

  lemma PrecisionStar(f: string, spec: Spec, args: Args, k: nat, floats: Floats, out: string)
    requires f != [] && f[0] == '*'
    ensures Run(InPrecision, f, spec, args, k, floats, out) ==
            Run(InModifier, f[1..], spec.(precision := if args(k).n < 0 then NO_PRECISION else args(k).n), args, k + 1,
                floats, out)
  {
  }

  /** The width part of a directive, up to the precision. */
  lemma WidthPartIsRead(d: Directive, f: string, spec: Spec, args: Args, k: nat, floats: Floats, out: string)
    requires SizeFits(d.width) && f != [] && (Stops(f[0]) || f[0] == '.') && spec.width == 0
    ensures var g := WidthText(d.width) + f;
            && !IsFlag(g[0])
            && Run(InWidth, g, spec, args, k, floats, out) ==
               var minus := spec.flags.minus || (d.width.Star? && args(k).n < 0);
               Run(InDot, f, spec.(flags := spec.flags.(minus := minus), width := WidthAsked(d, args, k)), args,
                   k + StarCount(d.width), floats, out)
  {
    var g := WidthText(d.width) + f;
    assert spec.(flags := spec.flags.(minus := spec.flags.minus)) == spec;
    match d.width
    case Absent =>
      assert g == f;
      WidthEnds(f, spec, args, k, floats, out);
    case Number(n) =>
      if n == 0 {
        assert g == f;
        WidthEnds(f, spec, args, k, floats, out);
      } else {
        var s := Digits(n, 10, false);
        DigitsAreDigits(n);
        DigitsReadBack(n, 10, false);
        NothingRead();
        assert [] + s == s && g[0] == s[0];
        WidthRead([], s, f, spec, args, k, floats, out);
        WidthEnds(f, spec.(width := n), args, k, floats, out);
      }
    case Star =>
      assert g[0] == '*' && g[1..] == f;
      WidthStar(g, spec, args, k, floats, out);
  }

  lemma WidthEnds(f: string, spec: Spec, args: Args, k: nat, floats: Floats, out: string)
    requires f != [] && (Stops(f[0]) || f[0] == '.')
    ensures Run(InWidth, f, spec, args, k, floats, out) == Run(InDot, f, spec, args, k, floats, out)
  {
  }

  lemma WidthStar(f: string, spec: Spec, args: Args, k: nat, floats: Floats, out: string)
    requires f != [] && f[0] == '*'
    ensures var w := args(k).n;
            Run(InWidth, f, spec, args, k, floats, out) ==
            Run(InDot, f[1..], if w < 0 then spec.(flags := spec.flags.(minus := true), width := -w)
                else spec.(width := w), args, k + 1, floats, out)
  {
  }

  /** A directive in a format is read as what it asks for, and the rest goes on with the next argument. */
  lemma DirectiveIsRead(d: Directive, rest: string, args: Args, k: nat, floats: Floats, out: string)
    requires Fits(d)
    ensures var c := Convert(d.letter, SpecOf(d, args, k), args(Operand(d, k)), floats);
            && !c.overflow
            && Run(Default, Written(d) + rest, NO_SPEC, args, k, floats, out) ==
               Run(Default, rest, NO_SPEC, args, Operand(d, k) + c.used, floats, out + c.text)
  {
    hide Run;
    hide Stops;
    hide IsFlag;
    hide Convert;
    hide AddFlags;
    hide WidthText;
    hide PrecisionText;
    hide ModifierText;
    var last := [d.letter] + rest;
    var third := ModifierText(d.modifier) + last;
    var second := PrecisionText(d.precision) + third;
    var first := WidthText(d.width) + second;
    assert Written(d) + rest == "%" + (d.flags + first);
    var spec := SpecOf(d, args, k);
    ModifierIsRead(d.modifier, d.letter, rest, spec.(modifier := Plain), args, Operand(d, k), floats, out);
    SizesAreRead(d, third, args, k, floats, out);
    PercentStep(d.flags + first, args, k, floats, out);
    FlagsAdded(NO_FLAGS, d.flags);
    FlagsRead(d.flags, first, NO_SPEC, args, k, floats, out);
    NoOverflow(d, spec, args(Operand(d, k)), floats);
    ConversionStep(d.letter, rest, spec, args, Operand(d, k), floats, out);
  }

  /** The flags as they are written. */
  function FlagsWritten(d: Directive): Flags {
    With(NO_FLAGS, '-' in d.flags, '+' in d.flags, ' ' in d.flags, '#' in d.flags, '0' in d.flags)
  }

  /** Width and precision, from the end of the flags to the modifier. */
  lemma SizesAreRead(d: Directive, f: string, args: Args, k: nat, floats: Floats, out: string)
    requires Fits(d) && f != [] && Stops(f[0])
    ensures var g := WidthText(d.width) + (PrecisionText(d.precision) + f);
            Run(InFlags, g, NO_SPEC.(flags := FlagsWritten(d)), args, k, floats, out) ==
            Run(InModifier, f, SpecOf(d, args, k).(modifier := Plain), args, Operand(d, k), floats, out)
  {
    hide Run;
    hide Stops;
    hide IsFlag;
    var g := PrecisionText(d.precision) + f;
    assert g[0] == if d.precision.Absent? then f[0] else '.';
    var flagged := NO_SPEC.(flags := FlagsWritten(d));
    WidthPartIsRead(d, g, flagged, args, k, floats, out);
    FlagsEnd(WidthText(d.width) + g, flagged, args, k, floats, out);
    var wide := flagged.(flags := SpecOf(d, args, k).flags, width := WidthAsked(d, args, k));
    PrecisionPartIsRead(d, f, wide, args, k + StarCount(d.width), floats, out);
  }

  lemma PercentStep(f: string, args: Args, k: nat, floats: Floats, out: string)
    ensures Run(Default, "%" + f, NO_SPEC, args, k, floats, out) == Run(InFlags, f, NO_SPEC, args, k, floats, out)
  {
    assert ("%" + f)[1..] == f;
  }

  lemma FlagsEnd(f: string, spec: Spec, args: Args, k: nat, floats: Floats, out: string)
    requires f != [] && !IsFlag(f[0])
    ensures Run(InFlags, f, spec, args, k, floats, out) == Run(InWidth, f, spec, args, k, floats, out)
  {
  }

  lemma NoOverflow(d: Directive, spec: Spec, arg: Arg, floats: Floats)
    requires IsLetter(d.letter)
    ensures !Convert(d.letter, spec, arg, floats).overflow
  {
    hide IntField;
    hide StrField;
  }

  // ---- numbers that are too big ------------------------------------------------------------------------

  lemma {:induction false} WidthOverflows(p: string, s: string, f: string, spec: Spec, args: Args, k: nat,
      floats: Floats, out: string)
    requires AllDigits(s) && ReadIn(p, 10) <= INT_MAX < ReadIn(p + s, 10)
    ensures Run(InWidth, s + f, spec.(width := ReadIn(p, 10)), args, k, floats, out) == Printed(out, true)
    decreases |s|
  {
    hide Run;
    hide ReadIn;
    assert s == [] ==> p + s == p;
    if s != [] {
      var c := s[0];
      assert (s + f)[0] == c && (s + f)[1..] == s[1..] + f;
      assert p + s == p + [c] + s[1..];
      ReadMore(p, c);
      if ReadIn(p + [c], 10) <= INT_MAX {
        WidthStep(s + f, spec.(width := ReadIn(p, 10)), args, k, floats, out);
        WidthOverflows(p + [c], s[1..], f, spec, args, k, floats, out);
      } else {
        WidthStops(s + f, spec.(width := ReadIn(p, 10)), args, k, floats, out);
      }
    }
  }

  lemma WidthStops(f: string, spec: Spec, args: Args, k: nat, floats: Floats, out: string)
    requires f != [] && Formatter.IsDigit(f[0]) && spec.width >= 0 && spec.width * 10 + Worth(f[0]) > INT_MAX
    ensures Run(InWidth, f, spec, args, k, floats, out) == Printed(out, true)
  {
  }

  lemma {:induction false} PrecisionOverflows(p: string, s: string, f: string, spec: Spec, args: Args, k: nat,
      floats: Floats, out: string)
    requires AllDigits(s) && ReadIn(p, 10) <= INT_MAX < ReadIn(p + s, 10)
    ensures Run(InPrecision, s + f, spec.(precision := PrecisionOf(p)), args, k, floats, out) == Printed(out, true)
    decreases |s|
  {
    hide Run;
    hide ReadIn;
    assert s == [] ==> p + s == p;
    if s != [] {
      var c := s[0];
      assert (s + f)[0] == c && (s + f)[1..] == s[1..] + f;
      assert p + s == p + [c] + s[1..];
      ReadMore(p, c);
      NothingRead();
      if ReadIn(p + [c], 10) <= INT_MAX {
        PrecisionStep(s + f, spec.(precision := PrecisionOf(p)), args, k, floats, out);
        PrecisionOverflows(p + [c], s[1..], f, spec, args, k, floats, out);
      } else {
        PrecisionStops(s + f, spec.(precision := PrecisionOf(p)), args, k, floats, out);
      }
    }
  }

  lemma PrecisionStops(f: string, spec: Spec, args: Args, k: nat, floats: Floats, out: string)
    requires f != [] && Formatter.IsDigit(f[0]) && spec.precision >= NO_PRECISION
    requires (if spec.precision == NO_PRECISION then 0 else spec.precision) * 10 + Worth(f[0]) > INT_MAX
    ensures Run(InPrecision, f, spec, args, k, floats, out) == Printed(out, true)
  {
  }

  /** A width past INT_MAX ends the output there, as an overflow. */
  lemma HugeWidthOverflows(flags: string, n: nat, f: string, args: Args, k: nat, floats: Floats, out: string)
    requires PlainFlags(flags) && n > INT_MAX
    ensures Run(Default, "%" + flags + Digits(n, 10, false) + f, NO_SPEC, args, k, floats, out) == Printed(out, true)
  {
    hide Run;
    hide IsFlag;
    hide Digits;
    var s, spec := Digits(n, 10, false), NO_SPEC.(flags := AddFlags(NO_FLAGS, flags));
    DigitsAreDigits(n);
    FirstIsNoFlag(n);
    DigitsReadBack(n, 10, false);
    NothingRead();
    assert [] + s == s && (s + f)[0] == s[0];
    assert "%" + flags + s + f == "%" + (flags + (s + f));
    PercentStep(flags + (s + f), args, k, floats, out);
    FlagsRead(flags, s + f, NO_SPEC, args, k, floats, out);
    FlagsEnd(s + f, spec, args, k, floats, out);
    WidthOverflows([], s, f, spec, args, k, floats, out);
  }

  lemma FirstIsNoFlag(n: nat)
    requires n > 0
    ensures !IsFlag(Digits(n, 10, false)[0])
  {
    DigitsAreDigits(n);
  }

  /** So does such a precision. */
  lemma HugePrecisionOverflows(flags: string, n: nat, f: string, args: Args, k: nat, floats: Floats, out: string)
    requires PlainFlags(flags) && n > INT_MAX
    ensures Run(Default, "%" + flags + "." + Digits(n, 10, false) + f, NO_SPEC, args, k, floats, out) ==
            Printed(out, true)
  {
    hide Run;
    hide Digits;
    var s, spec := Digits(n, 10, false), NO_SPEC.(flags := AddFlags(NO_FLAGS, flags));
    DigitsAreDigits(n);
    DigitsReadBack(n, 10, false);
    NothingRead();
    assert [] + s == s;
    var g := "." + (s + f);
    assert "%" + flags + "." + s + f == "%" + (flags + g);
    PercentStep(flags + g, args, k, floats, out);
    FlagsRead(flags, g, NO_SPEC, args, k, floats, out);
    FlagsEnd(g, spec, args, k, floats, out);
    WidthEnds(g, spec, args, k, floats, out);
    DotStep(g, spec, args, k, floats, out);
    assert g[1..] == s + f;
    PrecisionOverflows([], s, f, spec, args, k, floats, out);
  }

  // ---- the values of the arguments -----------------------------------------------------------------

  /** Half the number of values of the C type a modifier names. */
  function HalfOf(m: Modifier): (half: int)
    ensures half > 0
  {
    match m
    case CharMod => 0x80
    case ShortMod => 0x8000
    case LongLong => 0x8000_0000_0000_0000
    case IntMax => 0x8000_0000_0000_0000
    case _ => 0x8000_0000
  }

  /** The same bits in a type of 2 * half values. */
  ghost predicate SameBits(a: int, b: int, half: int)
    requires half > 0
  {
    a % (2 * half) == b % (2 * half)
  }

  lemma SignedExactly(n: int, m: Modifier)
    ensures IsSigned(SignedArg(n, m), n, m)
  {
    var low := n % (2 * HalfOf(m));
    SubtractModulus(low, 2 * HalfOf(m));
  }

  lemma SubtractModulus(low: nat, modulus: nat)
    requires low < modulus
    ensures low % modulus == low && (low - modulus) % modulus == low
  {
  }

  /** What an unsigned conversion prints: the argument in its unsigned type, but with `t` sign-extended to 64 bits. */
  function UnsignedValue(n: int, m: Modifier): nat {
    var low := n % (2 * HalfOf(m));
    if m.PtrDiff? && low >= HalfOf(m) then low + 0xFFFF_FFFF_0000_0000 else low
  }

  lemma UnsignedExactly(n: int, m: Modifier, flags: Flags)
    requires flags.unsigned
    ensures Magnitude(UnsignedArg(n, m), flags) == UnsignedValue(n, m)
  {
    var low := n % (2 * HalfOf(m));
    if m.PtrDiff? && low >= HalfOf(m) {
      assert UnsignedArg(n, m) == low - 0x1_0000_0000;
      WrapsBelowZero(low - 0x1_0000_0000);
    } else {
      assert UnsignedArg(n, m) == low;
      StaysInRange(low);
    }
  }

  lemma WrapsBelowZero(n: int)
    requires -0x1_0000_0000 <= n < 0
    ensures n % 0x1_0000_0000_0000_0000 == n + 0x1_0000_0000_0000_0000
  {
  }

  lemma StaysInRange(n: nat)
    requires n < 0x1_0000_0000_0000_0000
    ensures n % 0x1_0000_0000_0000_0000 == n
  {
  }

  // ---- number fields ----------------------------------------------------------------------------------

  /** A digit of this base, in the right case. */
  predicate DigitOf(c: char, base: nat, caps: bool) {
    && ('0' <= c <= '9' || (if caps then 'A' <= c <= 'F' else 'a' <= c <= 'f'))
    && Worth(c) < base
  }

  /** The parts of a number field. */
  datatype Parts = Parts(before: nat, zeros: nat, digits: string, after: nat)

  /** What is asked of a field. */
  datatype Wanted = Wanted(left: bool, fill: bool, width: int, precision: int, alternate: bool)

  function WantedOf(d: Directive, args: Args, k: nat): Wanted {
    var left, precision := Left(d, args, k), PrecisionAsked(d, args, k);
    Wanted(left, '0' in d.flags && !left && precision == NO_PRECISION, WidthAsked(d, args, k), precision,
        '#' in d.flags)
  }

  /** The zeros the precision asks for; the octal alternative form has at least one. */
  function ZerosAsked(w: Wanted, u: nat, base: nat, digits: nat): nat {
    var zeros := Max(0, w.precision - digits);
    if w.alternate && base == 8 && u != 0 then Max(1, zeros) else zeros
  }

  /** The digits of a number in a base, without leading zeros. */
  predicate Spells(digits: string, u: nat, base: nat, caps: bool) {
    && digits != [] && ReadIn(digits, base) == u && (if u == 0 then digits == "0" else Worth(digits[0]) > 0)
    && forall i :: 0 <= i < |digits| ==> DigitOf(digits[i], base, caps)
  }

  /**
   Padding, sign, prefix, zeros and digits: as wide as asked, padded on the left unless asked to be on
   the right, with zeros where the field is to be filled with them and else with spaces.
   */
  predicate LaidOut(text: string, sign: string, prefix: string, u: nat, base: nat, caps: bool, w: Wanted, p: Parts) {
    && text == Repeat(' ', p.before) + sign + prefix + Repeat('0', p.zeros) + p.digits + Repeat(' ', p.after)
    && Spells(p.digits, u, base, caps)
    && |text| == Max(w.width, |sign| + |prefix| + ZerosAsked(w, u, base, |p.digits|) + |p.digits|)
    && (if w.left then p.before == 0 else p.after == 0)
    && (if w.fill then p.before == 0 else p.zeros == ZerosAsked(w, u, base, |p.digits|))
  }

  ghost predicate IsNumber(text: string, sign: string, prefix: string, u: nat, base: nat, caps: bool, w: Wanted) {
    exists p :: LaidOut(text, sign, prefix, u, base, caps, w, p)
  }

  lemma DigitCharOf(d: nat, base: nat, caps: bool)
    requires d < base && IsBase(base)
    ensures DigitOf(DigitChar(d, caps), base, caps)
  {
    DigitIsWorth(d, caps);
    assert "0123456789ABCDEF" == ['0', '1', '2', '3', '4', '5', '6', '7', '8', '9', 'A', 'B', 'C', 'D', 'E', 'F'];
    assert "0123456789abcdef" == ['0', '1', '2', '3', '4', '5', '6', '7', '8', '9', 'a', 'b', 'c', 'd', 'e', 'f'];
  }

  lemma {:induction false} DigitsAreOf(u: nat, base: nat, caps: bool)
    requires IsBase(base)
    ensures forall i :: 0 <= i < |Digits(u, base, caps)| ==> DigitOf(Digits(u, base, caps)[i], base, caps)
    decreases u
  {
    hide DigitOf;
    hide DigitChar;
    DigitCharOf(u % base, base, caps);
    if u >= base {
      DigitsAreOf(u / base, base, caps);
    }
  }

  lemma DigitsSpell(u: nat, base: nat, caps: bool)
    requires IsBase(base)
    ensures Spells(Digits(u, base, caps), u, base, caps)
  {
    DigitsReadBack(u, base, caps);
    DigitsAreOf(u, base, caps);
    if u > 0 {
      NoLeadingZero(u, base, caps);
    } else {
      assert "0123456789abcdef"[0] == '0' && "0123456789ABCDEF"[0] == '0';
    }
  }

  /** How an integer field is put together. */
  function PartsOf(value: int, base: nat, width: int, precision: int, flags: Flags): Parts
    requires IsBase(base)
  {
    var u := Magnitude(value, flags);
    var digits := Digits(u, base, flags.up);
    var sign, prefix := SignOf(value, flags), PrefixOf(u, base, flags);
    var asked := AskedDigits(u, base, precision, flags, |digits|);
    var spaces, zeros := SpacePad(|digits|, width, asked, sign, prefix, flags), ZeroPad(|digits|, asked, flags);
    if flags.minus then Parts(0, zeros, digits, spaces)
    else if flags.zero && precision == NO_PRECISION then Parts(0, zeros + spaces, digits, 0)
    else Parts(spaces, zeros, digits, 0)
  }

  lemma FieldParts(value: int, base: nat, width: int, precision: int, flags: Flags)
    requires IsBase(base) && !flags.quote
    ensures var p, u := PartsOf(value, base, width, precision, flags), Magnitude(value, flags);
            && p.digits == Digits(u, base, flags.up)
            && IntField(value, base, width, precision, flags) ==
               Repeat(' ', p.before) + SignOf(value, flags) + PrefixOf(u, base, flags) + Repeat('0', p.zeros)
                   + p.digits + Repeat(' ', p.after)
  {
    hide Digits;
    hide Repeat;
    hide Grouped;
    hide SpacePad;
    hide ZeroPad;
    hide AskedDigits;
    hide SignOf;
    hide PrefixOf;
    hide Magnitude;
    GroupedPlain(Digits(Magnitude(value, flags), base, flags.up), flags);
    NoRepeat();
  }

  lemma FieldZeros(value: int, base: nat, width: int, precision: int, flags: Flags, w: Wanted)
    requires IsBase(base) && !flags.quote && precision >= NO_PRECISION
    requires w == Wanted(flags.minus, flags.zero && !flags.minus && precision == NO_PRECISION, width, precision,
        flags.num)
    ensures var p, u := PartsOf(value, base, width, precision, flags), Magnitude(value, flags);
            && (if w.left then p.before == 0 else p.after == 0)
            && (if w.fill then p.before == 0 else p.zeros == ZerosAsked(w, u, base, |p.digits|))
            && Max(AskedDigits(u, base, precision, flags, |p.digits|), |p.digits|) ==
               ZerosAsked(w, u, base, |p.digits|) + |p.digits|
  {
    hide Digits;
    hide SignOf;
    hide PrefixOf;
    hide Magnitude;
  }

  /** What an integer conversion prints is such a field. */
  lemma FieldIsNumber(value: int, base: nat, width: int, precision: int, flags: Flags, w: Wanted)
    requires IsBase(base) && !flags.quote && precision >= NO_PRECISION
    requires w == Wanted(flags.minus, flags.zero && !flags.minus && precision == NO_PRECISION, width, precision,
        flags.num)
    ensures var u := Magnitude(value, flags);
            IsNumber(IntField(value, base, width, precision, flags), SignOf(value, flags), PrefixOf(u, base, flags), u,
                base, flags.up, w)
  {
    FieldParts(value, base, width, precision, flags);
    FieldZeros(value, base, width, precision, flags, w);
    IntFieldLength(value, base, width, precision, flags);
    DigitsSpell(Magnitude(value, flags), base, flags.up);
    hide Digits;
    hide Repeat;
    hide IntField;
    hide PartsOf;
    hide Spells;
    hide SignOf;
    hide PrefixOf;
    hide Magnitude;
    hide ZerosAsked;
    hide AskedDigits;
    var u, p := Magnitude(value, flags), PartsOf(value, base, width, precision, flags);
    assert LaidOut(IntField(value, base, width, precision, flags), SignOf(value, flags), PrefixOf(u, base, flags), u,
        base, flags.up, w, p);
  }

  // ---- what each letter prints --------------------------------------------------------------------------

  /** A format that is one directive. */
  lemma OneDirective(d: Directive, args: Args, floats: Floats)
    requires Fits(d)
    ensures Formatted(Written(d), args, floats) ==
            Printed(Convert(d.letter, SpecOf(d, args, 0), args(Operand(d, 0)), floats).text, false)
  {
    hide Convert;
    DirectiveIsRead(d, [], args, 0, floats, []);
    assert Written(d) + [] == Written(d);
    var c := Convert(d.letter, SpecOf(d, args, 0), args(Operand(d, 0)), floats);
    assert [] + c.text == c.text;
  }

  function SignText(value: int, d: Directive): string {
    if value < 0 then "-" else if '+' in d.flags then "+" else if ' ' in d.flags then " " else ""
  }

  /** The argument as a value of the signed type; with `z` the type is unsigned. */
  ghost predicate IsSigned(v: int, n: int, m: Modifier) {
    && SameBits(v, n, HalfOf(m))
    && if m.SizeMod? then 0 <= v < 2 * HalfOf(m) else -HalfOf(m) <= v < HalfOf(m)
  }

  /** %d and %i print the argument, as a value of its type, in base ten. */
  lemma PrintsSigned(d: Directive, args: Args, floats: Floats)
    requires Fits(d) && (d.letter == 'd' || d.letter == 'i')
    ensures var p, n := Formatted(Written(d), args, floats), args(Operand(d, 0)).n;
            !p.overflow && exists v {:trigger IsSigned(v, n, d.modifier)} ::
              && IsSigned(v, n, d.modifier)
              && IsNumber(p.out, SignText(v, d), "", if v < 0 then -v else v, 10, false, WantedOf(d, args, 0))
  {
    hide IntField;
    hide IsNumber;
    hide IsSigned;
    var spec, n := SpecOf(d, args, 0), args(Operand(d, 0)).n;
    OneDirective(d, args, floats);
    SignedExactly(n, d.modifier);
    hide SignedArg;
    var v := SignedArg(n, d.modifier);
    FieldIsNumber(v, 10, spec.width, spec.precision, spec.flags, WantedOf(d, args, 0));
  }

  function BaseOf(letter: char): nat {
    if letter == 'o' then 8 else if letter == 'u' then 10 else 16
  }

  /** %u, %o, %x and %X print the argument, as a value of its unsigned type, in base 10, 8 and 16. */
  lemma PrintsUnsigned(d: Directive, args: Args, floats: Floats)
    requires Fits(d) && d.letter in {'u', 'o', 'x', 'X'}
    ensures var p, u := Formatted(Written(d), args, floats), UnsignedValue(args(Operand(d, 0)).n, d.modifier);
            var prefix := if '#' !in d.flags || u == 0 then "" else if d.letter == 'x' then "0x"
                          else if d.letter == 'X' then "0X" else "";
            && !p.overflow
            && IsNumber(p.out, "", prefix, u, if d.letter == 'u' then 10 else if d.letter == 'o' then 8 else 16,
                   d.letter == 'X', WantedOf(d, args, 0))
  {
    hide IntField;
    hide IsNumber;
    hide UnsignedValue;
    var spec, n := SpecOf(d, args, 0), args(Operand(d, 0)).n;
    var flags := spec.flags.(unsigned := true, up := d.letter == 'X');
    OneDirective(d, args, floats);
    UnsignedExactly(n, d.modifier, flags);
    hide UnsignedArg;
    hide Magnitude;
    FieldIsNumber(UnsignedArg(n, d.modifier), BaseOf(d.letter), spec.width, spec.precision, flags,
        WantedOf(d, args, 0));
  }

  /** %s prints what the precision allows of the string, padded with spaces. */
  lemma PrintsString(d: Directive, args: Args, floats: Floats)
    requires Fits(d) && d.letter == 's'
    ensures var p, t, w := Formatted(Written(d), args, floats), args(Operand(d, 0)).text, WantedOf(d, args, 0);
            var s := if t.NullText? then "(null)" else t.s;
            var shown := if w.precision == NO_PRECISION || w.precision >= |s| then s else s[..w.precision];
            && !p.overflow
            && var pad := Repeat(' ', w.width - |shown|);
            p.out == if w.left then shown + pad else pad + shown
  {
    OneDirective(d, args, floats);
  }

  /** %c prints the byte, whatever the width; %% a percent sign, taking no argument. */
  lemma PrintsCharacter(d: Directive, args: Args, floats: Floats)
    requires Fits(d) && (d.letter == 'c' || d.letter == '%')
    ensures Formatted(Written(d), args, floats) ==
            Printed([if d.letter == 'c' then (args(Operand(d, 0)).n % 0x100) as char else '%'], false)
  {
    OneDirective(d, args, floats);
  }

  /** %p prints the address in hexadecimal with its prefix, or that there is none. */
  lemma PrintsPointer(d: Directive, args: Args, floats: Floats)
    requires Fits(d) && d.letter == 'p'
    ensures var p, u, w := Formatted(Written(d), args, floats), args(Operand(d, 0)).n % 0x1_0000_0000,
                WantedOf(d, args, 0);
            && !p.overflow
            && if u != 0 then IsNumber(p.out, "", "0x", u, 16, false, w.(alternate := true))
               else p.out == if w.left then "(nil)" + Repeat(' ', w.width - 5) else Repeat(' ', w.width - 5) + "(nil)"
  {
    hide IntField;
    hide IsNumber;
    var spec, u := SpecOf(d, args, 0), args(Operand(d, 0)).n % 0x1_0000_0000;
    var flags := spec.flags.(num := true, unsigned := true);
    OneDirective(d, args, floats);
    if u != 0 {
      assert Magnitude(u, flags) == u;
      FieldIsNumber(u, 16, spec.width, spec.precision, flags, WantedOf(d, args, 0).(alternate := true));
    }
  }
}
