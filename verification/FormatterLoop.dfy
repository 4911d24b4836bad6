/**
 The loops of the formatter (code/lib/qvsnprintf.c, 307-829 and 1170-1183) and the proof
 that the bounded output is the beginning of the unbounded one.
 */
module FormatterLoop {
  import opened FormatFields
  import opened Formatter

  const MAX_CONVERT_LENGTH: nat := 43

  // ---- convert --------------------------------------------------------------------

  function Pow8(k: nat): (r: nat)
    ensures r > 0
  {
    if k == 0 then 1 else 8 * Pow8(k - 1)
  }

  /** buf holds the digits behind `front` in reverse order. */
  ghost predicate Reversed(all: string, front: string, buf: seq<char>) {
    && |all| == |front| + |buf| && all[..|front|] == front
    && forall i :: 0 <= i < |buf| ==> buf[i] == all[|all| - 1 - i]
  }

  /** The digits in reverse order; 64 bits fit. */
  method ConvertDigits(value: nat, base: nat, caps: bool, buf: array<char>) returns (pos: nat)
    requires IsBase(base) && value < 0x1_0000_0000_0000_0000 && buf.Length == MAX_CONVERT_LENGTH
    modifies buf
    ensures pos <= buf.Length && Reversed(Digits(value, base, caps), "", buf[..pos])
  {
    hide DigitChar;
    hide Digits;
    hide Pow8;
    hide Reversed;
    ghost var all := Digits(value, base, caps);
    var v: nat := value;
    pos := 0;
    Fits64();
    NothingReversed(all);
    var more := true;
    while more
      invariant pos <= 22 && (more ==> pos < 22)
      invariant v < Pow8(22 - pos)
      invariant Reversed(all, if more then Digits(v, base, caps) else "", buf[..pos])
      decreases 22 - pos
    {
      Shrinks(v, base, 22 - pos);
      OneDigit(all, v, base, caps, buf[..pos]);
      buf[pos] := DigitChar(v % base, caps);
      assert buf[..pos + 1] == buf[..pos] + [DigitChar(v % base, caps)];
      pos := pos + 1;
      v := v / base;
      more := v != 0 && pos < buf.Length;
    }
  }

  lemma Shrinks(v: nat, base: nat, k: nat)
    requires IsBase(base) && k > 0 && v < Pow8(k)
    ensures 0 <= v / base < Pow8(k - 1) && 0 <= v % base < 16
    ensures v / base != 0 ==> k > 1
  {
    assert v / base <= v / 8;
  }

  lemma Fits64()
    ensures Pow8(22) >= 0x1_0000_0000_0000_0000
  {
    assert Pow8(11) == 8589934592;
    assert Pow8(22) == 8589934592 * Pow8(11);
  }

  lemma NothingReversed(all: string)
    ensures Reversed(all, all, [])
  {
  }

  /** One more digit of v is taken from the front. */
  lemma OneDigit(all: string, v: nat, base: nat, caps: bool, buf: seq<char>)
    requires IsBase(base) && Reversed(all, Digits(v, base, caps), buf)
    ensures Reversed(all, if v / base == 0 then "" else Digits(v / base, base, caps), buf + [DigitChar(v % base, caps)])
  {
    hide DigitChar;
  }

  // ---- the fields ------------------------------------------------------------------

  method FmtStr(sink: Sink, text: Text, width: int, precision: int, flags: Flags)
    requires sink.Valid()
    modifies sink`len, sink`out, sink.str
    ensures sink.Valid() && sink.out == old(sink.out) + StrField(TextOf(text), width, precision, flags)
  {
    hide Repeat;
    hide Shown;
    var value := if text.NullText? then "(null)" else text.s;
    var strln := CountShown(value, precision);
    var padlen := if width - strln < 0 then 0 else width - strln;
    if flags.minus {
      padlen := -padlen;
    }
    NoPadding(width - strln);
    NoPadding(padlen);
    NoPadding(-padlen);
    sink.OutRepeat(' ', padlen);
    OutShown(sink, value, precision);
    sink.OutRepeat(' ', -padlen);
  }

  lemma NoPadding(n: int)
    ensures n <= 0 ==> Repeat(' ', n) == []
  {
  }

  /** If a precision was given, the string is not read past it. */
  method CountShown(value: string, precision: int) returns (strln: nat)
    ensures strln == |Shown(value, precision)|
  {
    var noprecision := precision == NO_PRECISION;
    strln := 0;
    while strln < |value| && (noprecision || strln < precision)
      invariant strln <= |value|
      invariant !noprecision && precision >= 0 ==> strln <= precision
      invariant !noprecision && precision < 0 ==> strln == 0
    {
      strln := strln + 1;
    }
  }

  method OutShown(sink: Sink, value: string, precision: int)
    requires sink.Valid()
    modifies sink`len, sink`out, sink.str
    ensures sink.Valid() && sink.out == old(sink.out) + Shown(value, precision)
  {
    var noprecision := precision == NO_PRECISION;
    var i, left := 0, precision;
    while i < |value| && (noprecision || left > 0)
      invariant sink.Valid() && 0 <= i <= |value|
      invariant !noprecision ==> left == precision - i && (i > 0 ==> left >= 0)
      invariant sink.out == old(sink.out) + value[..i]
    {
      sink.OutChar(value[i]);
      i := i + 1;
      left := left - 1;
    }
    assert value[..i] == Shown(value, precision);
  }

  /** The digits from `pos` on down, with their commas. */
  method OutDigits(sink: Sink, buf: array<char>, count: nat, flags: Flags, ghost digits: string)
    requires sink.Valid() && buf != sink.str && count <= buf.Length && Reversed(digits, "", buf[..count])
    modifies sink`len, sink`out, sink.str
    ensures sink.Valid() && sink.out == old(sink.out) + Grouped(digits, flags)
  {
    hide Grouped;
    var separators := Separators(count, flags);
    var pos := count;
    NothingGrouped(digits, flags);
    while pos > 0
      invariant sink.Valid() && 0 <= pos <= count == |digits|
      invariant sink.out + Grouped(digits[count - pos..], flags) == old(sink.out) + Grouped(digits, flags)
      invariant buf[..count] == old(buf[..count])
    {
      GroupedStep(digits, count - pos, flags);
      pos := pos - 1;
      DigitAt(digits, buf[..count], pos);
      sink.OutChar(buf[pos]);
      if separators > 0 && pos > 0 && pos % 3 == 0 {
        sink.OutChar(',');
      }
    }
  }

  lemma NothingGrouped(digits: string, flags: Flags)
    ensures Grouped(digits[|digits|..], flags) == [] && digits[0..] == digits
  {
  }

  lemma GroupedStep(digits: string, i: nat, flags: Flags)
    requires i < |digits|
    ensures Grouped(digits[i..], flags) ==
            [digits[i]] + (if flags.quote && i + 1 < |digits| && (|digits| - i - 1) % 3 == 0 then "," else "")
                + Grouped(digits[i + 1..], flags)
  {
    assert digits[i..][1..] == digits[i + 1..];
  }

  lemma DigitAt(digits: string, buf: seq<char>, pos: nat)
    requires Reversed(digits, "", buf) && pos < |buf|
    ensures buf[pos] == digits[|buf| - 1 - pos]
  {
  }

  method FmtInt(sink: Sink, value: int, base: nat, width: int, precision: int, flags: Flags)
    requires sink.Valid() && IsBase(base) && Magnitude(value, flags) < 0x1_0000_0000_0000_0000
    modifies sink`len, sink`out, sink.str
    ensures sink.Valid() && sink.out == old(sink.out) + IntField(value, base, width, precision, flags)
  {
    hide Digits;
    hide Reversed;
    hide Grouped;
    hide Repeat;
    hide SignOf;
    hide PrefixOf;
    hide IntField;
    hide Magnitude;
    hide PadsOf;
    var uvalue := Magnitude(value, flags);
    var sign := SignOf(value, flags);
    ghost var digits := Digits(uvalue, base, flags.up);
    var iconvert := new char[MAX_CONVERT_LENGTH];
    var pos := ConvertDigits(uvalue, base, flags.up, iconvert);
    CountDigits(digits, iconvert[..pos]);
    var hexprefix := PrefixOf(uvalue, base, flags);
    var spadlen, zpadlen := Pads(uvalue, base, width, precision, flags, pos, sign, hexprefix);
    FieldParts(value, base, width, precision, flags);
    OutParts(sink, spadlen, sign, hexprefix, zpadlen, iconvert, pos, flags, digits);
  }

  method OutParts(sink: Sink, spadlen: int, sign: string, prefix: string, zpadlen: int, buf: array<char>, pos: nat,
      flags: Flags, ghost digits: string)
    requires sink.Valid() && buf != sink.str && pos <= buf.Length && Reversed(digits, "", buf[..pos])
    modifies sink`len, sink`out, sink.str
    ensures sink.Valid()
    ensures sink.out == old(sink.out)
        + (Repeat(' ', spadlen) + sign + prefix + Repeat('0', zpadlen) + Grouped(digits, flags) + Repeat(' ', -spadlen))
  {
    hide Reversed;
    hide Grouped;
    hide Repeat;
    sink.OutRepeat(' ', spadlen);
    sink.OutText(sign);
    sink.OutText(prefix);
    sink.OutRepeat('0', zpadlen);
    OutDigits(sink, buf, pos, flags, digits);
    sink.OutRepeat(' ', -spadlen);
  }

  /** Spaces to print ahead, or, when negative, behind, and zeros. */
  function PadsOf(u: nat, base: nat, width: int, precision: int, flags: Flags, digits: nat, sign: string,
      prefix: string): (int, int) {
    var asked := AskedDigits(u, base, precision, flags, digits);
    var spaces, zeros := SpacePad(digits, width, asked, sign, prefix, flags), ZeroPad(digits, asked, flags);
    if flags.minus then (0 - spaces, zeros) else if flags.zero && precision == NO_PRECISION then (0, zeros + spaces)
    else (spaces, zeros)
  }

  method Pads(u: nat, base: nat, width: int, precision: int, flags: Flags, pos: nat, sign: string, prefix: string)
    returns (spadlen: int, zpadlen: int)
    ensures (spadlen, zpadlen) == PadsOf(u, base, width, precision, flags, pos, sign, prefix)
  {
    var noprecision := precision == NO_PRECISION;
    var asked := precision;
    if flags.num && u != 0 && base == 8 && precision <= pos {
      asked := pos + 1;
    }
    var separators := Separators(pos, flags);
    zpadlen := asked - pos - separators;
    spadlen := width - separators - (if asked >= pos then asked else pos) - |sign| - |prefix|;
    if zpadlen < 0 {
      zpadlen := 0;
    }
    if spadlen < 0 {
      spadlen := 0;
    }
    if flags.minus {
      spadlen := -spadlen;
    } else if flags.zero && noprecision {
      zpadlen := zpadlen + spadlen;
      spadlen := 0;
    }
  }

  lemma FieldParts(value: int, base: nat, width: int, precision: int, flags: Flags)
    requires IsBase(base)
    ensures var u := Magnitude(value, flags);
            var digits := Digits(u, base, flags.up);
            var sign, prefix := SignOf(value, flags), PrefixOf(u, base, flags);
            var (spaces, zeros) := PadsOf(u, base, width, precision, flags, |digits|, sign, prefix);
            IntField(value, base, width, precision, flags) ==
            Repeat(' ', spaces) + sign + prefix + Repeat('0', zeros) + Grouped(digits, flags) + Repeat(' ', -spaces)
  {
    hide Digits;
    hide Grouped;
    hide SignOf;
    hide PrefixOf;
    hide AskedDigits;
    hide SpacePad;
    hide ZeroPad;
    hide Repeat;
    var u := Magnitude(value, flags);
    var digits := Digits(u, base, flags.up);
    var (spaces, zeros) := PadsOf(u, base, width, precision, flags, |digits|, SignOf(value, flags),
        PrefixOf(u, base, flags));
    NoPadding(spaces);
    NoPadding(-spaces);
  }

  lemma CountDigits(digits: string, buf: seq<char>)
    requires Reversed(digits, "", buf)
    ensures |buf| == |digits|
  {
  }

  // ---- the machine --------------------------------------------------------------------

  /** Every value a conversion hands to fmtint fits in 64 bits. */
  lemma ArgumentsFit(n: int, m: Modifier, flags: Flags)
    ensures Magnitude(SignedArg(n, m), flags) < 0x1_0000_0000_0000_0000
    ensures Magnitude(UnsignedArg(n, m), flags.(unsigned := true)) < 0x1_0000_0000_0000_0000
    ensures Magnitude(Wrap(n, 0x1_0000_0000), flags) < 0x1_0000_0000_0000_0000
  {
  }

  /** One conversion into the buffer. */
  method OutConversion(sink: Sink, ch: char, spec: Spec, arg: Arg, floats: Floats) returns (used: nat, overflow: bool)
    requires sink.Valid()
    modifies sink`len, sink`out, sink.str
    ensures sink.Valid()
    ensures var c := Convert(ch, spec, arg, floats);
            sink.out == old(sink.out) + c.text && used == c.used && overflow == c.overflow
  {
    hide IntField;
    hide StrField;
    hide SignedArg;
    hide UnsignedArg;
    hide Magnitude;
    hide Wrap;
    used, overflow := 1, false;
    ArgumentsFit(arg.n, spec.modifier, spec.flags);
    if ch == 'd' || ch == 'i' {
      FmtInt(sink, SignedArg(arg.n, spec.modifier), 10, spec.width, spec.precision, spec.flags);
    } else if ch == 'x' || ch == 'X' || ch == 'o' || ch == 'u' {
      var flags := spec.flags.(unsigned := true, up := spec.flags.up || ch == 'X');
      ArgumentsFit(arg.n, spec.modifier, flags);
      var base := if ch == 'o' then 8 else if ch == 'u' then 10 else 16;
      FmtInt(sink, UnsignedArg(arg.n, spec.modifier), base, spec.width, spec.precision, flags);
    } else if IsFloat(ch) {
      var f := floats(arg, ch, spec.modifier, spec.width, spec.precision, spec.flags);
      sink.OutText(f.text);
      overflow := f.overflow;
    } else if ch == 'c' {
      sink.OutChar(ByteOf(arg.n));
    } else if ch == 's' {
      FmtStr(sink, arg.text, spec.width, spec.precision, spec.flags);
    } else if ch == 'p' {
      if Wrap(arg.n, 0x1_0000_0000) == 0 {
        FmtStr(sink, Chars("(nil)"), spec.width, NO_PRECISION, spec.flags);
      } else {
        var flags := spec.flags.(num := true, unsigned := true);
        ArgumentsFit(arg.n, spec.modifier, flags);
        FmtInt(sink, Wrap(arg.n, 0x1_0000_0000), 16, spec.width, spec.precision, flags);
      }
    } else if ch == 'n' {
    } else {
      used := 0;
      if ch == '%' {
        sink.OutChar(ch);
      }
    }
  }

  /**
   The bounded output is the beginning of the unbounded one and a terminator, the result
   its full length; nothing else in the buffer changes. Without a buffer, or with size
   zero, nothing is written.
   */
  method QVsnprintf(str: array?<char>, size: nat, format: string, args: Args, floats: Floats) returns (r: int)
    requires str != null ==> size <= str.Length
    modifies str
    ensures var p := Formatted(format, args, floats);
            && r == (if p.overflow || |p.out| >= INT_MAX then -1 else |p.out|)
            && (str != null && size > 0 ==>
                  var k := Kept(p.out, size);
                  && str[..k] == p.out[..k] && str[k] == '\0'
                  && forall i :: k < i < str.Length ==> str[i] == old(str[i]))
            && (str != null && size == 0 ==> str[..] == old(str[..]))
  {
    var buffer := new char[0];
    if str != null {
      buffer := str;
    }
    var sink := new Sink(buffer, if str == null then 0 else size);
    ghost var before := buffer[..];
    var overflow := Scan(sink, format, args, floats);
    r := sink.Finish(overflow);
  }

  /** One turn of the loop: the rest prints what it printed before, or a number has overflowed. */
  method Step(sink: Sink, mode: Mode, f: string, spec: Spec, args: Args, k: nat, floats: Floats)
    returns (mode': Mode, f': string, spec': Spec, k': nat, overflow: bool)
    requires sink.Valid() && f != []
    modifies sink`len, sink`out, sink.str
    ensures sink.Valid()
    ensures overflow ==> Run(mode, f, spec, args, k, floats, old(sink.out)) == Printed(sink.out, true)
    ensures !overflow ==>
      && Run(mode, f, spec, args, k, floats, old(sink.out)) == Run(mode', f', spec', args, k', floats, sink.out)
      && (|f'| < |f| || (|f'| == |f| && Rank(mode') < Rank(mode)))
  {
    hide Convert;
    var ch := f[0];
    mode', f', spec', k', overflow := mode, f, spec, k, false;
    match mode
    case Default =>
      if ch == '%' {
        mode' := InFlags;
      } else {
        sink.OutChar(ch);
      }
      f' := f[1..];
    case InFlags =>
      if IsFlag(ch) {
        spec' := spec.(flags := FlagOf(spec.flags, ch));
        f' := f[1..];
      } else {
        mode' := InWidth;
      }
    case InWidth =>
      if IsDigit(ch) {
        if TooBig(spec.width, ch) {
          overflow := true;
        } else {
          spec' := spec.(width := Grown(spec.width, ch));
          f' := f[1..];
        }
      } else if ch == '*' {
        var w := args(k).n;
        k' := k + 1;
        if w < 0 {
          spec' := spec.(flags := spec.flags.(minus := true), width := -w);
        } else {
          spec' := spec.(width := w);
        }
        f' := f[1..];
        mode' := InDot;
      } else {
        mode' := InDot;
      }
    case InDot =>
      if ch == '.' {
        mode' := InPrecision;
        f' := f[1..];
      } else {
        mode' := InModifier;
      }
    case InPrecision =>
      if spec.precision == NO_PRECISION {
        spec' := spec.(precision := 0);
      }
      if IsDigit(ch) {
        if TooBig(spec'.precision, ch) {
          overflow := true;
        } else {
          spec' := spec'.(precision := Grown(spec'.precision, ch));
          f' := f[1..];
        }
      } else if ch == '*' {
        spec' := spec'.(precision := if args(k).n < 0 then NO_PRECISION else args(k).n);
        k' := k + 1;
        f' := f[1..];
        mode' := InModifier;
      } else {
        mode' := InModifier;
      }
    case InModifier =>
      var (m, rest) := ModifierOf(f);
      spec' := spec.(modifier := m);
      f' := rest;
      mode' := InConversion;
    case InConversion =>
      var used;
      used, overflow := OutConversion(sink, ch, spec, args(k), floats);
      k' := k + used;
      f' := f[1..];
      mode', spec' := Default, NO_SPEC;
  }

  /** The loop of the state machine. */
  method Scan(sink: Sink, format: string, args: Args, floats: Floats) returns (overflow: bool)
    requires sink.Valid() && sink.out == []
    modifies sink`len, sink`out, sink.str
    ensures sink.Valid() && Printed(sink.out, overflow) == Formatted(format, args, floats)
  {
    overflow := false;
    var mode: Mode, f, spec: Spec, k: nat := Default, format, NO_SPEC, 0;
    while f != []
      invariant sink.Valid() && !overflow
      invariant Run(mode, f, spec, args, k, floats, sink.out) == Formatted(format, args, floats)
      decreases |f|, Rank(mode)
    {
      mode, f, spec, k, overflow := Step(sink, mode, f, spec, args, k, floats);
      if overflow {
        return;
      }
    }
  }

  function ByteOf(n: int): char {
    Wrap(n, 0x100) as char
  }
}
