/**
 The fields of the formatter (code/lib/qvsnprintf.c, 697-829, 1118-1183): what one
 integer or string conversion prints, without any limit.
 */
module FormatFields {

  /** The flags of one conversion. */
  datatype Flags = Flags(minus: bool, plus: bool, space: bool, num: bool, zero: bool, quote: bool, up: bool,
      unsigned: bool)

  const NO_PRECISION: int := -1

  function Max(a: int, b: int): int {
    if a >= b then a else b
  }

  function Repeat(ch: char, n: int): (s: string)
    ensures |s| == Max(0, n) && forall i :: 0 <= i < |s| ==> s[i] == ch
  {
    seq(Max(0, n), i => ch)
  }

  // ---- digits ------------------------------------------------------------------------

  predicate IsBase(base: nat) {
    base == 8 || base == 10 || base == 16
  }

  function DigitChar(d: nat, caps: bool): char
    requires d < 16
  {
    (if caps then "0123456789ABCDEF" else "0123456789abcdef")[d]
  }

  /** The digits of a number, the first one first. */
  function Digits(value: nat, base: nat, caps: bool): (s: string)
    requires IsBase(base)
    ensures |s| > 0
  {
    if value < base then [DigitChar(value, caps)]
    else Digits(value / base, base, caps) + [DigitChar(value % base, caps)]
  }

  /** What a digit is worth. */
  function Worth(c: char): nat {
    if '0' <= c <= '9' then c as int - '0' as int
    else if 'a' <= c <= 'f' then c as int - 'a' as int + 10
    else if 'A' <= c <= 'F' then c as int - 'A' as int + 10
    else 0
  }

  /** Reads digits in a base. */
  function ReadIn(s: string, base: nat): nat {
    if s == [] then 0 else ReadIn(s[..|s| - 1], base) * base + Worth(s[|s| - 1])
  }

  lemma DigitIsWorth(d: nat, caps: bool)
    requires d < 16
    ensures Worth(DigitChar(d, caps)) == d
  {
    assert "0123456789ABCDEF" == ['0', '1', '2', '3', '4', '5', '6', '7', '8', '9', 'A', 'B', 'C', 'D', 'E', 'F'];
    assert "0123456789abcdef" == ['0', '1', '2', '3', '4', '5', '6', '7', '8', '9', 'a', 'b', 'c', 'd', 'e', 'f'];
  }

  /** The digits of a number, read back in its base, are the number. */
  lemma {:induction false} DigitsReadBack(value: nat, base: nat, caps: bool)
    requires IsBase(base)
    ensures ReadIn(Digits(value, base, caps), base) == value
    decreases value
  {
    hide DigitChar;
    hide Worth;
    DigitIsWorth(value % base, caps);
    if value < base {
      DigitIsWorth(value, caps);
      var s := Digits(value, base, caps);
      assert s[..|s| - 1] == [];
    } else {
      DigitsReadBack(value / base, base, caps);
      var s := Digits(value, base, caps);
      assert s[..|s| - 1] == Digits(value / base, base, caps);
    }
  }

  /** Leading zeros do not change what is read. */
  lemma {:induction false} ZerosReadAway(n: int, s: string, base: nat)
    ensures ReadIn(Repeat('0', n) + s, base) == ReadIn(s, base)
    decreases |s|
  {
    var all := Repeat('0', n) + s;
    if s == [] {
      assert all == Repeat('0', n);
      ZerosAreZero(Max(0, n), base);
    } else {
      assert all[..|all| - 1] == Repeat('0', n) + s[..|s| - 1];
      ZerosReadAway(n, s[..|s| - 1], base);
    }
  }

  lemma {:induction false} ZerosAreZero(n: nat, base: nat)
    ensures ReadIn(Repeat('0', n), base) == 0
  {
    if n > 0 {
      assert Repeat('0', n)[..n - 1] == Repeat('0', n - 1);
      ZerosAreZero(n - 1, base);
    }
  }

  /** Only zero starts with a zero. */
  lemma {:induction false} NoLeadingZero(value: nat, base: nat, caps: bool)
    requires IsBase(base) && value > 0
    ensures Worth(Digits(value, base, caps)[0]) > 0
    decreases value
  {
    hide DigitChar;
    hide Worth;
    if value < base {
      DigitIsWorth(value, caps);
    } else {
      NoLeadingZero(value / base, base, caps);
    }
  }

  // ---- integers ----------------------------------------------------------------------

  function SignOf(value: int, flags: Flags): string {
    if flags.unsigned then ""
    else if value < 0 then "-"
    else if flags.plus then "+"
    else if flags.space then " "
    else ""
  }

  function Magnitude(value: int, flags: Flags): nat {
    if flags.unsigned then value % 0x1_0000_0000_0000_0000 else if value < 0 then -value else value
  }

  function PrefixOf(u: nat, base: nat, flags: Flags): string {
    if flags.num && u != 0 && base == 16 then if flags.up then "0X" else "0x" else ""
  }

  /** The octal alternative form asks for one more digit. */
  function AskedDigits(u: nat, base: nat, precision: int, flags: Flags, digits: nat): int {
    if flags.num && u != 0 && base == 8 && precision <= digits then digits + 1 else precision
  }

  function Separators(digits: nat, flags: Flags): nat {
    if flags.quote then (digits - (if digits % 3 == 0 && digits > 0 then 1 else 0)) / 3 else 0
  }

  /** A comma ahead of every three digits that are left. */
  function Grouped(digits: string, flags: Flags): string {
    if digits == [] then []
    else
      [digits[0]] + (if flags.quote && |digits| > 1 && (|digits| - 1) % 3 == 0 then "," else "")
          + Grouped(digits[1..], flags)
  }

  /** Spaces and zeros of an integer field. */
  function SpacePad(digits: nat, width: int, asked: int, sign: string, prefix: string, flags: Flags): nat {
    Max(0, width - Separators(digits, flags) - Max(asked, digits) - |sign| - |prefix|)
  }

  function ZeroPad(digits: nat, asked: int, flags: Flags): nat {
    Max(0, asked - digits - Separators(digits, flags))
  }

  /** What one integer conversion prints. */
  function IntField(value: int, base: nat, width: int, precision: int, flags: Flags): string
    requires IsBase(base)
  {
    var u := Magnitude(value, flags);
    var digits := Digits(u, base, flags.up);
    var sign, prefix := SignOf(value, flags), PrefixOf(u, base, flags);
    var asked := AskedDigits(u, base, precision, flags, |digits|);
    var spaces, zeros := SpacePad(|digits|, width, asked, sign, prefix, flags), ZeroPad(|digits|, asked, flags);
    if flags.minus then sign + prefix + Repeat('0', zeros) + Grouped(digits, flags) + Repeat(' ', spaces)
    else if flags.zero && precision == NO_PRECISION
        then sign + prefix + Repeat('0', zeros + spaces) + Grouped(digits, flags)
    else Repeat(' ', spaces) + sign + prefix + Repeat('0', zeros) + Grouped(digits, flags)
  }

  lemma {:induction false} GroupedPlain(digits: string, flags: Flags)
    requires !flags.quote
    ensures Grouped(digits, flags) == digits
    decreases |digits|
  {
    if digits != [] {
      GroupedPlain(digits[1..], flags);
    }
  }

  /** An ungrouped field is as long as its width or as sign, prefix and the digits asked for. */
  lemma IntFieldLength(value: int, base: nat, width: int, precision: int, flags: Flags)
    requires IsBase(base) && !flags.quote
    ensures var u := Magnitude(value, flags);
            var digits := |Digits(u, base, flags.up)|;
            |IntField(value, base, width, precision, flags)| ==
            Max(width, |SignOf(value, flags)| + |PrefixOf(u, base, flags)|
                + Max(AskedDigits(u, base, precision, flags, digits), digits))
  {
    hide Digits;
    GroupedPlain(Digits(Magnitude(value, flags), base, flags.up), flags);
  }

  /** An ungrouped field is padding, sign, prefix, and zeros and digits that read back to the value. */
  lemma IntFieldReadsBack(value: int, base: nat, width: int, precision: int, flags: Flags)
    returns (before: nat, number: string, after: nat)
    requires IsBase(base) && !flags.quote
    ensures IntField(value, base, width, precision, flags) ==
            Repeat(' ', before) + SignOf(value, flags) + PrefixOf(Magnitude(value, flags), base, flags) + number
                + Repeat(' ', after)
    ensures ReadIn(number, base) == Magnitude(value, flags)
  {
    hide Digits;
    hide Repeat;
    hide Grouped;
    hide ReadIn;
    hide SpacePad;
    hide ZeroPad;
    hide AskedDigits;
    hide SignOf;
    hide PrefixOf;
    hide Magnitude;
    var u := Magnitude(value, flags);
    var digits := Digits(u, base, flags.up);
    var sign, prefix := SignOf(value, flags), PrefixOf(u, base, flags);
    var asked := AskedDigits(u, base, precision, flags, |digits|);
    var spaces, zeros := SpacePad(|digits|, width, asked, sign, prefix, flags), ZeroPad(|digits|, asked, flags);
    GroupedPlain(digits, flags);
    DigitsReadBack(u, base, flags.up);
    NoRepeat();
    if flags.minus {
      before, number, after := 0, Repeat('0', zeros) + digits, spaces;
      ZerosReadAway(zeros, digits, base);
    } else if flags.zero && precision == NO_PRECISION {
      before, number, after := 0, Repeat('0', zeros + spaces) + digits, 0;
      ZerosReadAway(zeros + spaces, digits, base);
    } else {
      before, number, after := spaces, Repeat('0', zeros) + digits, 0;
      ZerosReadAway(zeros, digits, base);
    }
  }

  lemma NoRepeat()
    ensures Repeat(' ', 0) == []
  {
  }

  // ---- strings -----------------------------------------------------------------------

  /** The characters of a string that its precision lets through. */
  function Shown(value: string, precision: int): string {
    if precision == NO_PRECISION || precision >= |value| then value else if precision < 0 then []
    else value[..precision]
  }

  /** What one string conversion prints. */
  function StrField(value: string, width: int, precision: int, flags: Flags): string {
    var shown := Shown(value, precision);
    if flags.minus then shown + Repeat(' ', width - |shown|) else Repeat(' ', width - |shown|) + shown
  }

  /** A string field is as long as its width or as what it shows, which it shows at one end. */
  lemma StrFieldLength(value: string, width: int, precision: int, flags: Flags)
    ensures |StrField(value, width, precision, flags)| == Max(width, |Shown(value, precision)|)
    ensures Shown(value, precision) <= value
    ensures |Shown(value, precision)| == |value| || |Shown(value, precision)| == Max(0, precision)
  {
  }

  function WithoutCommas(s: string): string {
    if s == [] then [] else (if s[0] == ',' then [] else [s[0]]) + WithoutCommas(s[1..])
  }

  /** Grouping only adds commas. */
  lemma {:induction false} GroupedKeepsDigits(digits: string, flags: Flags)
    requires forall i :: 0 <= i < |digits| ==> digits[i] != ','
    ensures WithoutCommas(Grouped(digits, flags)) == digits
    decreases |digits|
  {
    if digits != [] {
      GroupedKeepsDigits(digits[1..], flags);
      var rest := Grouped(digits[1..], flags);
      assert ([digits[0]] + rest)[1..] == rest;
      assert ([digits[0]] + "," + rest)[1..] == "," + rest && ("," + rest)[1..] == rest;
    }
  }
}
