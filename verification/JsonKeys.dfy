/**
 Object keys that are spelled like an array index (code/gsc_json.cpp, 148-170): strtol
 reads a number, and the key is an index when the number prints back as the key.
 */
module JsonKeys {
  const MIN_INDEX: int := -0x7E0002
  const MAX_INDEX: int := 0x7FFFFF
  const LONG_MIN: int := -0x8000_0000
  const LONG_MAX: int := 0x7FFF_FFFF
  const MAX_STRING: nat := 65000

  /** A string a script can hold. */
  predicate StrOk(s: string) {
    |s| < MAX_STRING && '\0' !in s
  }

  // ---- printing --------------------------------------------------------------------

  function DigitChar(d: nat): (c: char)
    requires d < 10
    ensures IsDigit(c) && ValueOf(c) == d && c != '\0'
  {
    ('0' as int + d) as char
  }

  predicate IsDigit(c: char) {
    '0' <= c <= '9'
  }

  function ValueOf(c: char): nat
    requires IsDigit(c)
  {
    c as int - '0' as int
  }

  function Digits(n: nat): (s: string)
    ensures |s| > 0
    ensures forall i :: 0 <= i < |s| ==> IsDigit(s[i])
  {
    if n < 10 then [DigitChar(n)] else Digits(n / 10) + [DigitChar(n % 10)]
  }

  /** What "%ld" and "%d" print. */
  function Decimal(n: int): string {
    if n < 0 then "-" + Digits(-n) else Digits(n)
  }

  // ---- reading ---------------------------------------------------------------------

  predicate IsSpace(c: char) {
    c == ' ' || '\t' <= c <= '\r'
  }

  function SkipSpaces(s: string): string {
    if s != [] && IsSpace(s[0]) then SkipSpaces(s[1..]) else s
  }

  /** The number the leading digits stand for, after `acc`. */
  function ReadDigits(s: string, acc: nat): nat
    decreases |s|
  {
    if s == [] || !IsDigit(s[0]) then acc else ReadDigits(s[1..], 10 * acc + ValueOf(s[0]))
  }

  function Clamp(n: int): int {
    if n < LONG_MIN then LONG_MIN else if n > LONG_MAX then LONG_MAX else n
  }

  /** strtol in base ten with a 32-bit long. */
  function StrToL(s: string): int {
    var t := SkipSpaces(s);
    if t == [] then 0
    else if t[0] == '-' then Clamp(0 - ReadDigits(t[1..], 0))
    else if t[0] == '+' then Clamp(ReadDigits(t[1..], 0))
    else Clamp(ReadDigits(t, 0))
  }

  datatype Spelling = PlainKey | IndexKey(index: int)

  /** The index a key stands for, if it stands for one. */
  function KeyIndex(s: string): Spelling {
    var v := StrToL(s);
    if v < MIN_INDEX || v > MAX_INDEX || Decimal(v) != s then PlainKey else IndexKey(v)
  }

  // ---- a key is an index exactly when it is printed like one --------------------------

  lemma {:induction false} ReadAppended(s: string, c: char, acc: nat)
    requires IsDigit(c) && forall i :: 0 <= i < |s| ==> IsDigit(s[i])
    ensures ReadDigits(s + [c], acc) == 10 * ReadDigits(s, acc) + ValueOf(c)
    decreases |s|
  {
    if s == [] {
      assert s + [c] == [c];
      assert ReadDigits([c][1..], 10 * acc + ValueOf(c)) == 10 * acc + ValueOf(c);
    } else {
      assert (s + [c])[1..] == s[1..] + [c];
      ReadAppended(s[1..], c, 10 * acc + ValueOf(s[0]));
    }
  }

  lemma {:induction false} DigitsReadBack(n: nat)
    ensures ReadDigits(Digits(n), 0) == n
  {
    if n < 10 {
      assert Digits(n)[1..] == [];
    } else {
      DigitsReadBack(n / 10);
      ReadAppended(Digits(n / 10), DigitChar(n % 10), 0);
    }
  }

  lemma DecimalReadsBack(n: int)
    requires LONG_MIN <= n <= LONG_MAX
    ensures StrToL(Decimal(n)) == n
  {
    if n < 0 {
      DigitsReadBack(-n);
      assert Decimal(n)[1..] == Digits(-n);
    } else {
      DigitsReadBack(n);
      assert IsDigit(Decimal(n)[0]);
    }
  }

  lemma KeyIndexExactly(s: string, i: int)
    ensures KeyIndex(s) == IndexKey(i) <==> MIN_INDEX <= i <= MAX_INDEX && s == Decimal(i)
  {
    if MIN_INDEX <= i <= MAX_INDEX {
      DecimalReadsBack(i);
    }
  }

  lemma {:induction false} DigitsAreShort(n: nat, k: nat)
    requires n < Power10(k) && k > 0
    ensures |Digits(n)| <= k
    decreases k
  {
    if n >= 10 {
      DigitsAreShort(n / 10, k - 1);
    }
  }

  function Power10(k: nat): nat {
    if k == 0 then 1 else 10 * Power10(k - 1)
  }

  /** A printed index is a string a script can hold. */
  lemma IndexKeyIsOk(i: int)
    requires MIN_INDEX <= i <= MAX_INDEX
    ensures StrOk(Decimal(i))
  {
    assert Power10(7) == 10000000;
    DigitsAreShort(if i < 0 then -i else i, 7);
  }
}
