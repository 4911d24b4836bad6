/**
 The checksum of a saved graph (code/gsc_graph.cpp, 170-185): bit-serial CRC-32.
 It is the table-driven CRC of section 8 of RFC 1952, and it tells apart any two
 bodies that differ only inside four consecutive bytes.
 */
module Crc32 {

  type Bytes = seq<bv8>

  /** A 32-bit register. The lemmas about single operations look at the bits, the others do not. */
  datatype Word = Word(bits: bv32)

  const POLY: Word := Word(0xEDB88320)
  const ONES: Word := Word(0xFFFFFFFF)

  function Xor(x: Word, y: Word): Word {
    Word(x.bits ^ y.bits)
  }

  function Not(x: Word): Word {
    Word(!x.bits)
  }

  predicate Odd(x: Word) {
    x.bits & 1 == 1
  }

  function Half(x: Word): Word {
    Word(x.bits >> 1)
  }

  function LowByte(x: Word): Word {
    Word(x.bits & 0xFF)
  }

  function HighBytes(x: Word): Word {
    Word(x.bits & 0xFFFFFF00)
  }

  function Drop(x: Word): Word {
    Word(x.bits >> 8)
  }

  function Lift(b: bv8): Word {
    Word(b as bv32)
  }

  /** The word one byte further up. */
  function Raise(x: Word): Word {
    Word(x.bits << 8)
  }

  // ---- the register ------------------------------------------------------------

  /** One bit. */
  function Shift(c: Word): Word {
    if Odd(c) then Xor(Half(c), POLY) else Half(c)
  }

  /** k bits. */
  function Shifts(c: Word, k: nat): Word
    decreases k
  {
    if k == 0 then c else Shifts(Shift(c), k - 1)
  }

  /** One byte into the register. */
  function Feed(c: Word, b: bv8): Word {
    Shifts(Xor(c, Lift(b)), 8)
  }

  function FeedAll(c: Word, data: Bytes): Word
    decreases |data|
  {
    if data == [] then c else FeedAll(Feed(c, data[0]), data[1..])
  }

  function Crc(data: Bytes): Word {
    Not(FeedAll(ONES, data))
  }

  /** The program folds the polynomial in with a mask instead of a branch. */
  lemma Branchless(c: bv32)
    ensures Word((c >> 1) ^ (0xEDB88320 & (0 - (c & 1)))) == Shift(Word(c))
  {
    LastBit(c);
    if c & 1 == 1 {
      assert (0xEDB88320 as bv32) & (0 - 1) == POLY.bits;
    } else {
      assert (0xEDB88320 as bv32) & (0 - 0) == 0;
    }
  }

  lemma LastBit(c: bv32)
    ensures c & 1 == 0 || c & 1 == 1
  {
  }

  method GraphCrc32(data: Bytes) returns (r: bv32)
    ensures Word(r) == Crc(data)
  {
    hide Shifts;
    hide Feed;
    hide FeedAll;
    hide Not;
    hide Crc;
    var crc: bv32 := 0xFFFFFFFF;
    AllOfIt(data);
    for i := 0 to |data|
      invariant FeedAll(Word(crc), data[i..]) == FeedAll(ONES, data)
    {
      ghost var before := Word(crc);
      NextByte(before, data, i);
      crc := crc ^ (data[i] as bv32);
      FeedXors(before, data[i], crc);
      for k := 0 to 8
        invariant Shifts(Word(crc), 8 - k) == Feed(before, data[i])
      {
        OneBit(crc, 7 - k);
        crc := (crc >> 1) ^ (0xEDB88320 & (0 - (crc & 1)));
      }
      NoBits(Word(crc));
    }
    Complemented(crc, data);
    r := !crc;
  }

  lemma AllOfIt(data: Bytes)
    ensures FeedAll(Word(0xFFFFFFFF), data[0..]) == FeedAll(ONES, data)
  {
    assert data[0..] == data;
  }

  lemma NextByte(c: Word, data: Bytes, i: nat)
    requires i < |data|
    ensures FeedAll(c, data[i..]) == FeedAll(Feed(c, data[i]), data[i + 1..])
  {
    hide Feed;
    assert data[i..][1..] == data[i + 1..];
  }

  lemma OneBit(c: bv32, k: nat)
    ensures Shifts(Word(c), k + 1) == Shifts(Word((c >> 1) ^ (0xEDB88320 & (0 - (c & 1)))), k)
  {
    hide Shift;
    Branchless(c);
  }

  lemma NoBits(c: Word)
    ensures Shifts(c, 0) == c
  {
  }

  lemma Complemented(crc: bv32, data: Bytes)
    requires FeedAll(Word(crc), data[|data|..]) == FeedAll(ONES, data)
    ensures Word(!crc) == Crc(data)
  {
    hide Feed;
    assert data[|data|..] == [];
  }

  lemma FeedXors(c: Word, b: bv8, crc: bv32)
    requires crc == c.bits ^ (b as bv32)
    ensures Feed(c, b) == Shifts(Word(crc), 8)
  {
    hide Shifts;
    assert Word(crc) == Xor(c, Lift(b));
  }

  // ---- the table-driven form of RFC 1952 -----------------------------------------

  /** An entry of the table make_crc_table builds, k bits to go. */
  function TableEntry(n: Word, k: nat): Word
    decreases k
  {
    if k == 0 then n else TableEntry(if Odd(n) then Xor(POLY, Half(n)) else Half(n), k - 1)
  }

  function UpdateCrc(c: Word, data: Bytes): Word
    decreases |data|
  {
    if data == [] then c
    else UpdateCrc(Xor(TableEntry(LowByte(Xor(c, Lift(data[0]))), 8), Drop(c)), data[1..])
  }

  function TableCrc(data: Bytes): Word {
    Xor(UpdateCrc(ONES, data), ONES)
  }

  // ---- single operations, bit by bit -----------------------------------------------

  lemma XorSwaps(x: Word, y: Word)
    ensures Xor(x, y) == Xor(y, x)
  {
  }

  lemma XorGroups(x: Word, y: Word, z: Word)
    ensures Xor(Xor(x, y), z) == Xor(x, Xor(y, z))
  {
  }

  lemma XorCancels(x: Word, y: Word)
    ensures Xor(Xor(x, y), y) == x
  {
  }

  lemma HalfXor(x: Word, y: Word)
    ensures Half(Xor(x, y)) == Xor(Half(x), Half(y))
  {
  }

  lemma LastBitXor(x: bv32, y: bv32)
    ensures (x ^ y) & 1 == (x & 1) ^ (y & 1)
  {
  }

  lemma BitXor(a: bv32, b: bv32)
    requires (a == 0 || a == 1) && (b == 0 || b == 1)
    ensures a ^ b == 1 <==> a != b
  {
  }

  lemma OddXor(x: Word, y: Word)
    ensures Odd(Xor(x, y)) <==> Odd(x) != Odd(y)
  {
    LastBit(x.bits);
    LastBit(y.bits);
    LastBitXor(x.bits, y.bits);
    BitXor(x.bits & 1, y.bits & 1);
  }

  lemma ShiftInjective(x: Word, y: Word)
    requires Shift(x) == Shift(y)
    ensures x == y
  {
  }

  lemma NotIsXor(x: Word)
    ensures Not(x) == Xor(x, ONES)
  {
  }

  lemma SplitWord(x: Word)
    ensures x == Xor(LowByte(x), HighBytes(x))
    ensures LowByte(HighBytes(x)) == Word(0)
  {
  }

  lemma DropIgnoresByte(c: Word, b: bv8)
    ensures Drop(HighBytes(Xor(c, Lift(b)))) == Drop(c)
  {
  }

  // ---- the register is linear and loses nothing --------------------------------------

  lemma XorLaws(x: Word, y: Word, z: Word)
    ensures Xor(x, y) == Xor(y, x)
    ensures Xor(Xor(x, y), z) == Xor(x, Xor(y, z))
    ensures Xor(Xor(x, y), y) == x
  {
    hide Xor;
    XorSwaps(x, y);
    XorGroups(x, y, z);
    XorCancels(x, y);
  }

  lemma ShiftXor(x: Word, y: Word)
    ensures Shift(Xor(x, y)) == Xor(Shift(x), Shift(y))
  {
    hide Xor;
    hide Half;
    hide Odd;
    HalfXor(x, y);
    OddXor(x, y);
    var a, b := Half(x), Half(y);
    XorLaws(a, b, POLY);
    XorLaws(a, POLY, b);
    XorLaws(b, POLY, a);
    XorLaws(Xor(a, POLY), b, POLY);
    XorLaws(Xor(a, POLY), POLY, b);
    XorLaws(a, POLY, POLY);
    XorLaws(POLY, b, POLY);
    XorLaws(Xor(a, POLY), Xor(b, POLY), POLY);
  }

  lemma {:induction false} ShiftsXor(x: Word, y: Word, k: nat)
    ensures Shifts(Xor(x, y), k) == Xor(Shifts(x, k), Shifts(y, k))
    decreases k
  {
    hide Shift;
    hide Xor;
    if k > 0 {
      ShiftXor(x, y);
      ShiftsXor(Shift(x), Shift(y), k - 1);
    }
  }

  lemma {:induction false} ShiftsInjective(x: Word, y: Word, k: nat)
    requires Shifts(x, k) == Shifts(y, k)
    ensures x == y
    decreases k
  {
    hide Shift;
    if k > 0 {
      ShiftsInjective(Shift(x), Shift(y), k - 1);
      ShiftInjective(x, y);
    }
  }

  /** Eight zero bits leave the register as they are. */
  lemma ZeroByteShiftsOut(x: Word)
    requires LowByte(x) == Word(0)
    ensures Shifts(x, 8) == Drop(x)
  {
  }

  lemma FeedIsTableStep(c: Word, b: bv8)
    ensures Feed(c, b) == Xor(TableEntry(LowByte(Xor(c, Lift(b))), 8), Drop(c))
  {
    hide Shifts;
    hide TableEntry;
    hide Xor;
    hide LowByte;
    hide HighBytes;
    hide Drop;
    var y := Xor(c, Lift(b));
    SplitWord(y);
    ShiftsXor(LowByte(y), HighBytes(y), 8);
    ZeroByteShiftsOut(HighBytes(y));
    DropIgnoresByte(c, b);
    TableEntryIsShifts(LowByte(y), 8);
  }

  lemma {:induction false} TableEntryIsShifts(n: Word, k: nat)
    ensures TableEntry(n, k) == Shifts(n, k)
    decreases k
  {
    hide Xor;
    hide Half;
    hide Odd;
    if k > 0 {
      XorSwaps(POLY, Half(n));
      TableEntryIsShifts(Shift(n), k - 1);
    }
  }

  lemma {:induction false} RegistersAgree(c: Word, data: Bytes)
    ensures UpdateCrc(c, data) == FeedAll(c, data)
    decreases |data|
  {
    hide Feed;
    hide Xor;
    hide TableEntry;
    if data != [] {
      FeedIsTableStep(c, data[0]);
      RegistersAgree(Feed(c, data[0]), data[1..]);
    }
  }

  /** The program's checksum is the one section 8 of RFC 1952 computes from its table. */
  lemma CrcIsTableCrc(data: Bytes)
    ensures Crc(data) == TableCrc(data)
  {
    hide FeedAll;
    hide UpdateCrc;
    hide Not;
    hide Xor;
    RegistersAgree(ONES, data);
    NotIsXor(FeedAll(ONES, data));
  }

  // ---- bursts ------------------------------------------------------------------------

  lemma FeedInjective(x: Word, y: Word, b: bv8)
    requires Feed(x, b) == Feed(y, b)
    ensures x == y
  {
    hide Shifts;
    hide Xor;
    ShiftsInjective(Xor(x, Lift(b)), Xor(y, Lift(b)), 8);
    XorCancels(x, Lift(b));
    XorCancels(y, Lift(b));
  }

  lemma {:induction false} FeedAllInjective(x: Word, y: Word, data: Bytes)
    requires FeedAll(x, data) == FeedAll(y, data)
    ensures x == y
    decreases |data|
  {
    hide Feed;
    if data != [] {
      FeedAllInjective(Feed(x, data[0]), Feed(y, data[0]), data[1..]);
      FeedInjective(x, y, data[0]);
    }
  }

  lemma {:induction false} FeedAllSplits(c: Word, a: Bytes, b: Bytes)
    ensures FeedAll(c, a + b) == FeedAll(FeedAll(c, a), b)
    decreases |a|
  {
    hide Feed;
    if a == [] {
      assert a + b == b;
    } else {
      assert (a + b)[0] == a[0] && (a + b)[1..] == a[1..] + b;
      FeedAllSplits(Feed(c, a[0]), a[1..], b);
    }
  }

  /** The word has nothing outside its low n bytes. */
  predicate Fits(x: Word, n: nat) {
    if n == 0 then x.bits == 0
    else if n == 1 then x.bits <= 0xFF
    else if n == 2 then x.bits <= 0xFFFF
    else if n == 3 then x.bits <= 0xFFFFFF
    else true
  }

  lemma RaiseShiftsBack(x: Word)
    requires Fits(x, 3)
    ensures Shifts(Raise(x), 8) == x
  {
    hide Shifts;
    RaiseDrops(x.bits);
    ZeroByteShiftsOut(Raise(x));
  }

  lemma RaiseDrops(x: bv32)
    requires x <= 0xFFFFFF
    ensures (x << 8) & 0xFF == 0 && (x << 8) >> 8 == x
  {
  }

  lemma FitsLess(x: Word, n: nat)
    requires Fits(x, n) && n <= 3
    ensures Fits(x, 3)
  {
  }

  /** A byte below a raised word: one byte longer, and zero only when both are. */
  lemma ByteBelow(a: bv8, b: bv8, x: Word, d: Word, n: nat)
    requires n <= 3 && Fits(d, n)
    requires x == Xor(Xor(Lift(a), Lift(b)), Raise(d))
    ensures Fits(x, n + 1)
    ensures x == Word(0) ==> a == b && d == Word(0)
  {
  }

  /** The difference two fed bytes make, before the eight shifts. */
  lemma FeedDifference(x: Word, y: Word, a: bv8, b: bv8)
    ensures Xor(Feed(x, a), Feed(y, b)) == Shifts(Xor(Xor(x, Lift(a)), Xor(y, Lift(b))), 8)
  {
    hide Shifts;
    hide Xor;
    ShiftsXor(Xor(x, Lift(a)), Xor(y, Lift(b)), 8);
  }

  lemma Regroup(x: Word, y: Word, a: Word, b: Word, d: Word)
    requires Xor(Xor(x, a), Xor(y, b)) == d
    ensures Xor(x, y) == Xor(Xor(a, b), d)
  {
    hide Xor;
    var e, f := Xor(x, a), Xor(y, b);
    XorCancels(x, a);
    XorCancels(y, b);
    Interchange(e, a, f, b);
    XorSwaps(d, Xor(a, b));
  }

  lemma Interchange(p: Word, q: Word, r: Word, s: Word)
    ensures Xor(Xor(p, q), Xor(r, s)) == Xor(Xor(p, r), Xor(q, s))
  {
    hide Xor;
    XorGroups(p, q, Xor(r, s));
    XorGroups(q, r, s);
    XorSwaps(q, r);
    XorGroups(r, q, s);
    XorGroups(p, r, Xor(q, s));
  }

  /** Registers that meet after n <= 4 bytes differed in at most n bytes, and not at all only over equal bytes. */
  lemma {:induction false} WindowDifference(x: Word, y: Word, v: Bytes, w: Bytes)
    requires |v| == |w| <= 4
    requires FeedAll(x, v) == FeedAll(y, w)
    ensures Fits(Xor(x, y), |v|)
    ensures Xor(x, y) == Word(0) ==> v == w
    decreases |v|
  {
    hide Feed;
    hide Shifts;
    hide Xor;
    hide Fits;
    if v == [] {
      XorSelf(x);
    } else {
      var a, b := v[0], w[0];
      WindowDifference(Feed(x, a), Feed(y, b), v[1..], w[1..]);
      var d := Xor(Feed(x, a), Feed(y, b));
      var e := Xor(Xor(x, Lift(a)), Xor(y, Lift(b)));
      FeedDifference(x, y, a, b);
      FitsLess(d, |v| - 1);
      RaiseShiftsBack(d);
      ShiftsInjective(e, Raise(d), 8);
      Regroup(x, y, Lift(a), Lift(b), Raise(d));
      ByteBelow(a, b, Xor(x, y), d, |v| - 1);
      assert v == [a] + v[1..] && w == [b] + w[1..];
    }
  }

  lemma XorSelf(x: Word)
    ensures Xor(x, x) == Word(0) && Fits(Word(0), 0)
  {
  }

  /** Whatever surrounds it, a changed window of at most four bytes changes the checksum. */
  lemma BurstChangesCrc(front: Bytes, v: Bytes, w: Bytes, back: Bytes)
    requires |v| == |w| <= 4 && v != w
    ensures Crc(front + v + back) != Crc(front + w + back)
  {
    hide FeedAll;
    hide Xor;
    hide Fits;
    var s := FeedAll(ONES, front);
    var r, q := FeedAll(s, v), FeedAll(s, w);
    FeedAllSplits(ONES, front, v);
    FeedAllSplits(ONES, front + v, back);
    FeedAllSplits(ONES, front, w);
    FeedAllSplits(ONES, front + w, back);
    XorSelf(s);
    if r == q {
      WindowDifference(s, s, v, w);
      assert false;
    }
    if FeedAll(r, back) == FeedAll(q, back) {
      FeedAllInjective(r, q, back);
      assert false;
    }
    if Crc(front + v + back) == Crc(front + w + back) {
      NotInjective(FeedAll(r, back), FeedAll(q, back));
      assert false;
    }
  }

  lemma NotInjective(x: Word, y: Word)
    requires Not(x) == Not(y)
    ensures x == y
  {
  }
}
