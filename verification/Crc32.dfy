/** utils/crc.go: the table-driven CRC-32. Go's int64 is a bv64 here (two's complement, with the
    sign-propagating right shift written out); bytes are bv8. The reference is the bit-serial
    register of section 8 of RFC 1952, which consumes the message one bit at a time. */
module Crc32 {
  import opened BitFold
  import opened CrcTable

  const CRC_SEED: bv64 := 0xFFFF_FFFF

  /** Go's `x >> 8` on an int64. */
  function ShiftRight8(x: bv64): bv64 {
    if x & 0x8000_0000_0000_0000 == 0 then x >> 8 else (x >> 8) | 0xFF00_0000_0000_0000
  }

  // ---------------------------------------------------------------- the bit-serial reference

  const POLYNOMIAL: bv32 := 0xEDB8_8320
  const ALL_ONES: bv32 := 0xFFFF_FFFF

  predicate Odd(c: bv32) {
    c & 1 == 1
  }

  function Half(c: bv32): bv32 {
    c >> 1
  }

  predicate Feedback(c: bv32, bit: bool) {
    Odd(c) != bit
  }

  /** One clock of the shift register. */
  function BitStep(c: bv32, bit: bool): bv32 {
    if Feedback(c, bit) then Half(c) ^ POLYNOMIAL else Half(c)
  }

  function Xor(c: bv32, d: bv32): bv32 {
    c ^ d
  }

  function Feed(c: bv32, bits: seq<bool>): bv32 {
    Fold(BitStep, c, bits)
  }

  /** The `n` low bits of a word, least significant first. */
  function LowBits(x: bv32, n: nat): (bits: seq<bool>)
    ensures |bits| == n
  {
    Unfold(Odd, Half, x, n)
  }

  function ByteBits(b: bv8): (bits: seq<bool>)
    ensures |bits| == 8
  {
    LowBits(b as bv32, 8)
  }

  function MessageBits(data: seq<bv8>): (bits: seq<bool>)
    ensures |bits| == 8 * |data|
  {
    BlocksLength(ByteBits, data, 8);
    Blocks(ByteBits, data)
  }

  /** CRC-32 of a byte string, bit by bit, with both inversions. */
  function Crc(data: seq<bv8>): bv32 {
    Invert(Feed(ALL_ONES, MessageBits(data)))
  }

  function Invert(c: bv32): bv32 {
    c ^ ALL_ONES
  }

  /** `n` clocks with no message bits coming in. */
  function Steps(c: bv32, n: nat): bv32
    decreases n
  {
    if n == 0 then c else Steps(BitStep(c, false), n - 1)
  }

  // ---------------------------------------------------------------- linearity and injectivity

  lemma FeedbackXor(c: bv32, d: bv32, u: bool, v: bool)
    ensures Feedback(c ^ d, u != v) == (Feedback(c, u) != Feedback(d, v))
  {}

  lemma HalfXor(c: bv32, d: bv32)
    ensures Half(Xor(c, d)) == Xor(Half(c), Half(d))
  {}

  lemma PolynomialCancels(x: bv32, y: bv32)
    ensures (x ^ POLYNOMIAL) ^ (y ^ POLYNOMIAL) == x ^ y
  {}

  lemma PolynomialMoves(x: bv32, y: bv32)
    ensures (x ^ POLYNOMIAL) ^ y == (x ^ y) ^ POLYNOMIAL && x ^ (y ^ POLYNOMIAL) == (x ^ y) ^ POLYNOMIAL
  {}

  // Four cases, so that each is one exclusive-or identity for the solver.
  lemma StepXorBoth(c: bv32, d: bv32, u: bool, v: bool)
    requires Feedback(c, u) && Feedback(d, v)
    ensures BitStep(c ^ d, u != v) == BitStep(c, u) ^ BitStep(d, v)
  {
    FeedbackXor(c, d, u, v);
    HalfXor(c, d);
    PolynomialCancels(Half(c), Half(d));
  }

  lemma StepXorLeft(c: bv32, d: bv32, u: bool, v: bool)
    requires Feedback(c, u) && !Feedback(d, v)
    ensures BitStep(c ^ d, u != v) == BitStep(c, u) ^ BitStep(d, v)
  {
    FeedbackXor(c, d, u, v);
    HalfXor(c, d);
    PolynomialMoves(Half(c), Half(d));
  }

  lemma StepXorRight(c: bv32, d: bv32, u: bool, v: bool)
    requires !Feedback(c, u) && Feedback(d, v)
    ensures BitStep(c ^ d, u != v) == BitStep(c, u) ^ BitStep(d, v)
  {
    FeedbackXor(c, d, u, v);
    HalfXor(c, d);
    PolynomialMoves(Half(c), Half(d));
  }

  lemma StepXorNeither(c: bv32, d: bv32, u: bool, v: bool)
    requires !Feedback(c, u) && !Feedback(d, v)
    ensures BitStep(c ^ d, u != v) == BitStep(c, u) ^ BitStep(d, v)
  {
    FeedbackXor(c, d, u, v);
    HalfXor(c, d);
  }

  lemma StepIsLinear()
    ensures Linear(BitStep, Xor)
  {
    forall c: bv32, d: bv32, u: bool, v: bool
      ensures BitStep(c ^ d, u != v) == BitStep(c, u) ^ BitStep(d, v)
    {
      if Feedback(c, u) {
        if Feedback(d, v) { StepXorBoth(c, d, u, v); } else { StepXorLeft(c, d, u, v); }
      } else {
        if Feedback(d, v) { StepXorRight(c, d, u, v); } else { StepXorNeither(c, d, u, v); }
      }
    }
  }

  lemma StepIsInjective()
    ensures Injective(BitStep)
  {
    forall c: bv32, d: bv32, u: bool | BitStep(c, u) == BitStep(d, u)
      ensures c == d
    {
      StepUndone(c, d, u);
    }
  }

  lemma StepUndone(c: bv32, d: bv32, u: bool)
    requires BitStep(c, u) == BitStep(d, u)
    ensures c == d
  {}

  /** When the register already holds the incoming bits, no feedback fires: they shift out. */
  lemma {:induction false} BitsShiftOut(x: bv32, n: nat)
    ensures Feed(x, LowBits(x, n)) == Drop(Half, x, n)
    decreases n
  {
    if n == 0 {
    } else {
      BitsShiftOut(Half(x), n - 1);
      assert LowBits(x, n)[1..] == LowBits(Half(x), n - 1);
      assert BitStep(x, Odd(x)) == Half(x);
    }
  }

  lemma {:induction false} StepsAreZeroBits(c: bv32, n: nat)
    ensures Steps(c, n) == Feed(c, Zeros(n))
    decreases n
  {
    if n == 0 {
    } else {
      assert Zeros(n)[1..] == Zeros(n - 1);
      StepsAreZeroBits(BitStep(c, false), n - 1);
    }
  }

  lemma ShiftRightByte(x: bv32)
    ensures Drop(Half, x, 8) == x >> 8
  {
    var y := Half(Half(Half(Half(x))));
    assert Drop(Half, x, 8) == Drop(Half, Half(Half(x)), 6) == Drop(Half, y, 4);
    ShiftRightNibble(y);
    FourHalves(x);
  }

  lemma ShiftRightNibble(x: bv32)
    ensures Drop(Half, x, 4) == x >> 4
  {
    assert Drop(Half, x, 4) == Drop(Half, Half(Half(x)), 2);
  }

  lemma FourHalves(x: bv32)
    ensures Half(Half(Half(Half(x)))) >> 4 == x >> 8
  {}

  lemma MaskedBit(x: bv32, mask: bv32)
    requires x & mask == 0 && Odd(mask)
    ensures Half(x) & Half(mask) == 0 && !Odd(x)
  {}

  lemma {:induction false} MaskedBits(x: bv32, mask: bv32, n: nat)
    requires x & mask == 0 && AllOnes(Odd, Half, mask, n)
    ensures LowBits(x, n) == Zeros(n)
    decreases n
  {
    if n == 0 {
    } else {
      MaskedBit(x, mask);
      MaskedBits(Half(x), Half(mask), n - 1);
      assert Zeros(n) == [false] + Zeros(n - 1);
    }
  }

  // ---------------------------------------------------------------- one byte through the table

  /** A register splits into its part above the low byte, the table index, and the byte. */
  lemma SplitRegister(c: bv32, b: bv8)
    ensures c == Xor(Xor(c & !0xFF, TableIndex(c, b)), b as bv32)
  {}

  function TableIndex(c: bv32, b: bv8): bv32 {
    (c ^ (b as bv32)) & 0xFF
  }

  lemma FeedXor(c: bv32, d: bv32, u: seq<bool>, v: seq<bool>)
    requires |u| == |v|
    ensures Feed(Xor(c, d), XorBits(u, v)) == Xor(Feed(c, u), Feed(d, v))
  {
    StepIsLinear();
    FoldLinear(BitStep, Xor, c, d, u, v);
  }

  lemma FeedParts(c: bv32, high: bv32, low: bv32, word: bv32, bits: seq<bool>)
    requires |bits| == 8 && c == Xor(Xor(high, low), word)
    ensures Feed(c, bits) == Xor(Xor(Feed(high, Zeros(8)), Feed(low, Zeros(8))), Feed(word, bits))
  {
    StepIsLinear();
    FoldThree(BitStep, Xor, c, high, low, word, bits);
  }

  lemma LowByteCleared(c: bv32)
    ensures (c & !0xFF) & 0xFF == 0 && (c & !0xFF) >> 8 == c >> 8
  {}

  lemma HighPart(c: bv32)
    ensures Feed(c & !0xFF, Zeros(8)) == c >> 8
  {
    LowByteCleared(c);
    MaskedBits(c & !0xFF, 0xFF, 8);
    BitsShiftOut(c & !0xFF, 8);
    ShiftRightByte(c & !0xFF);
  }

  lemma LowPart(b: bv8)
    ensures Feed(b as bv32, ByteBits(b)) == 0
  {
    BitsShiftOut(b as bv32, 8);
    ShiftRightByte(b as bv32);
  }

  lemma Recombine(high: bv32, low: bv32, out: bv32)
    requires out == 0
    ensures Xor(Xor(high, low), out) == Xor(low, high)
  {}

  lemma ByteStepParts(c: bv32, high: bv32, low: bv32, word: bv32, bits: seq<bool>, shifted: bv32)
    requires |bits| == 8 && c == Xor(Xor(high, low), word)
    requires Feed(high, Zeros(8)) == shifted && Feed(word, bits) == 0
    ensures Feed(c, bits) == Xor(Steps(low, 8), shifted)
  {
    FeedParts(c, high, low, word, bits);
    StepsAreZeroBits(low, 8);
    Recombine(shifted, Steps(low, 8), Feed(word, bits));
  }

  /** Eight clocks of the register on a byte are one look-up at the low byte of `c ^ b`. */
  lemma ByteStep(c: bv32, b: bv8)
    ensures Feed(c, ByteBits(b)) == Xor(Steps(TableIndex(c, b), 8), c >> 8)
  {
    SplitRegister(c, b);
    HighPart(c);
    LowPart(b);
    ByteStepParts(c, c & !0xFF, TableIndex(c, b), b as bv32, ByteBits(b), c >> 8);
  }

  // ---------------------------------------------------------------- the table

  /** What a table entry should hold: eight clocks of its own index. */
  function Tabulated(i: bv8): bv64 {
    Widen(Steps(WidenByte(i), 8))
  }

  function Widen(c: bv32): bv64 {
    c as bv64
  }

  function WidenByte(b: bv8): bv32 {
    b as bv32
  }

  function XorWide(x: bv64, y: bv64): bv64 {
    x ^ y
  }

  lemma StepsXor(c: bv32, d: bv32)
    ensures Steps(Xor(c, d), 8) == Xor(Steps(c, 8), Steps(d, 8))
  {
    FeedXor(c, d, Zeros(8), Zeros(8));
    assert XorBits(Zeros(8), Zeros(8)) == Zeros(8);
    StepsAreZeroBits(c, 8);
    StepsAreZeroBits(d, 8);
    StepsAreZeroBits(Xor(c, d), 8);
  }

  lemma WidenXor(c: bv32, d: bv32)
    ensures Widen(Xor(c, d)) == XorWide(Widen(c), Widen(d))
  {}

  lemma WidenIndex(c: bv8, d: bv8)
    ensures WidenByte(c ^ d) == Xor(WidenByte(c), WidenByte(d))
  {}

  /** The table is linear in its index. */
  lemma XorEntry(high: bv8, low: bv8)
    ensures Tabulated(high ^ low) == XorWide(Tabulated(high), Tabulated(low))
  {
    WidenIndex(high, low);
    StepsXor(WidenByte(high), WidenByte(low));
    WidenXor(Steps(WidenByte(high), 8), Steps(WidenByte(low), 8));
  }

  /** A row starts right, and differs from its start as row 0 differs from 0. */
  predicate Row(row: seq<bv64>, high: bv8) {
    |row| == 16 && row[0] == Tabulated(high) && forall k :: 0 <= k < 16 ==> row[k] == XorWide(row[0], ROW_0[k])
  }

  lemma Row0(k: bv8)
    requires k < 16
    ensures ROW_0[k as int] == Tabulated(k)
  {
    if k < 8 { Row0Low(k); } else { Row0High(k); }
  }

  lemma Row0Low(k: bv8)
    requires k < 8
    ensures ROW_0[k as int] == Tabulated(k)
  {
    assert ROW_0[0] == Tabulated(0) && ROW_0[1] == Tabulated(1) && ROW_0[2] == Tabulated(2) && ROW_0[3] == Tabulated(3);
    assert ROW_0[4] == Tabulated(4) && ROW_0[5] == Tabulated(5) && ROW_0[6] == Tabulated(6) && ROW_0[7] == Tabulated(7);
    assert k == 0 || k == 1 || k == 2 || k == 3 || k == 4 || k == 5 || k == 6 || k == 7;
  }

  lemma Row0High(k: bv8)
    requires 8 <= k < 16
    ensures ROW_0[k as int] == Tabulated(k)
  {
    assert ROW_0[8] == Tabulated(8);
    Row0Low(k ^ 8);
    XorEntry(8, k ^ 8);
    assert ROW_0[k as int] == XorWide(ROW_0[8], ROW_0[(k ^ 8) as int]);
  }

  lemma RowIsRight(row: seq<bv64>, high: bv8, k: bv8)
    requires Row(row, high) && k < 16
    ensures row[k as int] == Tabulated(high ^ k)
  {
    Row0(k);
    XorEntry(high, k);
  }

  lemma Row1() ensures Row(ROW_1, 0x10) {}
  lemma Row2() ensures Row(ROW_2, 0x20) {}
  lemma Row3() ensures Row(ROW_3, 0x30) {}
  lemma Row4() ensures Row(ROW_4, 0x40) {}
  lemma Row5() ensures Row(ROW_5, 0x50) {}
  lemma Row6() ensures Row(ROW_6, 0x60) {}
  lemma Row7() ensures Row(ROW_7, 0x70) {}
  lemma Row8() ensures Row(ROW_8, 0x80) {}
  lemma Row9() ensures Row(ROW_9, 0x90) {}
  lemma RowA() ensures Row(ROW_A, 0xA0) {}
  lemma RowB() ensures Row(ROW_B, 0xB0) {}
  lemma RowC() ensures Row(ROW_C, 0xC0) {}
  lemma RowD() ensures Row(ROW_D, 0xD0) {}
  lemma RowE() ensures Row(ROW_E, 0xE0) {}
  lemma RowF() ensures Row(ROW_F, 0xF0) {}

  lemma RowAt(n: bv8)
    requires 0 < n < 16
    ensures Row(TABLE_ROWS[n as int], n << 4)
  {
    if n == 1 { Row1(); }
    else if n == 0x2 { Row2(); }
    else if n == 0x3 { Row3(); }
    else if n == 0x4 { Row4(); }
    else if n == 0x5 { Row5(); }
    else if n == 0x6 { Row6(); }
    else if n == 0x7 { Row7(); }
    else if n == 0x8 { Row8(); }
    else if n == 0x9 { Row9(); }
    else if n == 0xA { RowA(); }
    else if n == 0xB { RowB(); }
    else if n == 0xC { RowC(); }
    else if n == 0xD { RowD(); }
    else if n == 0xE { RowE(); }
    else if n == 0xF { RowF(); }
  }

  lemma {:induction false} FlattenIndex(rows: seq<seq<bv64>>, r: nat, k: nat)
    requires r < |rows| && k < 16 && forall i :: 0 <= i < |rows| ==> |rows[i]| == 16
    ensures 16 * r + k < |Flatten(rows)| && Flatten(rows)[16 * r + k] == rows[r][k]
  {
    if r == 0 {
    } else {
      FlattenIndex(rows[1..], r - 1, k);
    }
  }

  lemma IndexNibbles(i: bv8)
    ensures i as int == 16 * ((i >> 4) as int) + ((i & 0xF) as int) && i == ((i >> 4) << 4) ^ (i & 0xF)
  {}

  /** Every one of the 256 entries is eight clocks of its index. */
  lemma TableIsRight(i: bv8)
    ensures i as int < |CRC_TABLE| && CRC_TABLE[i as int] == Tabulated(i)
  {
    IndexNibbles(i);
    var n, k := i >> 4, i & 0xF;
    FlattenIndex(TABLE_ROWS, n as int, k as int);
    if n == 0 {
      Row0(k);
    } else {
      RowAt(n);
      RowIsRight(TABLE_ROWS[n as int], n << 4, k);
    }
  }

  // ---------------------------------------------------------------- the loop

  function Seeded(crc: bv64): bv64 {
    crc ^ CRC_SEED
  }

  function TableSlot(c: bv64, b: bv8): (i: nat)
    ensures i < |CRC_TABLE|
  {
    LowByteIsSmall(c ^ (b as bv64));
    TableIsRight(0xFF);
    ((c ^ (b as bv64)) & 0xFF) as int
  }

  lemma LowByteIsSmall(x: bv64)
    ensures (x & 0xFF) as int < 256
  {}

  /** One turn of the loop, on any int64. */
  function LoopByte(crc: bv64, b: bv8): bv64 {
    var turned := Seeded(crc);
    Seeded(XorWide(CRC_TABLE[TableSlot(turned, b)], ShiftRight8(turned)))
  }

  /** The loop started from some earlier checksum. */
  function LoopFrom(crc: bv64, data: seq<bv8>): bv64
    decreases |data|
  {
    if data == [] then crc else LoopFrom(LoopByte(crc, data[0]), data[1..])
  }

  lemma SlotIsByte(c: bv32, b: bv8)
    ensures TableSlot(Widen(c), b) == (TableIndex(c, b) as bv8) as int
    ensures WidenByte(TableIndex(c, b) as bv8) == TableIndex(c, b)
  {}

  lemma ShiftIsLogical(c: bv32)
    ensures ShiftRight8(Widen(c)) == Widen(c >> 8)
  {}

  lemma SeedInverts(c: bv32)
    ensures Seeded(Widen(c)) == Widen(Invert(c))
  {}

  /** The middle line of the loop, on a state that is a 32-bit register, is eight clocks. */
  lemma LookUpIsEightClocks(c: bv32, b: bv8)
    ensures XorWide(CRC_TABLE[TableSlot(Widen(c), b)], ShiftRight8(Widen(c))) == Widen(Feed(c, ByteBits(b)))
  {
    SlotIsByte(c, b);
    TableIsRight(TableIndex(c, b) as bv8);
    ShiftIsLogical(c);
    ByteStep(c, b);
    WidenXor(Steps(TableIndex(c, b), 8), c >> 8);
  }

  lemma DoubleInversion(x: bv32)
    ensures Invert(Invert(x)) == x
  {}

  lemma OneMoreByte(a: seq<bv8>, x: bv8)
    ensures Crc(a + [x]) == Invert(Feed(Invert(Crc(a)), ByteBits(x)))
  {
    BlocksAppend(ByteBits, a, [x]);
    FoldAppend(BitStep, ALL_ONES, MessageBits(a), MessageBits([x]));
    DoubleInversion(Feed(ALL_ONES, MessageBits(a)));
    assert [x][1..] == [] && ByteBits(x) + [] == ByteBits(x);
    assert MessageBits([x]) == ByteBits(x);
  }

  lemma LoopByteIsOneMore(a: seq<bv8>, x: bv8)
    ensures LoopByte(Widen(Crc(a)), x) == Widen(Crc(a + [x]))
  {
    var register := Invert(Crc(a));
    SeedInverts(Crc(a));
    LookUpIsEightClocks(register, x);
    SeedInverts(Feed(register, ByteBits(x)));
    OneMoreByte(a, x);
  }

  /** The checksum of a prefix is all the loop needs to go on with the rest. */
  lemma {:induction false} Streaming(a: seq<bv8>, b: seq<bv8>)
    ensures LoopFrom(Widen(Crc(a)), b) == Widen(Crc(a + b))
    decreases |b|
  {
    if b == [] {
      assert a + b == a;
    } else {
      LoopByteIsOneMore(a, b[0]);
      Streaming(a + [b[0]], b[1..]);
      assert a + [b[0]] + b[1..] == a + b;
    }
  }

  method GenerateCRCCheckCode(data: seq<bv8>) returns (crc: bv64)
    ensures crc == LoopFrom(0, data) == Widen(Crc(data))
  {
    crc := 0;
    var i := 0;
    while i < |data|
      invariant 0 <= i <= |data|
      invariant LoopFrom(0, data) == LoopFrom(crc, data[i..])
    {
      ghost var before := crc;
      crc := Seeded(crc);
      crc := XorWide(CRC_TABLE[TableSlot(crc, data[i])], ShiftRight8(crc));
      crc := Seeded(crc);
      assert crc == LoopByte(before, data[i]) && data[i..][1..] == data[i + 1..];
      i := i + 1;
    }
    EmptyIsZero();
    Streaming([], data);
    assert [] + data == data;
  }

  lemma EmptyIsZero()
    ensures Widen(Crc([])) == 0
  {}

  lemma LastEntry()
    ensures 255 < |CRC_TABLE| && CRC_TABLE[255] == 0x2D02_EF8D
  {
    FlattenIndex(TABLE_ROWS, 15, 15);
  }

  lemma ZeroSlot()
    ensures TableSlot(Seeded(0), 0) == 255
  {}

  /** A zero byte counts: its checksum, 0xD202EF8D, is not that of the empty message, 0. Without the
      inversions both would be 0. */
  lemma ZeroByteCounts()
    ensures Crc([]) == 0 && LoopFrom(0, [0]) == Widen(Crc([0])) == 0xD202_EF8D
  {
    EmptyIsZero();
    LastEntry();
    ZeroSlot();
    assert LoopByte(0, 0) == 0xD202_EF8D;
    assert [0][1..] == [];
    Streaming([], [0]);
    assert [] + [0] == [0];
  }

  // ---------------------------------------------------------------- the affine law

  function XorByte(a: bv8, b: bv8): bv8 {
    a ^ b
  }

  function XorBytes(a: seq<bv8>, b: seq<bv8>): (r: seq<bv8>)
    requires |a| == |b|
    ensures |r| == |a|
  {
    seq(|a|, i requires 0 <= i < |a| => XorByte(a[i], b[i]))
  }

  lemma OddXor(c: bv32, d: bv32)
    ensures Odd(Xor(c, d)) == (Odd(c) != Odd(d))
  {}

  lemma HalfIsLinear()
    ensures Splits(Odd, Half, Xor)
  {
    forall x: bv32, y: bv32
      ensures Half(Xor(x, y)) == Xor(Half(x), Half(y))
    {
      HalfXor(x, y);
    }
    forall x: bv32, y: bv32
      ensures Odd(Xor(x, y)) == (Odd(x) != Odd(y))
    {
      OddXor(x, y);
    }
  }

  lemma LowBitsXor(c: bv32, d: bv32, n: nat)
    ensures LowBits(Xor(c, d), n) == XorBits(LowBits(c, n), LowBits(d, n))
  {
    HalfIsLinear();
    UnfoldLinear(Odd, Half, Xor, c, d, n);
  }

  lemma ByteBitsXor(a: bv8, b: bv8)
    ensures ByteBits(XorByte(a, b)) == XorBits(ByteBits(a), ByteBits(b))
  {
    WidenIndex(a, b);
    LowBitsXor(WidenByte(a), WidenByte(b), 8);
  }

  lemma {:induction false} MessageBitsXor(a: seq<bv8>, b: seq<bv8>)
    requires |a| == |b|
    ensures MessageBits(XorBytes(a, b)) == XorBits(MessageBits(a), MessageBits(b))
    decreases |a|
  {
    if a == [] {
    } else {
      ByteBitsXor(a[0], b[0]);
      MessageBitsXor(a[1..], b[1..]);
      assert XorBytes(a, b)[1..] == XorBytes(a[1..], b[1..]);
      XorBitsAppend(ByteBits(a[0]), MessageBits(a[1..]), ByteBits(b[0]), MessageBits(b[1..]));
    }
  }

  lemma OnesCancel(x: bv32, y: bv32, z: bv32)
    ensures Xor(Xor(ALL_ONES, ALL_ONES), ALL_ONES) == ALL_ONES
    ensures Invert(Xor(Xor(x, y), z)) == Xor(Xor(Invert(x), Invert(y)), Invert(z))
  {}

  /** The checksum is affine over exclusive or. */
  lemma Affine(a: seq<bv8>, b: seq<bv8>, c: seq<bv8>)
    requires |a| == |b| == |c|
    ensures Crc(XorBytes(XorBytes(a, b), c)) == Xor(Xor(Crc(a), Crc(b)), Crc(c))
  {
    var p, q, r := MessageBits(a), MessageBits(b), MessageBits(c);
    MessageBitsXor(a, b);
    MessageBitsXor(XorBytes(a, b), c);
    FeedXor(ALL_ONES, ALL_ONES, p, q);
    FeedXor(Xor(ALL_ONES, ALL_ONES), ALL_ONES, XorBits(p, q), r);
    OnesCancel(Feed(ALL_ONES, p), Feed(ALL_ONES, q), Feed(ALL_ONES, r));
  }

  // ---------------------------------------------------------------- error detection

  predicate AgreeOutside(c: bv32, d: bv32, mask: bv32) {
    (c ^ d) & !mask == 0
  }

  predicate Top(c: bv32) {
    c & 0x8000_0000 != 0
  }

  /** The polynomial has its top bit set, so the feedback can be read off the new register. */
  lemma TopIsFeedback(c: bv32, u: bool)
    ensures Top(BitStep(c, u)) == Feedback(c, u)
  {}

  lemma AgreeTop(x: bv32, y: bv32, mask: bv32)
    requires AgreeOutside(x, y, Half(mask))
    ensures Top(x) == Top(y)
  {}

  lemma AgreeHalves(c: bv32, d: bv32, mask: bv32)
    requires Odd(mask) && AgreeOutside(Half(c), Half(d), Half(mask))
    ensures AgreeOutside(c, d, mask)
  {}

  lemma AgreeShifted(c: bv32, d: bv32, u: bool, v: bool, mask: bv32)
    requires Feedback(c, u) == Feedback(d, v) && AgreeOutside(BitStep(c, u), BitStep(d, v), mask)
    ensures AgreeOutside(Half(c), Half(d), mask)
  {}

  lemma AgreeBefore(c: bv32, d: bv32, u: bool, v: bool, mask: bv32)
    requires Odd(mask) && AgreeOutside(BitStep(c, u), BitStep(d, v), Half(mask))
    ensures AgreeOutside(c, d, mask)
  {
    TopIsFeedback(c, u);
    TopIsFeedback(d, v);
    AgreeTop(BitStep(c, u), BitStep(d, v), mask);
    AgreeShifted(c, d, u, v, Half(mask));
    AgreeHalves(c, d, mask);
  }

  /** Above the bits still to be fed, two registers must agree already if they agree in the end. */
  lemma {:induction false} AgreeAbove(c: bv32, d: bv32, u: seq<bool>, v: seq<bool>, mask: bv32)
    requires |u| == |v| && AllOnes(Odd, Half, mask, |u|)
    requires Feed(c, u) == Feed(d, v)
    ensures AgreeOutside(c, d, mask)
    decreases |u|
  {
    if u == [] {
    } else {
      AgreeAbove(BitStep(c, u[0]), BitStep(d, v[0]), u[1..], v[1..], Half(mask));
      AgreeBefore(c, d, u[0], v[0], mask);
    }
  }

  lemma PolynomialTop(c: bv32, d: bv32, u: bool, v: bool)
    requires c == d && u != v
    ensures Top(BitStep(c, u)) != Top(BitStep(d, v))
  {
    TopIsFeedback(c, u);
    TopIsFeedback(d, v);
  }

  lemma LowNibbleOfOnes(mask: bv32)
    requires mask & 0xF == 0xF
    ensures AllOnes(Odd, Half, mask, 4) && Drop(Half, mask, 4) == Half(Half(Half(Half(mask))))
  {
    assert AllOnes(Odd, Half, Half(Half(mask)), 2);
    assert Drop(Half, mask, 4) == Drop(Half, Half(Half(mask)), 2);
  }

  /** A mask whose low byte is all ones, and so is what is above it. */
  lemma OneMoreByteOfOnes(mask: bv32, n: nat)
    requires mask & 0xFF == 0xFF && AllOnes(Odd, Half, mask >> 8, n)
    ensures AllOnes(Odd, Half, mask, 8 + n)
  {
    LowNibbleOfOnes(mask);
    LowNibbleOfOnes(Half(Half(Half(Half(mask)))));
    OnesAbove(Odd, Half, mask, 4, 4);
    ShiftRightByte(mask);
    OnesAbove(Odd, Half, mask, 8, n);
  }

  lemma MaskOf31()
    ensures AllOnes(Odd, Half, 0x7FFF_FFFF, 31)
  {
    assert AllOnes(Odd, Half, 0x7F, 7);
    OneMoreByteOfOnes(0x7FFF, 7);
    OneMoreByteOfOnes(0x7F_FFFF, 15);
    OneMoreByteOfOnes(0x7FFF_FFFF, 23);
  }

  lemma AgreeOnTop(x: bv32, y: bv32)
    requires AgreeOutside(x, y, 0x7FFF_FFFF)
    ensures Top(x) == Top(y)
  {}

  /** From one register, two different strings of at most 32 bits never lead to the same register. */
  lemma {:induction false} WindowSeparates(c: bv32, u: seq<bool>, v: seq<bool>)
    requires |u| == |v| <= 32 && u != v
    ensures Feed(c, u) != Feed(c, v)
    decreases |u|
  {
    if u[0] == v[0] {
      assert u == [u[0]] + u[1..] && v == [v[0]] + v[1..];
      WindowSeparates(BitStep(c, u[0]), u[1..], v[1..]);
    } else if Feed(c, u) == Feed(c, v) {
      MaskOf31();
      FewerOnes(Odd, Half, 0x7FFF_FFFF, |u| - 1, 31);
      AgreeAbove(BitStep(c, u[0]), BitStep(c, v[0]), u[1..], v[1..], 0x7FFF_FFFF);
      AgreeOnTop(BitStep(c, u[0]), BitStep(c, v[0]));
      PolynomialTop(c, c, u[0], v[0]);
      assert false;
    }
  }

  /** Two bit strings that differ only inside 32 consecutive positions. */
  ghost predicate Burst(u: seq<bool>, v: seq<bool>, start: nat, length: nat) {
    |u| == |v| && u != v && length <= 32
    && forall k :: 0 <= k < |u| && !(start <= k < start + length) ==> u[k] == v[k]
  }

  lemma FeedMiddle(c: bv32, u: seq<bool>, i: nat, e: nat)
    requires i <= e <= |u|
    ensures Feed(c, u) == Feed(Feed(Feed(c, u[..i]), u[i..e]), u[e..])
  {
    FoldAppend(BitStep, c, u[..i], u[i..e] + u[e..]);
    FoldAppend(BitStep, Feed(c, u[..i]), u[i..e], u[e..]);
    assert u == u[..i] + (u[i..e] + u[e..]);
  }

  lemma SameEndSeparates(c: bv32, d: bv32, bits: seq<bool>)
    requires c != d
    ensures Feed(c, bits) != Feed(d, bits)
  {
    if Feed(c, bits) == Feed(d, bits) {
      StepIsInjective();
      FoldInjective(BitStep, c, d, bits);
    }
  }

  lemma BurstSeparates(c: bv32, u: seq<bool>, v: seq<bool>, start: nat, length: nat)
    requires Burst(u, v, start, length)
    ensures Feed(c, u) != Feed(c, v)
  {
    var i := if start <= |u| then start else |u|;
    var e := if start + length <= |u| then start + length else |u|;
    assert u[..i] == v[..i] && u[e..] == v[e..];
    assert u[i..e] != v[i..e] by {
      assert u == u[..i] + (u[i..e] + u[e..]) && v == v[..i] + (v[i..e] + v[e..]);
    }
    var d := Feed(c, u[..i]);
    FeedMiddle(c, u, i, e);
    FeedMiddle(c, v, i, e);
    WindowSeparates(d, u[i..e], v[i..e]);
    SameEndSeparates(Feed(d, u[i..e]), Feed(d, v[i..e]), u[e..]);
  }

  lemma ByteBitsInjective(a: bv8, b: bv8)
    requires ByteBits(a) == ByteBits(b)
    ensures a == b
  {
    LowPart(a);
    LowPart(b);
    StepIsInjective();
    FoldInjective(BitStep, a as bv32, b as bv32, ByteBits(a));
  }

  lemma {:induction false} MessageBitsInjective(a: seq<bv8>, b: seq<bv8>)
    requires MessageBits(a) == MessageBits(b)
    ensures a == b
    decreases |a|
  {
    if a == [] {
    } else {
      assert MessageBits(a)[..8] == ByteBits(a[0]) && MessageBits(b)[..8] == ByteBits(b[0]);
      assert MessageBits(a)[8..] == MessageBits(a[1..]) && MessageBits(b)[8..] == MessageBits(b[1..]);
      ByteBitsInjective(a[0], b[0]);
      MessageBitsInjective(a[1..], b[1..]);
      assert a == [a[0]] + a[1..] && b == [b[0]] + b[1..];
    }
  }

  lemma ResultsDiffer(x: bv32, y: bv32)
    requires x != y
    ensures Widen(Invert(x)) != Widen(Invert(y))
  {}

  /** Any burst of at most 32 bits, at any bit position, changes the returned checksum. */
  lemma BurstDetected(a: seq<bv8>, b: seq<bv8>, start: nat, length: nat)
    requires a != b && |a| == |b| && length <= 32
    requires forall k :: 0 <= k < 8 * |a| && !(start <= k < start + length) ==> MessageBits(a)[k] == MessageBits(b)[k]
    ensures Widen(Crc(a)) != Widen(Crc(b))
  {
    if MessageBits(a) == MessageBits(b) {
      MessageBitsInjective(a, b);
    }
    BurstSeparates(ALL_ONES, MessageBits(a), MessageBits(b), start, length);
    ResultsDiffer(Feed(ALL_ONES, MessageBits(a)), Feed(ALL_ONES, MessageBits(b)));
  }

  lemma EveryByteHasEightBits()
    ensures forall b: bv8 :: |ByteBits(b)| == 8
  {}

  lemma BitAt(a: seq<bv8>, i: nat, j: nat)
    requires i < |a| && j < 8
    ensures MessageBits(a)[8 * i + j] == ByteBits(a[i])[j]
  {
    EveryByteHasEightBits();
    BlocksAt(ByteBits, a, 8, i, j);
  }

  lemma SameByteSameBits(a: seq<bv8>, b: seq<bv8>, i: nat, j: nat)
    requires |a| == |b| && i < |a| && j < 8 && a[i] == b[i]
    ensures MessageBits(a)[8 * i + j] == MessageBits(b)[8 * i + j]
  {
    BitAt(a, i, j);
    BitAt(b, i, j);
  }

  /** Two messages of one length that differ only inside 4 consecutive bytes never collide. */
  lemma FourByteWindowDetected(a: seq<bv8>, b: seq<bv8>, start: nat)
    requires a != b && |a| == |b|
    requires forall i :: 0 <= i < |a| && !(start <= i < start + 4) ==> a[i] == b[i]
    ensures Widen(Crc(a)) != Widen(Crc(b))
  {
    forall k | 0 <= k < 8 * |a| && !(8 * start <= k < 8 * start + 32)
      ensures MessageBits(a)[k] == MessageBits(b)[k]
    {
      SameByteSameBits(a, b, k / 8, k % 8);
    }
    BurstDetected(a, b, 8 * start, 32);
  }
}
