/** 64-bit words as numbers: the value of a word is what its binary digits say, and shifts and ors of
    words are products and sums of values. */
module Word64 {
  import opened BitFold

  predicate Odd(x: bv64) {
    x & 1 == 1
  }

  function Half(x: bv64): bv64 {
    x >> 1
  }

  function Double(x: bv64): bv64 {
    x << 1
  }

  function Or(x: bv64, y: bv64): bv64 {
    x | y
  }

  predicate Disjoint(x: bv64, y: bv64) {
    x & y == 0
  }

  /** The number that the `n` low binary digits of a word stand for. */
  function Value(x: bv64, n: nat): int
    decreases n
  {
    if n == 0 then 0 else Bit(x) + 2 * Value(Half(x), n - 1)
  }

  function Bit(x: bv64): int {
    if Odd(x) then 1 else 0
  }

  function Pow2(n: nat): (p: nat)
    ensures 0 < p
    decreases n
  {
    if n == 0 then 1 else 2 * Pow2(n - 1)
  }

  // ---------------------------------------------------------------- or

  lemma HalfOr(x: bv64, y: bv64)
    ensures Half(Or(x, y)) == Or(Half(x), Half(y))
  {}

  lemma HalvesDisjoint(x: bv64, y: bv64)
    requires Disjoint(x, y)
    ensures Disjoint(Half(x), Half(y))
  {}

  lemma BitOr(x: bv64, y: bv64)
    requires Disjoint(x, y)
    ensures Bit(Or(x, y)) == Bit(x) + Bit(y)
  {}

  lemma {:induction false} OrAdds(x: bv64, y: bv64, n: nat)
    requires Disjoint(x, y)
    ensures Value(Or(x, y), n) == Value(x, n) + Value(y, n)
    decreases n
  {
    if n == 0 {
    } else {
      HalfOr(x, y);
      HalvesDisjoint(x, y);
      BitOr(x, y);
      OrAdds(Half(x), Half(y), n - 1);
    }
  }

  // ---------------------------------------------------------------- left shift

  const BELOW_TOP: bv64 := 0x7FFF_FFFF_FFFF_FFFF

  lemma MaskDigit(x: bv64, mask: bv64)
    requires Odd(mask)
    ensures Half(x & mask) == Half(x) & Half(mask) && Odd(x & mask) == Odd(x)
  {}

  /** Digits above the mask do not count. */
  lemma {:induction false} MaskKeepsValue(x: bv64, mask: bv64, n: nat)
    requires AllOnes(Odd, Half, mask, n)
    ensures Value(x & mask, n) == Value(x, n)
    decreases n
  {
    if n == 0 {
    } else {
      MaskDigit(x, mask);
      MaskKeepsValue(Half(x), Half(mask), n - 1);
    }
  }

  /** A mask whose low byte is all ones, and so is what is above it. */
  lemma OneMoreByteOfOnes(mask: bv64, n: nat)
    requires mask & 0xFF == 0xFF && AllOnes(Odd, Half, mask >> 8, n)
    ensures AllOnes(Odd, Half, mask, 8 + n)
  {
    LowByteOfOnes(mask);
    OnesAbove(Odd, Half, mask, 8, n);
  }

  lemma LowByteOfOnes(mask: bv64)
    requires mask & 0xFF == 0xFF
    ensures AllOnes(Odd, Half, mask, 8) && Drop(Half, mask, 8) == mask >> 8
  {
    var m := Half(Half(Half(Half(mask))));
    LowNibbleOfOnes(mask);
    LowNibbleOfOnes(m);
    OnesAbove(Odd, Half, mask, 4, 4);
    DropMore(Half, mask, 4, 4);
  }

  lemma LowNibbleOfOnes(mask: bv64)
    requires mask & 0xF == 0xF
    ensures AllOnes(Odd, Half, mask, 4) && Drop(Half, mask, 4) == Half(Half(Half(Half(mask))))
  {
    assert AllOnes(Odd, Half, Half(Half(mask)), 2);
    assert Drop(Half, mask, 4) == Drop(Half, Half(Half(mask)), 2);
  }

  lemma BelowTopIsAllOnes()
    ensures AllOnes(Odd, Half, BELOW_TOP, 63)
  {
    assert AllOnes(Odd, Half, 0x7F, 7);
    OneMoreByteOfOnes(0x7FFF, 7);
    OneMoreByteOfOnes(0x7F_FFFF, 15);
    OneMoreByteOfOnes(0x7FFF_FFFF, 23);
    OneMoreByteOfOnes(0x7F_FFFF_FFFF, 31);
    OneMoreByteOfOnes(0x7FFF_FFFF_FFFF, 39);
    OneMoreByteOfOnes(0x7F_FFFF_FFFF_FFFF, 47);
    OneMoreByteOfOnes(BELOW_TOP, 55);
  }

  lemma DoubleDigit(x: bv64)
    ensures !Odd(Double(x)) && Half(Double(x)) == x & BELOW_TOP
  {}

  lemma DoubleDoubles(x: bv64, n: nat)
    requires n <= 63
    ensures Value(Double(x), n + 1) == 2 * Value(x, n)
  {
    DoubleDigit(x);
    BelowTopIsAllOnes();
    FewerOnes(Odd, Half, BELOW_TOP, n, 63);
    MaskKeepsValue(x, BELOW_TOP, n);
  }

  lemma OneMoreDigit(digit: int, all: int, low: int, p: int, high: int)
    requires all == low + p * high
    ensures digit + 2 * all == (digit + 2 * low) + (2 * p) * high
  {}

  function Digit(v: nat): bv64 {
    if v % 2 == 0 then 0 else 1
  }

  lemma AddDigit(y: bv64, v: nat)
    ensures Disjoint(Double(y), Digit(v))
  {}

  lemma DigitIsZero(v: nat)
    ensures Half(Digit(v)) == 0 && (Odd(Digit(v)) <==> v % 2 == 1)
  {}

  lemma {:induction false} ZeroIsZero(n: nat)
    ensures Value(0, n) == 0
    decreases n
  {
    if n == 0 {
    } else {
      assert Half(0) == 0;
      ZeroIsZero(n - 1);
    }
  }

  lemma DigitValue(v: nat, n: nat)
    requires 0 < n
    ensures Value(Digit(v), n) == v % 2
  {
    DigitIsZero(v);
    ZeroIsZero(n - 1);
  }

  /** Every number of at most 64 digits is the value of a word. */
  lemma {:induction false} EveryNumberHasAWord(v: nat, n: nat) returns (x: bv64)
    requires v < Pow2(n) && n <= 64
    ensures Value(x, n) == v
    decreases n
  {
    if n == 0 {
      x := 0;
    } else {
      var y := EveryNumberHasAWord(v / 2, n - 1);
      x := Or(Double(y), Digit(v));
      AddDigit(y, v);
      OrAdds(Double(y), Digit(v), n);
      DoubleDoubles(y, n - 1);
      DigitValue(v, n);
    }
  }

  // ---------------------------------------------------------------- right shift

  /** The digits above the `k` lowest count `Pow2(k)` times what they count on their own. */
  lemma {:induction false} ValueSplits(x: bv64, k: nat, n: nat)
    ensures Value(x, k + n) == Value(x, k) + Pow2(k) * Value(Drop(Half, x, k), n)
    decreases k
  {
    if k == 0 {
    } else {
      ValueSplits(Half(x), k - 1, n);
      OneMoreDigit(Bit(x), Value(Half(x), k - 1 + n), Value(Half(x), k - 1), Pow2(k - 1),
                   Value(Drop(Half, x, k), n));
    }
  }

  lemma {:induction false} ValueIsBounded(x: bv64, n: nat)
    ensures 0 <= Value(x, n) < Pow2(n)
    decreases n
  {
    if n == 0 {
    } else {
      ValueIsBounded(Half(x), n - 1);
    }
  }

  /** A word whose digits above the `k` lowest are zero. */
  lemma ShortWord(x: bv64, k: nat, n: nat)
    requires Drop(Half, x, k) == 0
    ensures Value(x, k + n) == Value(x, k)
  {
    ValueSplits(x, k, n);
    ZeroIsZero(n);
  }

  // ---------------------------------------------------------------- four fields in one word

  /** The word that the id generator builds, highest field first. */
  function Fields(elapsed: bv64, datacenter: bv64, worker: bv64, sequence: bv64): bv64 {
    Or(Or(Or(elapsed << 22, datacenter << 17), worker << 12), sequence)
  }

  function Sixteenfold(x: bv64): bv64 {
    x << 4
  }

  lemma FourDoubles(x: bv64)
    ensures Sixteenfold(x) == Double(Double(Double(Double(x))))
  {}

  lemma SixteenfoldValue(x: bv64, n: nat)
    requires n + 4 <= 64
    ensures Value(Sixteenfold(x), n + 4) == 16 * Value(x, n)
  {
    FourDoubles(x);
    DoubleDoubles(x, n);
    DoubleDoubles(Double(x), n + 1);
    DoubleDoubles(Double(Double(x)), n + 2);
    DoubleDoubles(Double(Double(Double(x))), n + 3);
  }

  function Shift12(x: bv64): bv64 {
    Sixteenfold(Sixteenfold(Sixteenfold(x)))
  }

  lemma Shift12Value(x: bv64, n: nat)
    requires n + 12 <= 64
    ensures Value(Shift12(x), n + 12) == 0x1000 * Value(x, n)
  {
    SixteenfoldValue(x, n);
    SixteenfoldValue(Sixteenfold(x), n + 4);
    SixteenfoldValue(Sixteenfold(Sixteenfold(x)), n + 8);
  }

  function Shift5(x: bv64): bv64 {
    Double(Sixteenfold(x))
  }

  lemma Shift5Value(x: bv64, n: nat)
    requires n + 5 <= 64
    ensures Value(Shift5(x), n + 5) == 32 * Value(x, n)
  {
    SixteenfoldValue(x, n);
    DoubleDoubles(Sixteenfold(x), n + 4);
  }

  lemma Shift12IsShift(x: bv64)
    ensures Shift12(x) == x << 12
  {}

  lemma Shift17IsShift(x: bv64)
    ensures Shift5(x << 12) == x << 17
  {}

  lemma Shift22IsShift(x: bv64)
    ensures Shift5(x << 17) == x << 22
  {}

  lemma FieldsDisjoint(elapsed: bv64, datacenter: bv64, worker: bv64, sequence: bv64)
    requires datacenter < 32 && worker < 32 && sequence < 4096
    ensures Disjoint(elapsed << 22, datacenter << 17)
    ensures Disjoint(Or(elapsed << 22, datacenter << 17), worker << 12)
    ensures Disjoint(Or(Or(elapsed << 22, datacenter << 17), worker << 12), sequence)
  {}

  /** A field of five bits. */
  lemma SmallField(x: bv64, n: nat)
    requires x < 32 && n >= 5
    ensures Value(x, n) == Value(x, 5)
  {
    assert Drop(Half, x, 5) == Drop(Half, Half(Half(x)), 3) == Drop(Half, Half(Half(Half(Half(x)))), 1);
    assert Half(Half(Half(Half(Half(x))))) == 0;
    ShortWord(x, 5, n - 5);
  }

  lemma {:induction false} PowersAdd(m: nat, n: nat)
    ensures Pow2(m + n) == Pow2(m) * Pow2(n)
    decreases m
  {
    if m == 0 {
    } else {
      PowersAdd(m - 1, n);
    }
  }

  lemma Shift12Multiplies(x: bv64, n: nat)
    requires n + 12 <= 64
    ensures Value(x << 12, n + 12) == 0x1000 * Value(x, n)
  {
    Shift12IsShift(x);
    Shift12Value(x, n);
  }

  lemma Shift17Multiplies(x: bv64, n: nat)
    requires n + 17 <= 64
    ensures Value(x << 17, n + 17) == 0x2_0000 * Value(x, n)
  {
    Shift17IsShift(x);
    Shift12Multiplies(x, n);
    Shift5Value(x << 12, n + 12);
  }

  lemma Shift22Multiplies(x: bv64, n: nat)
    requires n + 22 <= 64
    ensures Value(x << 22, n + 22) == 0x40_0000 * Value(x, n)
  {
    Shift22IsShift(x);
    Shift17Multiplies(x, n);
    Shift5Value(x << 17, n + 17);
  }

  lemma DatacenterValue(datacenter: bv64, m: nat)
    requires datacenter < 32 && m <= 42
    ensures Value(datacenter << 17, m + 22) == 0x2_0000 * Value(datacenter, m + 22)
  {
    Shift17Multiplies(datacenter, m + 5);
    SmallField(datacenter, m + 5);
    SmallField(datacenter, m + 22);
  }

  lemma WorkerValue(worker: bv64, m: nat)
    requires worker < 32 && m <= 42
    ensures Value(worker << 12, m + 22) == 0x1000 * Value(worker, m + 22)
  {
    Shift12Multiplies(worker, m + 10);
    SmallField(worker, m + 10);
    SmallField(worker, m + 22);
  }

  lemma OrOfFields(time: bv64, datacenter: bv64, worker: bv64, sequence: bv64, n: nat)
    requires Disjoint(time, datacenter) && Disjoint(Or(time, datacenter), worker)
    requires Disjoint(Or(Or(time, datacenter), worker), sequence)
    ensures Value(Or(Or(Or(time, datacenter), worker), sequence), n)
         == Value(time, n) + Value(datacenter, n) + Value(worker, n) + Value(sequence, n)
  {
    OrAdds(time, datacenter, n);
    OrAdds(Or(time, datacenter), worker, n);
    OrAdds(Or(Or(time, datacenter), worker), sequence, n);
  }

  lemma FieldsAdd(elapsed: bv64, datacenter: bv64, worker: bv64, sequence: bv64, n: nat)
    requires datacenter < 32 && worker < 32 && sequence < 4096
    ensures Value(Fields(elapsed, datacenter, worker, sequence), n)
         == Value(elapsed << 22, n) + Value(datacenter << 17, n) + Value(worker << 12, n) + Value(sequence, n)
  {
    FieldsDisjoint(elapsed, datacenter, worker, sequence);
    OrOfFields(elapsed << 22, datacenter << 17, worker << 12, sequence, n);
  }

  function LowSum(datacenter: bv64, worker: bv64, sequence: bv64, n: nat): int {
    Value(datacenter, n) * 0x2_0000 + Value(worker, n) * 0x1000 + Value(sequence, n)
  }

  lemma LowFields(datacenter: bv64, worker: bv64, sequence: bv64, m: nat)
    requires datacenter < 32 && worker < 32 && m <= 42
    ensures Value(datacenter << 17, m + 22) + Value(worker << 12, m + 22) + Value(sequence, m + 22)
         == LowSum(datacenter, worker, sequence, m + 22)
  {
    DatacenterValue(datacenter, m);
    WorkerValue(worker, m);
  }

  /** The time's part is worth so much, and the three others together the rest. */
  lemma FieldsSum(elapsed: bv64, datacenter: bv64, worker: bv64, sequence: bv64, m: nat)
    requires datacenter < 32 && worker < 32 && sequence < 4096 && m <= 42
    ensures Value(Fields(elapsed, datacenter, worker, sequence), m + 22)
         == 0x40_0000 * Value(elapsed, m) + LowSum(datacenter, worker, sequence, m + 22)
  {
    var low := Value(datacenter << 17, m + 22) + Value(worker << 12, m + 22) + Value(sequence, m + 22);
    assert Value(Fields(elapsed, datacenter, worker, sequence), m + 22) == Value(elapsed << 22, m + 22) + low by {
      FieldsAdd(elapsed, datacenter, worker, sequence, m + 22);
    }
    assert low == LowSum(datacenter, worker, sequence, m + 22) by {
      LowFields(datacenter, worker, sequence, m);
    }
    assert Value(elapsed << 22, m + 22) == 0x40_0000 * Value(elapsed, m) by {
      Shift22Multiplies(elapsed, m);
    }
  }

  lemma TopDigitsLeave(low: int, high: int, rest: int, all: int, m: nat)
    requires all == 0x40_0000 * low + rest && 0 <= all < Pow2(m + 22)
    ensures ((low + Pow2(m) * high) * 0x40_0000 + rest) % Pow2(m + 22) == all
  {
    TwoTo22();
    PowersAdd(m, 22);
    UniqueRemainder((low + Pow2(m) * high) * 0x40_0000 + rest, high, all, Pow2(m + 22));
  }

  lemma UniqueRemainder(x: int, q: int, r: int, d: nat)
    requires 0 <= r < d && x == q * d + r
    ensures x % d == r
  {
    assert (x / d - q) * d == r - x % d;
    SmallMultiple(x / d - q, d);
    SmallMultiple(q - x / d, d);
    assert (q - x / d) * d == -((x / d - q) * d);
  }

  lemma SmallMultiple(k: int, d: nat)
    ensures k * d < d ==> k <= 0
  {
    if k > 0 {
      assert k * d == d + (k - 1) * d && (k - 1) * d >= 0;
    }
  }

  /** The word that the shifts and ors build, in its `m + 22` low digits. */
  lemma FieldsModulo(elapsed: bv64, datacenter: bv64, worker: bv64, sequence: bv64, m: nat, k: nat)
    requires datacenter < 32 && worker < 32 && sequence < 4096 && m <= 42 && k == 22
    ensures Value(Fields(elapsed, datacenter, worker, sequence), m + k)
         == (Value(elapsed, m + k) * 0x40_0000 + LowSum(datacenter, worker, sequence, m + k)) % Pow2(m + k)
  {
    var rest := LowSum(datacenter, worker, sequence, m + k);
    FieldsSum(elapsed, datacenter, worker, sequence, m);
    ValueIsBounded(Fields(elapsed, datacenter, worker, sequence), m + k);
    ValueSplits(elapsed, m, k);
    TopDigitsLeave(Value(elapsed, m), Value(Drop(Half, elapsed, m), k), rest,
                   Value(Fields(elapsed, datacenter, worker, sequence), m + k), m);
  }

  /** That word has the value that the sum of products has modulo 2^64. */
  lemma FieldsValue(elapsed: bv64, datacenter: bv64, worker: bv64, sequence: bv64)
    requires datacenter < 32 && worker < 32 && sequence < 4096
    ensures Value(Fields(elapsed, datacenter, worker, sequence), 64)
         == (Value(elapsed, 64) * 0x40_0000 + LowSum(datacenter, worker, sequence, 64)) % 0x1_0000_0000_0000_0000
  {
    FieldsModulo(elapsed, datacenter, worker, sequence, 42, 22);
    TwoTo64();
  }

  lemma TwoTo22()
    ensures Pow2(22) == 0x40_0000
  {
    assert Pow2(11) == 0x800;
    PowersAdd(11, 11);
  }

  lemma TwoTo64()
    ensures Pow2(64) == 0x1_0000_0000_0000_0000
  {
    assert Pow2(10) == 0x400;
    TwoTo22();
    PowersAdd(10, 22);
    PowersAdd(32, 32);
  }
}
