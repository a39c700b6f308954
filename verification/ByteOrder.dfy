/** utils/tool.go: int32 values and their four big-endian bytes. */
module ByteOrder {
  import opened Prelude

  type Byte = b: int | 0 <= b < 256
  type Bytes = seq<Byte>

  predicate IsInt32(n: int) {
    -0x8000_0000 <= n < 0x8000_0000
  }

  function ToUnsigned(n: int): (u: int)
    requires IsInt32(n)
    ensures 0 <= u < TWO_32
  {
    if n < 0 then n + TWO_32 else n
  }

  function ToSigned(u: int): (n: int)
    requires 0 <= u < TWO_32
    ensures IsInt32(n)
  {
    if u < 0x8000_0000 then u else u - TWO_32
  }

  function BigEndian(u: int): (b: Bytes)
    requires 0 <= u < TWO_32
    ensures |b| == 4
  {
    [u / 0x100_0000, u / 0x1_0000 % 0x100, u / 0x100 % 0x100, u % 0x100]
  }

  function FromBigEndian(b: Bytes): (u: int)
    requires |b| >= 4
    ensures 0 <= u < TWO_32
  {
    Weigh(b[0], b[1], b[2], b[3])
  }

  function Weigh(a: int, b: int, c: int, d: int): int {
    a * 0x100_0000 + b * 0x1_0000 + c * 0x100 + d
  }

  function IntToBytes(n: int): (b: Bytes)
    requires IsInt32(n)
    ensures |b| == 4
  {
    BigEndian(ToUnsigned(n))
  }

  /** With fewer than four bytes binary.Read fails and leaves the zero value. */
  function BytesToInt(b: Bytes): (n: int)
    ensures IsInt32(n)
  {
    if |b| < 4 then 0 else ToSigned(FromBigEndian(b))
  }

  lemma WeighDigits(u: int)
    requires 0 <= u < TWO_32
    ensures Weigh(u / 0x100_0000, u / 0x1_0000 % 0x100, u / 0x100 % 0x100, u % 0x100) == u
  {
    assert u / 0x1_0000 == u / 0x100_0000 * 0x100 + u / 0x1_0000 % 0x100;
    assert u / 0x100 == u / 0x1_0000 * 0x100 + u / 0x100 % 0x100;
  }

  lemma Digits(a: int, b: int, c: int, d: int)
    requires 0 <= b < 0x100 && 0 <= c < 0x100 && 0 <= d < 0x100
    ensures var u := Weigh(a, b, c, d);
      u / 0x100_0000 == a && u / 0x1_0000 % 0x100 == b && u / 0x100 % 0x100 == c && u % 0x100 == d
  {
    var u := Weigh(a, b, c, d);
    assert u / 0x100 == a * 0x1_0000 + b * 0x100 + c;
    assert u / 0x1_0000 == a * 0x100 + b;
  }

  /** Every int32 survives the trip to bytes and back, negative ones included. */
  lemma IntRoundTrip(n: int)
    requires IsInt32(n)
    ensures BytesToInt(IntToBytes(n)) == n
  {
    WeighDigits(ToUnsigned(n));
  }

  /** Every four bytes survive the trip to an int32 and back. */
  lemma BytesRoundTrip(b: Bytes)
    requires |b| == 4
    ensures IntToBytes(BytesToInt(b)) == b
  {
    Digits(b[0], b[1], b[2], b[3]);
    var u := FromBigEndian(b);
    assert ToUnsigned(ToSigned(u)) == u;
    assert BigEndian(u) == [b[0], b[1], b[2], b[3]];
  }

  predicate LexLess(a: Bytes, b: Bytes)
    requires |a| == |b|
  {
    a != [] && (a[0] < b[0] || (a[0] == b[0] && LexLess(a[1..], b[1..])))
  }

  lemma {:induction false} LexLessOneWay(a: Bytes, b: Bytes)
    requires |a| == |b|
    ensures !(LexLess(a, b) && LexLess(b, a)) && !LexLess(a, a)
    decreases |a|
  {
    if a == [] {
    } else {
      LexLessOneWay(a[1..], b[1..]);
    }
  }

  lemma LessIsLexLess(u: int, v: int)
    requires 0 <= u < v < TWO_32
    ensures LexLess(BigEndian(u), BigEndian(v))
  {
    var a, b := BigEndian(u), BigEndian(v);
    WeighDigits(u);
    WeighDigits(v);
    if a[0] == b[0] && a[1] == b[1] && a[2] == b[2] {
      assert LexLess(a[3..], b[3..]);
      assert a[2..][1..] == a[3..] && b[2..][1..] == b[3..];
    }
    assert a[1..][1..] == a[2..] && b[1..][1..] == b[2..];
  }

  /** Most significant byte first: the order of the bytes is the order of the 32-bit words, so it is
      the order of the numbers within each sign, and puts negative numbers last. */
  lemma BigEndianOrder(m: int, n: int)
    requires IsInt32(m) && IsInt32(n)
    ensures LexLess(IntToBytes(m), IntToBytes(n)) <==> ToUnsigned(m) < ToUnsigned(n)
    ensures LexLess(IntToBytes(m), IntToBytes(n)) <==> (if (m < 0) == (n < 0) then m < n else n < 0)
  {
    var u, v := ToUnsigned(m), ToUnsigned(n);
    LexLessOneWay(BigEndian(u), BigEndian(v));
    if u < v {
      LessIsLexLess(u, v);
    } else if v < u {
      LessIsLexLess(v, u);
    }
  }
}
