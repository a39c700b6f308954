/** Bit strings and registers of any width: the inductions about checksums and words are done here, over
    an arbitrary register type. */
module BitFold {

  function Fold<S>(step: (S, bool) -> S, register: S, bits: seq<bool>): S {
    if bits == [] then register else Fold(step, step(register, bits[0]), bits[1..])
  }

  function Zeros(n: nat): (z: seq<bool>)
    ensures |z| == n && forall i :: 0 <= i < n ==> !z[i]
  {
    seq(n, _ => false)
  }

  function XorBits(a: seq<bool>, b: seq<bool>): (r: seq<bool>)
    requires |a| == |b|
    ensures |r| == |a| && forall i :: 0 <= i < |a| ==> r[i] == (a[i] != b[i])
  {
    seq(|a|, i requires 0 <= i < |a| => a[i] != b[i])
  }

  lemma XorBitsAppend(a: seq<bool>, b: seq<bool>, c: seq<bool>, d: seq<bool>)
    requires |a| == |c| && |b| == |d|
    ensures XorBits(a + b, c + d) == XorBits(a, c) + XorBits(b, d)
  {}

  lemma XorBitsCons(u: bool, a: seq<bool>, v: bool, b: seq<bool>)
    requires |a| == |b|
    ensures XorBits([u] + a, [v] + b) == [u != v] + XorBits(a, b)
  {}

  /** The step commutes with `op` on registers and exclusive or on bits. */
  ghost predicate Linear<S(!new)>(step: (S, bool) -> S, op: (S, S) -> S) {
    forall c, d, u, v :: step(op(c, d), u != v) == op(step(c, u), step(d, v))
  }

  ghost predicate Injective<S(!new)>(step: (S, bool) -> S) {
    forall c, d, u :: step(c, u) == step(d, u) ==> c == d
  }

  lemma {:induction false} FoldAppend<S>(step: (S, bool) -> S, register: S, a: seq<bool>, b: seq<bool>)
    ensures Fold(step, register, a + b) == Fold(step, Fold(step, register, a), b)
    decreases |a|
  {
    if a == [] {
      assert a + b == b;
    } else {
      assert (a + b)[1..] == a[1..] + b;
      FoldAppend(step, step(register, a[0]), a[1..], b);
    }
  }

  lemma {:induction false} FoldLinear<S(!new)>(step: (S, bool) -> S, op: (S, S) -> S, c: S, d: S,
                                               a: seq<bool>, b: seq<bool>)
    requires |a| == |b| && Linear(step, op)
    ensures Fold(step, op(c, d), XorBits(a, b)) == op(Fold(step, c, a), Fold(step, d, b))
    decreases |a|
  {
    if a == [] {
    } else {
      assert step(op(c, d), a[0] != b[0]) == op(step(c, a[0]), step(d, b[0]));
      assert XorBits(a, b)[1..] == XorBits(a[1..], b[1..]);
      FoldLinear(step, op, step(c, a[0]), step(d, b[0]), a[1..], b[1..]);
    }
  }

  lemma {:induction false} FoldInjective<S(!new)>(step: (S, bool) -> S, c: S, d: S, bits: seq<bool>)
    requires Injective(step)
    requires Fold(step, c, bits) == Fold(step, d, bits)
    ensures c == d
    decreases |bits|
  {
    if bits == [] {
    } else {
      var bit := bits[0];
      FoldInjective(step, step(c, bit), step(d, bit), bits[1..]);
      assert Injective(step) && step(c, bit) == step(d, bit);
    }
  }

  /** A register made of three parts, of which only the last one meets the incoming bits. */
  lemma FoldThree<S(!new)>(step: (S, bool) -> S, op: (S, S) -> S, c: S, high: S, low: S, word: S, bits: seq<bool>)
    requires Linear(step, op) && c == op(op(high, low), word)
    ensures var zeros := Zeros(|bits|);
      Fold(step, c, bits) == op(op(Fold(step, high, zeros), Fold(step, low, zeros)), Fold(step, word, bits))
  {
    var zeros := Zeros(|bits|);
    assert XorBits(zeros, bits) == bits && XorBits(zeros, zeros) == zeros;
    FoldLinear(step, op, op(high, low), word, zeros, bits);
    FoldLinear(step, op, high, low, zeros, zeros);
  }

  /** Reading `n` bits off a register, lowest first. */
  function Unfold<S>(low: S -> bool, rest: S -> S, x: S, n: nat): (bits: seq<bool>)
    ensures |bits| == n
    decreases n
  {
    if n == 0 then [] else [low(x)] + Unfold(low, rest, rest(x), n - 1)
  }

  /** What is left of a register after `n` bits have been read off it. */
  function Drop<S>(rest: S -> S, x: S, n: nat): S
    decreases n
  {
    if n == 0 then x else Drop(rest, rest(x), n - 1)
  }

  /** The `n` lowest bits are all set. */
  predicate AllOnes<S>(low: S -> bool, rest: S -> S, x: S, n: nat)
    decreases n
  {
    n == 0 || (low(x) && AllOnes(low, rest, rest(x), n - 1))
  }

  lemma {:induction false} OnesAbove<S>(low: S -> bool, rest: S -> S, x: S, m: nat, n: nat)
    requires AllOnes(low, rest, x, m) && AllOnes(low, rest, Drop(rest, x, m), n)
    ensures AllOnes(low, rest, x, m + n)
    decreases m
  {
    if m == 0 {
    } else {
      OnesAbove(low, rest, rest(x), m - 1, n);
    }
  }

  lemma {:induction false} DropMore<S>(rest: S -> S, x: S, m: nat, n: nat)
    ensures Drop(rest, x, m + n) == Drop(rest, Drop(rest, x, m), n)
    decreases m
  {
    if m == 0 {
    } else {
      DropMore(rest, rest(x), m - 1, n);
    }
  }

  lemma {:induction false} FewerOnes<S>(low: S -> bool, rest: S -> S, x: S, m: nat, n: nat)
    requires AllOnes(low, rest, x, n) && m <= n
    ensures AllOnes(low, rest, x, m)
    decreases m
  {
    if m == 0 {
    } else {
      FewerOnes(low, rest, rest(x), m - 1, n - 1);
    }
  }

  ghost predicate Splits<S(!new)>(low: S -> bool, rest: S -> S, op: (S, S) -> S) {
    && (forall x, y :: low(op(x, y)) == (low(x) != low(y)))
    && (forall x, y :: rest(op(x, y)) == op(rest(x), rest(y)))
  }

  lemma {:induction false} UnfoldLinear<S(!new)>(low: S -> bool, rest: S -> S, op: (S, S) -> S, c: S, d: S, n: nat)
    requires Splits(low, rest, op)
    ensures Unfold(low, rest, op(c, d), n) == XorBits(Unfold(low, rest, c, n), Unfold(low, rest, d, n))
    decreases n
  {
    if n == 0 {
    } else {
      assert low(op(c, d)) == (low(c) != low(d)) && rest(op(c, d)) == op(rest(c), rest(d));
      UnfoldLinear(low, rest, op, rest(c), rest(d), n - 1);
      XorBitsCons(low(c), Unfold(low, rest, rest(c), n - 1), low(d), Unfold(low, rest, rest(d), n - 1));
    }
  }

  /** The bits of a message, block by block. */
  function Blocks<T>(block: T -> seq<bool>, data: seq<T>): seq<bool> {
    if data == [] then [] else block(data[0]) + Blocks(block, data[1..])
  }

  lemma {:induction false} BlocksLength<T(!new)>(block: T -> seq<bool>, data: seq<T>, size: nat)
    requires forall t :: |block(t)| == size
    ensures |Blocks(block, data)| == size * |data|
    decreases |data|
  {
    if data == [] {
    } else {
      BlocksLength(block, data[1..], size);
      assert size * |data| == size + size * |data[1..]|;
    }
  }

  lemma {:induction false} BlocksAppend<T>(block: T -> seq<bool>, a: seq<T>, b: seq<T>)
    ensures Blocks(block, a + b) == Blocks(block, a) + Blocks(block, b)
    decreases |a|
  {
    if a == [] {
      assert a + b == b;
    } else {
      assert (a + b)[1..] == a[1..] + b;
      BlocksAppend(block, a[1..], b);
    }
  }

  lemma {:induction false} BlocksAt<T(!new)>(block: T -> seq<bool>, data: seq<T>, size: nat, i: nat, j: nat)
    requires i < |data| && j < size && forall t :: |block(t)| == size
    ensures 0 <= size * i + j < |Blocks(block, data)|
    ensures Blocks(block, data)[size * i + j] == block(data[i])[j]
    decreases i
  {
    assert |block(data[0])| == size;
    if i == 0 {
    } else {
      BlocksAt(block, data[1..], size, i - 1, j);
      assert size * i + j == size + (size * (i - 1) + j);
    }
  }
}
