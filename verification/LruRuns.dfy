/** What holds of the cache over every run of operations: its size, its order, and what Get returns. */
module LruRuns {
  import opened Lru
  import opened Prelude

  datatype Op =
    | OpGet(key: int, load: Load, now: int, sweepTime: int)
    | OpPut(key: int, value: Value, expire: int, now: int, sweepTime: int)
    | OpDelete(key: int)
    | OpClear
    | OpCleanExpired(now: int)
    | OpRemoveEligible

  function Apply(c: Config, es: seq<Entry>, op: Op): seq<Entry> {
    match op
    case OpGet(key, load, now, sweepTime) => Get(c, es, key, load, now, sweepTime).0
    case OpPut(key, value, expire, now, sweepTime) => Put(c, es, key, value, expire, now, sweepTime)
    case OpDelete(key) => Without(es, key)
    case OpClear => []
    case OpCleanExpired(now) => CleanExpired(c, es, now)
    case OpRemoveEligible => RemoveEligible(c, es)
  }

  function Run(c: Config, es: seq<Entry>, ops: seq<Op>): seq<Entry>
    decreases |ops|
  {
    if ops == [] then es else Run(c, Apply(c, es, ops[0]), ops[1..])
  }

  // ---------------------------------------------------------------- keys stay unique

  lemma TouchKeepsUnique(es: seq<Entry>, key: int)
    requires UniqueKeys(es)
    ensures UniqueKeys(Touch(es, key))
  {
    RemoveAtKeepsUnique(es, IndexOf(es, key));
  }

  lemma ApplyKeepsUnique(c: Config, es: seq<Entry>, op: Op)
    requires UniqueKeys(es)
    ensures UniqueKeys(Apply(c, es, op))
  {
    match op
    case OpGet(key, load, now, sweepTime) =>
      if load.Loaded? {
        InsertKeepsUniqueIfNew(c, es, Entry(key, load.value, Deadline(now, load.expire)), sweepTime);
      }
      RemoveAtKeepsUnique(es, IndexOf(es, key));
      TouchKeepsUnique(es, key);
    case OpPut(key, value, expire, now, sweepTime) =>
      InsertKeepsUniqueIfNew(c, es, Entry(key, value, Deadline(now, expire)), sweepTime);
      RemoveAtKeepsUnique(es, IndexOf(es, key));
    case OpDelete(key) => RemoveAtKeepsUnique(es, IndexOf(es, key));
    case OpClear =>
    case OpCleanExpired(now) => RetainIsSubsequence(es, Stale(c, now));
    case OpRemoveEligible => RetainIsSubsequence(es, Droppable(c));
  }

  lemma InsertKeepsUniqueIfNew(c: Config, es: seq<Entry>, e: Entry, sweepTime: int)
    requires UniqueKeys(es)
    ensures IndexOf(es, e.key) == |es| ==> UniqueKeys(Insert(c, es, e, sweepTime))
  {
    if IndexOf(es, e.key) == |es| {
      InsertKeepsUnique(c, es, e, sweepTime);
    }
  }

  // ---------------------------------------------------------------- the size bound

  /** How many entries the filter refuses to let go. */
  function Pinned(c: Config, es: seq<Entry>): nat {
    |RemoveEligible(c, es)|
  }

  ghost predicate KeyOnly(c: Config) {
    c.filter.Some? ==> forall k, v, w :: c.filter.value(k, v) == c.filter.value(k, w)
  }

  predicate Bounded(c: Config, es: seq<Entry>) {
    |es| <= c.minSize || |es| <= Pinned(c, es) + 1
  }

  lemma {:induction false} RetainConcat(a: seq<Entry>, b: seq<Entry>, p: Entry -> bool)
    ensures Retain(a + b, p) == Retain(a, p) + Retain(b, p)
    decreases |a|
  {
    if a == [] {
      assert a + b == b;
    } else {
      assert (a + b)[1..] == a[1..] + b;
      RetainConcat(a[1..], b, p);
    }
  }

  lemma {:induction false} RetainTwice(es: seq<Entry>, p: Entry -> bool, q: Entry -> bool)
    requires forall e :: q(e) ==> p(e)
    ensures Retain(Retain(es, q), p) == Retain(es, p)
    decreases |es|
  {
    if es == [] {
    } else {
      RetainTwice(es[1..], p, q);
      if !q(es[0]) {
        RetainConcat([es[0]], Retain(es[1..], q), p);
        RetainConcat([es[0]], es[1..], p);
        assert es == [es[0]] + es[1..];
      }
    }
  }

  function PinnedOne(c: Config, e: Entry): nat {
    if Eligible(c, e) then 0 else 1
  }

  lemma PinnedCons(c: Config, e: Entry, es: seq<Entry>)
    ensures Pinned(c, [e] + es) == PinnedOne(c, e) + Pinned(c, es)
  {
    assert ([e] + es)[1..] == es;
  }

  lemma PinnedRemoveAt(c: Config, es: seq<Entry>, i: nat)
    requires i < |es|
    ensures Pinned(c, RemoveAt(es, i)) == Pinned(c, es) - PinnedOne(c, es[i])
  {
    var p := Droppable(c);
    assert es == es[..i] + ([es[i]] + es[i + 1..]);
    RetainConcat(es[..i], [es[i]] + es[i + 1..], p);
    RetainConcat(es[..i], es[i + 1..], p);
    assert ([es[i]] + es[i + 1..])[1..] == es[i + 1..];
  }

  lemma SweepKeepsPinned(c: Config, es: seq<Entry>, now: int)
    ensures Pinned(c, CleanExpired(c, es, now)) == Pinned(c, es)
    ensures |CleanExpired(c, es, now)| <= |es|
  {
    RetainTwice(es, Droppable(c), Stale(c, now));
    RetainIsSubsequence(es, Stale(c, now));
  }

  /** With nothing to evict, everything is pinned. */
  lemma AllPinned(c: Config, es: seq<Entry>)
    requires Victim(c, es) == |es|
    ensures Pinned(c, es) == |es|
  {
    forall e | e in es
      ensures !Droppable(c)(e)
    {
    }
    RetainAll(es, Droppable(c));
  }

  lemma RoomIsBounded(c: Config, es: seq<Entry>, e: Entry)
    requires Bounded(c, es)
    ensures Bounded(c, [e] + MakeRoom(c, es))
  {
    if |es| >= c.minSize {
      var v := Victim(c, es);
      PinnedCons(c, e, EvictOldest(c, es));
      if v == |es| {
        AllPinned(c, es);
      } else {
        PinnedRemoveAt(c, es, v);
      }
    }
  }

  lemma InsertKeepsBounded(c: Config, es: seq<Entry>, e: Entry, sweepTime: int)
    requires Bounded(c, es)
    ensures Bounded(c, Insert(c, es, e, sweepTime))
  {
    RoomIsBounded(c, es, e);
    SweepKeepsPinned(c, [e] + MakeRoom(c, es), sweepTime);
  }

  lemma RemoveKeepsBounded(c: Config, es: seq<Entry>, key: int)
    requires Bounded(c, es)
    ensures Bounded(c, Without(es, key))
  {
    var i := IndexOf(es, key);
    if i < |es| {
      PinnedRemoveAt(c, es, i);
    }
  }

  /** A Put that turns a refused entry into one the filter lets go, in a cache that is at its bound. */
  predicate Unpins(c: Config, es: seq<Entry>, op: Op) {
    && op.OpPut?
    && var i := IndexOf(es, op.key);
       && i < |es|
       && !Eligible(c, es[i]) && Eligible(c, Entry(op.key, op.value, Deadline(op.now, op.expire)))
       && |es| > c.minSize && |es| == Pinned(c, es) + 1
  }

  /** Moving an entry up, with a new value or not. */
  lemma RaiseBounded(c: Config, es: seq<Entry>, i: nat, e: Entry)
    requires Bounded(c, es) && i < |es|
    ensures Bounded(c, [e] + RemoveAt(es, i))
       <==> !(!Eligible(c, es[i]) && Eligible(c, e) && |es| > c.minSize && |es| == Pinned(c, es) + 1)
  {
    PinnedRemoveAt(c, es, i);
    PinnedCons(c, e, RemoveAt(es, i));
  }

  /** From a cache within the bound, one operation leaves the bound exactly when it unpins. */
  lemma StepBounded(c: Config, es: seq<Entry>, op: Op)
    requires Bounded(c, es)
    ensures Bounded(c, Apply(c, es, op)) <==> !Unpins(c, es, op)
  {
    match op
    case OpGet(key, load, now, sweepTime) =>
      var i := IndexOf(es, key);
      RemoveKeepsBounded(c, es, key);
      if i < |es| {
        RaiseBounded(c, es, i, es[i]);
      } else if load.Loaded? {
        InsertKeepsBounded(c, es, Entry(key, load.value, Deadline(now, load.expire)), sweepTime);
      }
    case OpPut(key, value, expire, now, sweepTime) =>
      var i, e := IndexOf(es, key), Entry(key, value, Deadline(now, expire));
      if i < |es| {
        RaiseBounded(c, es, i, e);
      } else {
        InsertKeepsBounded(c, es, e, sweepTime);
      }
    case OpDelete(key) => RemoveKeepsBounded(c, es, key);
    case OpClear =>
    case OpCleanExpired(now) => SweepKeepsPinned(c, es, now);
    case OpRemoveEligible => RetainTwice(es, Droppable(c), Droppable(c));
  }

  predicate AlwaysBounded(c: Config, es: seq<Entry>, ops: seq<Op>)
    decreases |ops|
  {
    Bounded(c, es) && (ops == [] || AlwaysBounded(c, Apply(c, es, ops[0]), ops[1..]))
  }

  predicate NeverUnpins(c: Config, es: seq<Entry>, ops: seq<Op>)
    decreases |ops|
  {
    ops == [] || (!Unpins(c, es, ops[0]) && NeverUnpins(c, Apply(c, es, ops[0]), ops[1..]))
  }

  /** For any filter at all: a run stays within the minimum size, or one more than what the filter pins
      down, whichever is larger, if and only if none of its steps unpins at the bound. */
  lemma {:induction false} ExactSizeBound(c: Config, es: seq<Entry>, ops: seq<Op>)
    requires Bounded(c, es)
    ensures AlwaysBounded(c, es, ops) <==> NeverUnpins(c, es, ops)
    decreases |ops|
  {
    if ops == [] {
    } else {
      StepBounded(c, es, ops[0]);
      if Bounded(c, Apply(c, es, ops[0])) {
        ExactSizeBound(c, Apply(c, es, ops[0]), ops[1..]);
      }
    }
  }

  lemma {:induction false} KeyOnlyNeverUnpins(c: Config, es: seq<Entry>, ops: seq<Op>)
    requires KeyOnly(c)
    ensures NeverUnpins(c, es, ops)
    decreases |ops|
  {
    if ops == [] {
    } else {
      KeyOnlyNeverUnpins(c, Apply(c, es, ops[0]), ops[1..]);
    }
  }

  lemma {:induction false} AlwaysBoundedAtTheEnd(c: Config, es: seq<Entry>, ops: seq<Op>)
    requires AlwaysBounded(c, es, ops)
    ensures Bounded(c, Run(c, es, ops))
    decreases |ops|
  {
    if ops == [] {
    } else {
      AlwaysBoundedAtTheEnd(c, Apply(c, es, ops[0]), ops[1..]);
    }
  }

  /** In particular a filter that looks at keys only never unpins. */
  lemma SizeBound(c: Config, es: seq<Entry>, ops: seq<Op>)
    requires KeyOnly(c) && Bounded(c, es)
    ensures AlwaysBounded(c, es, ops) && Bounded(c, Run(c, es, ops))
  {
    KeyOnlyNeverUnpins(c, es, ops);
    ExactSizeBound(c, es, ops);
    AlwaysBoundedAtTheEnd(c, es, ops);
  }

  /** With no filter at all, the clean-up above the core size is dead code once that size is at least
      the bound: an insertion never gets there. */
  lemma CoreSweepNeverFires(c: Config, ops: seq<Op>, e: Entry, sweepTime: int)
    requires c.filter == None && c.coreSize >= c.minSize && c.coreSize >= 1
    ensures var es := Run(c, [], ops);
      && |es| <= (if c.minSize > 1 then c.minSize else 1)
      && Insert(c, es, e, sweepTime) == [e] + MakeRoom(c, es)
  {
    var es := Run(c, [], ops);
    SizeBound(c, [], ops);
    RoomIsBounded(c, es, e);
    NothingPinned(c, es);
    NothingPinned(c, [e] + MakeRoom(c, es));
  }

  lemma {:induction false} NothingPinned(c: Config, es: seq<Entry>)
    requires c.filter == None
    ensures Pinned(c, es) == 0
    decreases |es|
  {
    if es == [] {
    } else {
      NothingPinned(c, es[1..]);
    }
  }

  /** Such a step exists: with a filter on values, overwriting can unpin entries without evicting any. */
  lemma ValueFilterBreaksBound()
    ensures var c := Config(0, 10, Some((k: int, v: Value) => v == Object(1)));
      var ops := [OpPut(1, Object(0), 0, 0, 0), OpPut(2, Object(0), 0, 0, 0),
                  OpPut(1, Object(1), 0, 0, 0), OpPut(2, Object(1), 0, 0, 0)];
      !Bounded(c, Run(c, [], ops)) && |Run(c, [], ops)| == 2
  {
    var c := Config(0, 10, Some((k: int, v: Value) => v == Object(1)));
    var a0, a1 := Entry(1, Object(0), None), Entry(1, Object(1), None);
    var b0, b1 := Entry(2, Object(0), None), Entry(2, Object(1), None);
    var ops := [OpPut(1, Object(0), 0, 0, 0), OpPut(2, Object(0), 0, 0, 0),
                OpPut(1, Object(1), 0, 0, 0), OpPut(2, Object(1), 0, 0, 0)];
    assert Apply(c, [], ops[0]) == [a0];
    assert Apply(c, [a0], ops[1]) == [b0, a0];
    assert Apply(c, [b0, a0], ops[2]) == [a1, b0];
    assert Apply(c, [a1, b0], ops[3]) == [b1, a1];
    assert Run(c, [], ops) == [b1, a1];
    assert Pinned(c, [b1, a1]) == 0;
  }

  // ---------------------------------------------------------------- pinning and expiry

  ghost predicate PinnedKey(c: Config, es: seq<Entry>, key: int) {
    exists e :: e in es && e.key == key && !Eligible(c, e)
  }

  /** Does the operation itself let go of this key: by clearing, by deleting it, or by overwriting it
      with a value that the filter does not refuse? */
  predicate Releases(c: Config, op: Op, key: int) {
    || op.OpClear?
    || (op.OpDelete? && op.key == key)
    || (op.OpPut? && op.key == key && Eligible(c, Entry(key, op.value, Deadline(op.now, op.expire))))
  }

  lemma RemovedOther(es: seq<Entry>, i: nat, e: Entry)
    requires e in es && (i < |es| ==> es[i] != e)
    ensures e in RemoveAt(es, i)
  {
    var j :| 0 <= j < |es| && es[j] == e;
    if i < |es| {
      assert RemoveAt(es, i)[if j < i then j else j - 1] == e;
    }
  }

  lemma InsertKeepsPinned(c: Config, es: seq<Entry>, newest: Entry, sweepTime: int, e: Entry)
    requires e in es && !Eligible(c, e)
    ensures e in Insert(c, es, newest, sweepTime)
  {
    RemovedOther(es, Victim(c, es), e);
    assert e in [newest] + MakeRoom(c, es);
    RetainIsSubsequence([newest] + MakeRoom(c, es), Stale(c, sweepTime));
  }

  lemma ApplyKeepsPinned(c: Config, es: seq<Entry>, op: Op, key: int)
    requires UniqueKeys(es) && PinnedKey(c, es, key) && !Releases(c, op, key)
    ensures PinnedKey(c, Apply(c, es, op), key)
  {
    var e :| e in es && e.key == key && !Eligible(c, e);
    match op
    case OpGet(k, load, now, sweepTime) =>
      var i := IndexOf(es, k);
      if i == |es| {
        if load.Loaded? {
          InsertKeepsPinned(c, es, Entry(k, load.value, Deadline(now, load.expire)), sweepTime, e);
        }
      } else if es[i] != e {
        RemovedOther(es, i, e);
      }
    case OpPut(k, value, expire, now, sweepTime) =>
      var i, newest := IndexOf(es, k), Entry(k, value, Deadline(now, expire));
      if i == |es| {
        InsertKeepsPinned(c, es, newest, sweepTime, e);
      } else if es[i] != e {
        RemovedOther(es, i, e);
      } else {
        assert Apply(c, es, op)[0] == newest && !Eligible(c, newest);
      }
    case OpDelete(k) => RemovedOther(es, IndexOf(es, k), e);
    case OpCleanExpired(now) => RetainIsSubsequence(es, Stale(c, now));
    case OpRemoveEligible => RetainIsSubsequence(es, Droppable(c));
  }

  lemma ReleaseUnpins(c: Config, es: seq<Entry>, op: Op, key: int)
    requires UniqueKeys(es) && PinnedKey(c, es, key) && Releases(c, op, key)
    ensures !PinnedKey(c, Apply(c, es, op), key)
  {
    if !op.OpClear? {
      var e :| e in es && e.key == key && !Eligible(c, e);
      var i := IndexOf(es, key);
      RemoveAtKeepsUnique(es, i);
      forall x | x in Without(es, key)
        ensures x.key != key
      {
      }
    }
  }

  predicate NeverReleases(c: Config, ops: seq<Op>, key: int) {
    forall i :: 0 <= i < |ops| ==> !Releases(c, ops[i], key)
  }

  ghost predicate AlwaysPinned(c: Config, es: seq<Entry>, ops: seq<Op>, key: int)
    decreases |ops|
  {
    PinnedKey(c, es, key) && (ops == [] || AlwaysPinned(c, Apply(c, es, ops[0]), ops[1..], key))
  }

  /** What the filter refuses stays cached and refused all through a run, whatever is evicted, swept or
      loaded, if and only if no operation of the run releases it. */
  lemma {:induction false} PinnedStays(c: Config, es: seq<Entry>, ops: seq<Op>, key: int)
    requires UniqueKeys(es) && PinnedKey(c, es, key)
    ensures AlwaysPinned(c, es, ops, key) <==> NeverReleases(c, ops, key)
    decreases |ops|
  {
    if ops == [] {
    } else {
      ApplyKeepsUnique(c, es, ops[0]);
      if Releases(c, ops[0], key) {
        ReleaseUnpins(c, es, ops[0], key);
      } else {
        ApplyKeepsPinned(c, es, ops[0], key);
        PinnedStays(c, Apply(c, es, ops[0]), ops[1..], key);
        assert NeverReleases(c, ops, key) <==> NeverReleases(c, ops[1..], key) by {
          assert ops == [ops[0]] + ops[1..];
        }
      }
    }
  }

  /** Is a new entry's time already up at the sweep that its own insertion triggers? */
  predicate SweptAtOnce(c: Config, es: seq<Entry>, e: Entry, sweepTime: int) {
    && IndexOf(es, e.key) == |es| && |MakeRoom(c, es)| + 1 > c.coreSize
    && Expired(e, sweepTime) && Eligible(c, e)
  }

  /** What Get answers after a Put, whatever was cached before: the value until its time to live has
      passed, for ever without one; or what a miss answers, if the Put swept its own entry away. */
  lemma PutThenGet(c: Config, es: seq<Entry>, key: int, value: Value, expire: int, now: int, sweepTime: int,
                   load: Load, later: int, sweepTime': int)
    ensures var e := Entry(key, value, Deadline(now, expire));
      Get(c, Put(c, es, key, value, expire, now, sweepTime), key, load, later, sweepTime').1
      == if SweptAtOnce(c, es, e, sweepTime) then
           if load.Loaded? && load.value != Nil then Some(load.value) else None
         else if expire > 0 && later > now + expire then None
         else Some(value)
  {
    var e := Entry(key, value, Deadline(now, expire));
    var es' := Put(c, es, key, value, expire, now, sweepTime);
    if SweptAtOnce(c, es, e, sweepTime) {
      RoomIsSubset(c, es, key);
      RetainIsSubsequence([e] + MakeRoom(c, es), Stale(c, sweepTime));
      assert es' == Retain(MakeRoom(c, es), Stale(c, sweepTime));
      RetainIsSubsequence(MakeRoom(c, es), Stale(c, sweepTime));
      AbsentKey(es', key);
    } else {
      assert es'[0] == e;
    }
  }

  // ---------------------------------------------------------------- recency

  /** The key an operation uses successfully: a hit, a load or a put. */
  function Used(c: Config, es: seq<Entry>, op: Op): seq<int> {
    match op
    case OpGet(key, load, now, sweepTime) =>
      if Get(c, es, key, load, now, sweepTime).1.Some? then [key] else []
    case OpPut(key, _, _, _, _) => [key]
    case _ => []
  }

  function Uses(c: Config, es: seq<Entry>, ops: seq<Op>): seq<int>
    decreases |ops|
  {
    if ops == [] then [] else Used(c, es, ops[0]) + Uses(c, Apply(c, es, ops[0]), ops[1..])
  }

  /** When a key was last used, counting uses from 1; 0 for never. */
  function LastUse(uses: seq<int>, key: int): (t: nat)
    ensures t <= |uses|
  {
    if uses == [] then 0
    else if uses[|uses| - 1] == key then |uses|
    else LastUse(uses[..|uses| - 1], key)
  }

  /** List order is decreasing order of last use. */
  ghost predicate ByRecency(es: seq<Entry>, uses: seq<int>) {
    && (forall i :: 0 <= i < |es| ==> LastUse(uses, es[i].key) > 0)
    && (forall i, j :: 0 <= i < j < |es| ==> LastUse(uses, es[i].key) > LastUse(uses, es[j].key))
  }

  lemma LastUseAppend(uses: seq<int>, used: int, key: int)
    ensures LastUse(uses + [used], key) == if used == key then |uses| + 1 else LastUse(uses, key)
  {
    assert (uses + [used])[..|uses|] == uses;
  }

  /** Used after everything in the list. */
  ghost predicate Newer(e: Entry, rest: seq<Entry>, uses: seq<int>) {
    LastUse(uses, e.key) > 0 && forall x :: x in rest ==> LastUse(uses, e.key) > LastUse(uses, x.key)
  }

  lemma ConsOrder(e: Entry, rest: seq<Entry>, uses: seq<int>)
    requires ByRecency(rest, uses) && Newer(e, rest, uses)
    ensures ByRecency([e] + rest, uses)
  {}

  lemma TailOrder(es: seq<Entry>, uses: seq<int>)
    requires es != [] && ByRecency(es, uses)
    ensures ByRecency(es[1..], uses) && Newer(es[0], es[1..], uses)
  {}

  lemma {:induction false} RetainKeepsOrder(es: seq<Entry>, doomed: Entry -> bool, uses: seq<int>)
    requires ByRecency(es, uses)
    ensures ByRecency(Retain(es, doomed), uses)
    decreases |es|
  {
    if es == [] {
    } else {
      TailOrder(es, uses);
      RetainKeepsOrder(es[1..], doomed, uses);
      RetainIsSubsequence(es[1..], doomed);
      ConsOrder(es[0], Retain(es[1..], doomed), uses);
    }
  }

  lemma RemoveAtKeepsOrder(es: seq<Entry>, i: nat, uses: seq<int>)
    requires ByRecency(es, uses)
    ensures ByRecency(RemoveAt(es, i), uses)
  {}

  /** A newly used entry goes in front of the others. */
  lemma FrontKeepsOrder(rest: seq<Entry>, e: Entry, uses: seq<int>)
    requires ByRecency(rest, uses) && !HasKey(rest, e.key)
    ensures ByRecency([e] + rest, uses + [e.key])
  {
    LastUseAppend(uses, e.key, e.key);
    forall i | 0 <= i < |rest|
      ensures LastUse(uses + [e.key], rest[i].key) == LastUse(uses, rest[i].key)
    {
      LastUseAppend(uses, e.key, rest[i].key);
    }
    ConsOrder(e, rest, uses + [e.key]);
  }

  lemma InsertKeepsOrder(c: Config, es: seq<Entry>, e: Entry, sweepTime: int, uses: seq<int>)
    requires ByRecency(es, uses) && IndexOf(es, e.key) == |es|
    ensures ByRecency(Insert(c, es, e, sweepTime), uses + [e.key])
  {
    RemoveAtKeepsOrder(es, Victim(c, es), uses);
    RoomIsSubset(c, es, e.key);
    FrontKeepsOrder(MakeRoom(c, es), e, uses);
    RetainKeepsOrder([e] + MakeRoom(c, es), Stale(c, sweepTime), uses + [e.key]);
  }

  lemma RaiseKeepsOrder(es: seq<Entry>, i: nat, e: Entry, uses: seq<int>)
    requires UniqueKeys(es) && ByRecency(es, uses) && i < |es| && es[i].key == e.key
    ensures ByRecency([e] + RemoveAt(es, i), uses + [e.key])
  {
    RemoveAtKeepsOrder(es, i, uses);
    RemoveAtKeepsUnique(es, i);
    FrontKeepsOrder(RemoveAt(es, i), e, uses);
  }

  lemma GetKeepsOrder(c: Config, es: seq<Entry>, op: Op, uses: seq<int>)
    requires UniqueKeys(es) && ByRecency(es, uses) && op.OpGet?
    ensures ByRecency(Apply(c, es, op), uses + Used(c, es, op))
  {
    var OpGet(key, load, now, sweepTime) := op;
    var i := IndexOf(es, key);
    assert uses + [] == uses;
    RemoveAtKeepsOrder(es, i, uses);
    if i < |es| {
      RaiseKeepsOrder(es, i, es[i], uses);
    } else if load.Loaded? {
      InsertKeepsOrder(c, es, Entry(key, load.value, Deadline(now, load.expire)), sweepTime, uses);
    }
  }

  lemma PutKeepsOrder(c: Config, es: seq<Entry>, op: Op, uses: seq<int>)
    requires UniqueKeys(es) && ByRecency(es, uses) && op.OpPut?
    ensures ByRecency(Apply(c, es, op), uses + Used(c, es, op))
  {
    var OpPut(key, value, expire, now, sweepTime) := op;
    var i, e := IndexOf(es, key), Entry(key, value, Deadline(now, expire));
    if i < |es| {
      RaiseKeepsOrder(es, i, e, uses);
    } else {
      InsertKeepsOrder(c, es, e, sweepTime, uses);
    }
  }

  lemma ApplyKeepsOrder(c: Config, es: seq<Entry>, op: Op, uses: seq<int>)
    requires UniqueKeys(es) && ByRecency(es, uses)
    ensures ByRecency(Apply(c, es, op), uses + Used(c, es, op))
  {
    assert uses + [] == uses;
    match op
    case OpGet(_, _, _, _) => GetKeepsOrder(c, es, op, uses);
    case OpPut(_, _, _, _, _) => PutKeepsOrder(c, es, op, uses);
    case OpDelete(key) => RemoveAtKeepsOrder(es, IndexOf(es, key), uses);
    case OpClear =>
    case OpCleanExpired(now) => RetainKeepsOrder(es, Stale(c, now), uses);
    case OpRemoveEligible => RetainKeepsOrder(es, Droppable(c), uses);
  }

  lemma {:induction false} RunKeepsUnique(c: Config, es: seq<Entry>, ops: seq<Op>)
    requires UniqueKeys(es)
    ensures UniqueKeys(Run(c, es, ops))
    decreases |ops|
  {
    if ops == [] {
    } else {
      ApplyKeepsUnique(c, es, ops[0]);
      RunKeepsUnique(c, Apply(c, es, ops[0]), ops[1..]);
    }
  }

  lemma UsesCons(c: Config, es: seq<Entry>, ops: seq<Op>, uses: seq<int>)
    requires ops != []
    ensures uses + Uses(c, es, ops) == (uses + Used(c, es, ops[0])) + Uses(c, Apply(c, es, ops[0]), ops[1..])
  {}

  lemma {:induction false} RunKeepsOrder(c: Config, es: seq<Entry>, ops: seq<Op>, uses: seq<int>)
    requires UniqueKeys(es) && ByRecency(es, uses)
    ensures ByRecency(Run(c, es, ops), uses + Uses(c, es, ops))
    decreases |ops|
  {
    if ops == [] {
      assert uses + [] == uses;
    } else {
      ApplyKeepsUnique(c, es, ops[0]);
      ApplyKeepsOrder(c, es, ops[0], uses);
      RunKeepsOrder(c, Apply(c, es, ops[0]), ops[1..], uses + Used(c, es, ops[0]));
      UsesCons(c, es, ops, uses);
    }
  }

  /** `v` is eligible, nothing eligible was used longer ago, and whatever was is refused. */
  ghost predicate LeastRecentlyUsed(c: Config, es: seq<Entry>, uses: seq<int>, v: nat)
    requires v < |es|
  {
    && Eligible(c, es[v])
    && (forall j :: 0 <= j < |es| && Eligible(c, es[j]) ==> LastUse(uses, es[v].key) <= LastUse(uses, es[j].key))
    && (forall j :: 0 <= j < |es| && LastUse(uses, es[j].key) < LastUse(uses, es[v].key) ==> !Eligible(c, es[j]))
  }

  lemma VictimIsOldest(c: Config, es: seq<Entry>, uses: seq<int>)
    requires ByRecency(es, uses) && Victim(c, es) < |es|
    ensures LeastRecentlyUsed(c, es, uses, Victim(c, es))
  {}

  /** The list is in exact order of last use, and the entry an insertion would evict is the least
      recently used one that the filter lets go. */
  ghost predicate TrulyLru(c: Config, es: seq<Entry>, uses: seq<int>) {
    ByRecency(es, uses) && (Victim(c, es) < |es| ==> LeastRecentlyUsed(c, es, uses, Victim(c, es)))
  }

  /** So it is after any run. */
  lemma TrueLru(c: Config, ops: seq<Op>)
    ensures TrulyLru(c, Run(c, [], ops), Uses(c, [], ops))
  {
    var es, uses := Run(c, [], ops), Uses(c, [], ops);
    RunKeepsOrder(c, [], ops, []);
    assert [] + uses == uses;
    if Victim(c, es) < |es| {
      VictimIsOldest(c, es, uses);
    }
  }

  // ---------------------------------------------------------------- transparency

  type Store = map<int, Value>

  /** The hook reads the store, and nobody puts nil. */
  predicate Honest(store: Store, op: Op) {
    match op
    case OpGet(key, load, _, _) => LoadsFrom(store, key, load)
    case OpPut(_, value, _, _, _) => value != Nil
    case _ => true
  }

  predicate LoadsFrom(store: Store, key: int, load: Load) {
    if key in store then load.Loaded? && load.value == store[key] else load == NotLoaded
  }

  /** Every put is also applied to the store. */
  function Written(store: Store, op: Op): Store {
    if op.OpPut? then store[op.key := op.value] else store
  }

  predicate HonestRun(store: Store, ops: seq<Op>)
    decreases |ops|
  {
    ops == [] || (Honest(store, ops[0]) && HonestRun(Written(store, ops[0]), ops[1..]))
  }

  function StoreAfter(store: Store, ops: seq<Op>): Store
    decreases |ops|
  {
    if ops == [] then store else StoreAfter(Written(store, ops[0]), ops[1..])
  }

  ghost predicate Faithful(es: seq<Entry>, store: Store) {
    && (forall e :: e in es ==> e.key in store && store[e.key] == e.value)
    && (forall k :: k in store ==> store[k] != Nil)
  }

  lemma SubsetFaithful(es: seq<Entry>, fs: seq<Entry>, store: Store)
    requires Faithful(es, store) && forall e :: e in fs ==> e in es
    ensures Faithful(fs, store)
  {}

  lemma InsertFaithful(c: Config, es: seq<Entry>, e: Entry, sweepTime: int, store: Store)
    requires Faithful(es, store) && e.key in store && store[e.key] == e.value
    ensures Faithful(Insert(c, es, e, sweepTime), store)
  {
    RoomIsSubset(c, es, e.key);
    RetainIsSubsequence([e] + MakeRoom(c, es), Stale(c, sweepTime));
  }

  lemma ApplyFaithful(c: Config, es: seq<Entry>, op: Op, store: Store)
    requires UniqueKeys(es) && Faithful(es, store) && Honest(store, op)
    ensures Faithful(Apply(c, es, op), Written(store, op))
  {
    match op
    case OpGet(key, load, now, sweepTime) =>
      if IndexOf(es, key) == |es| && load.Loaded? {
        InsertFaithful(c, es, Entry(key, load.value, Deadline(now, load.expire)), sweepTime, store);
      }
    case OpPut(key, value, expire, now, sweepTime) =>
      var i, e := IndexOf(es, key), Entry(key, value, Deadline(now, expire));
      RemoveAtKeepsUnique(es, i);
      if i < |es| {
        assert forall x :: x in Without(es, key) ==> x in es;
      } else {
        assert Faithful(es, Written(store, op));
        InsertFaithful(c, es, e, sweepTime, Written(store, op));
      }
    case OpDelete(key) => SubsetFaithful(es, Without(es, key), store);
    case OpClear =>
    case OpCleanExpired(now) =>
      RetainIsSubsequence(es, Stale(c, now));
      SubsetFaithful(es, CleanExpired(c, es, now), store);
    case OpRemoveEligible =>
      RetainIsSubsequence(es, Droppable(c));
      SubsetFaithful(es, RemoveEligible(c, es), store);
  }

  lemma {:induction false} RunFaithful(c: Config, es: seq<Entry>, ops: seq<Op>, store: Store)
    requires UniqueKeys(es) && Faithful(es, store) && HonestRun(store, ops)
    ensures UniqueKeys(Run(c, es, ops)) && Faithful(Run(c, es, ops), StoreAfter(store, ops))
    decreases |ops|
  {
    if ops == [] {
    } else {
      ApplyKeepsUnique(c, es, ops[0]);
      ApplyFaithful(c, es, ops[0], store);
      RunFaithful(c, Apply(c, es, ops[0]), ops[1..], Written(store, ops[0]));
    }
  }

  /** After any run, Get answers as the store would, except that it answers nothing exactly while the
      cached copy is expired; a stale value is never returned. */
  lemma Transparent(c: Config, store: Store, ops: seq<Op>, key: int, load: Load, now: int, sweepTime: int)
    requires (forall k :: k in store ==> store[k] != Nil) && HonestRun(store, ops)
    requires LoadsFrom(StoreAfter(store, ops), key, load)
    ensures var es, now_store := Run(c, [], ops), StoreAfter(store, ops);
      var stale := exists e :: e in es && e.key == key && Expired(e, now);
      Get(c, es, key, load, now, sweepTime).1
      == if key in now_store && !stale then Some(now_store[key]) else None
  {
    RunFaithful(c, [], ops, store);
    var es := Run(c, [], ops);
    var i := IndexOf(es, key);
    if i < |es| {
      assert es[i] in es;
    }
  }
}
