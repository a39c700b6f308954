/** Exactly what the cache holds after each operation: which entries it loses, which it gains, and which
    stay over a run. Everything here is said of the entries and the sizes before the operation. */
module LruContents {
  import opened Lru
  import opened LruRuns
  import opened Prelude

  /** The entry that an operation brings in: what is put, or what is loaded for a key not cached. */
  function Brought(es: seq<Entry>, op: Op): Option<Entry> {
    match op
    case OpPut(key, value, expire, now, _) =>
      Some(Entry(key, value, if expire > 0 then Some(now + expire) else None))
    case OpGet(key, Loaded(value, expire), now, _) =>
      if HasKey(es, key) || value == Nil then None
      else Some(Entry(key, value, if expire > 0 then Some(now + expire) else None))
    case _ => None
  }

  /** The last entry of the list that the filter lets go. */
  predicate OldestEligible(c: Config, es: seq<Entry>, x: Entry) {
    exists i :: 0 <= i < |es| && es[i] == x && Eligible(c, es[i]) && forall j :: i < j < |es| ==> !Eligible(c, es[j])
  }

  predicate Evicts(c: Config, es: seq<Entry>) {
    |es| >= c.minSize && exists x :: x in es && Eligible(c, x)
  }

  /** Does an insertion leave more than the core size? */
  predicate Sweeps(c: Config, es: seq<Entry>) {
    |es| + (if Evicts(c, es) then 0 else 1) > c.coreSize
  }

  predicate Outdated(c: Config, x: Entry, time: int) {
    x.expire.Some? && time > x.expire.value && Eligible(c, x)
  }

  predicate LostToInsertion(c: Config, es: seq<Entry>, x: Entry, sweepTime: int) {
    (|es| >= c.minSize && OldestEligible(c, es, x)) || (Sweeps(c, es) && Outdated(c, x, sweepTime))
  }

  /** Which of the entries before an operation it takes away. */
  predicate Loses(c: Config, es: seq<Entry>, op: Op, x: Entry) {
    match op
    case OpGet(key, _, now, sweepTime) =>
      if HasKey(es, key) then x.key == key && Outdated(c, x, now)
      else Brought(es, op).Some? && LostToInsertion(c, es, x, sweepTime)
    case OpPut(key, _, _, _, sweepTime) =>
      if HasKey(es, key) then x.key == key else LostToInsertion(c, es, x, sweepTime)
    case OpDelete(key) => x.key == key
    case OpClear => true
    case OpCleanExpired(now) => Outdated(c, x, now)
    case OpRemoveEligible => Eligible(c, x)
  }

  /** Is what the operation brings in swept away again at once? */
  predicate SweptAgain(c: Config, es: seq<Entry>, op: Op, x: Entry) {
    (op.OpPut? || op.OpGet?) && !HasKey(es, op.key) && Sweeps(c, es) && Outdated(c, x, op.sweepTime)
  }

  // ---------------------------------------------------------------- membership

  lemma Absent(es: seq<Entry>, key: int)
    ensures HasKey(es, key) <==> IndexOf(es, key) < |es|
  {}

  lemma RemoveAtHolds(es: seq<Entry>, i: nat, x: Entry)
    requires UniqueKeys(es) && i < |es|
    ensures x in RemoveAt(es, i) <==> x in es && x.key != es[i].key
  {
    assert forall j :: 0 <= j < i ==> RemoveAt(es, i)[j] == es[j];
    assert forall j :: i < j < |es| ==> RemoveAt(es, i)[j - 1] == es[j];
  }

  lemma WithoutHolds(es: seq<Entry>, key: int, x: Entry)
    requires UniqueKeys(es)
    ensures x in Without(es, key) <==> x in es && x.key != key
  {
    if IndexOf(es, key) < |es| {
      RemoveAtHolds(es, IndexOf(es, key), x);
    } else {
      AbsentKey(es, key);
    }
  }

  lemma TouchHolds(es: seq<Entry>, key: int, x: Entry)
    requires UniqueKeys(es)
    ensures x in Touch(es, key) <==> x in es
  {
    var i := IndexOf(es, key);
    if i < |es| {
      RemoveAtHolds(es, i, x);
      if x in es && x.key == key {
        var j :| 0 <= j < |es| && es[j] == x;
        assert i == j;
      }
    }
  }

  lemma VictimIsOldestEligible(c: Config, es: seq<Entry>, x: Entry)
    requires UniqueKeys(es) && x in es
    ensures OldestEligible(c, es, x) <==> Victim(c, es) < |es| && x.key == es[Victim(c, es)].key
  {
    var v := Victim(c, es);
    if v < |es| && x.key == es[v].key {
      var j :| 0 <= j < |es| && es[j] == x;
      assert j == v;
    }
  }

  lemma EvictHolds(c: Config, es: seq<Entry>, x: Entry)
    requires UniqueKeys(es)
    ensures x in EvictOldest(c, es) <==> x in es && !OldestEligible(c, es, x)
  {
    if x in es {
      VictimIsOldestEligible(c, es, x);
    }
    if Victim(c, es) < |es| {
      RemoveAtHolds(es, Victim(c, es), x);
    }
  }

  lemma RoomSize(c: Config, es: seq<Entry>)
    ensures |MakeRoom(c, es)| == if Evicts(c, es) then |es| - 1 else |es|
  {
    var v := Victim(c, es);
    if v < |es| {
      assert es[v] in es;
    }
  }

  lemma RoomHolds(c: Config, es: seq<Entry>, x: Entry)
    requires UniqueKeys(es)
    ensures x in MakeRoom(c, es) <==> x in es && !(|es| >= c.minSize && OldestEligible(c, es, x))
  {
    EvictHolds(c, es, x);
  }

  lemma SweepHolds(c: Config, es: seq<Entry>, time: int, x: Entry)
    ensures x in CleanExpired(c, es, time) <==> x in es && !Outdated(c, x, time)
  {
    RetainIsSubsequence(es, Stale(c, time));
  }

  lemma InsertHolds(c: Config, es: seq<Entry>, e: Entry, sweepTime: int, x: Entry)
    requires UniqueKeys(es) && !HasKey(es, e.key)
    ensures x in Insert(c, es, e, sweepTime)
       <==> (if x == e then !(Sweeps(c, es) && Outdated(c, x, sweepTime))
             else x in es && !LostToInsertion(c, es, x, sweepTime))
  {
    var added := [e] + MakeRoom(c, es);
    assert |added| > c.coreSize <==> Sweeps(c, es) by {
      RoomSize(c, es);
    }
    assert x in added <==> x == e || (x in es && !(|es| >= c.minSize && OldestEligible(c, es, x))) by {
      RoomHolds(c, es, x);
    }
    SweepHolds(c, added, sweepTime, x);
  }

  /** Exactly what is cached after any operation on any contents: the entries it does not take away, and
      what it brings in unless that is swept away again. */
  lemma ContentsAfter(c: Config, es: seq<Entry>, op: Op, x: Entry)
    requires UniqueKeys(es)
    ensures x in Apply(c, es, op)
       <==> (x in es && !Loses(c, es, op, x)) || (Brought(es, op) == Some(x) && !SweptAgain(c, es, op, x))
  {
    match op
    case OpGet(key, load, now, sweepTime) => GetHolds(c, es, op, x);
    case OpPut(key, value, expire, now, sweepTime) => PutHolds(c, es, op, x);
    case OpDelete(key) => WithoutHolds(es, key, x);
    case OpClear =>
    case OpCleanExpired(now) => SweepHolds(c, es, now, x);
    case OpRemoveEligible => RetainIsSubsequence(es, Droppable(c));
  }

  lemma PutHolds(c: Config, es: seq<Entry>, op: Op, x: Entry)
    requires UniqueKeys(es) && op.OpPut?
    ensures x in Apply(c, es, op)
       <==> (x in es && !Loses(c, es, op, x)) || (Brought(es, op) == Some(x) && !SweptAgain(c, es, op, x))
  {
    var e := Brought(es, op).value;
    Absent(es, op.key);
    if HasKey(es, op.key) {
      WithoutHolds(es, op.key, x);
    } else {
      InsertHolds(c, es, e, op.sweepTime, x);
      assert x in es ==> x != e;
    }
  }

  lemma GetHolds(c: Config, es: seq<Entry>, op: Op, x: Entry)
    requires UniqueKeys(es) && op.OpGet?
    ensures x in Apply(c, es, op)
       <==> (x in es && !Loses(c, es, op, x)) || (Brought(es, op) == Some(x) && !SweptAgain(c, es, op, x))
  {
    var i := IndexOf(es, op.key);
    Absent(es, op.key);
    if i < |es| {
      TouchHolds(es, op.key, x);
      WithoutHolds(es, op.key, x);
      assert x in es && x.key == op.key ==> x == es[i];
    } else if op.load.Loaded? && op.load.value != Nil {
      var e := Brought(es, op).value;
      InsertHolds(c, es, e, op.sweepTime, x);
      assert x in es ==> x != e;
    }
  }

  // ---------------------------------------------------------------- sizes and runs

  /** Below the minimum size an insertion that does not sweep adds one entry and loses none. */
  lemma GrowsByOne(c: Config, es: seq<Entry>, op: Op)
    requires UniqueKeys(es) && Brought(es, op).Some? && !HasKey(es, op.key)
    requires |es| < c.minSize && |es| < c.coreSize
    ensures |Apply(c, es, op)| == |es| + 1
    ensures forall x :: x in es ==> x in Apply(c, es, op)
  {
    Absent(es, op.key);
    forall x | x in es
      ensures x in Apply(c, es, op)
    {
      ContentsAfter(c, es, op, x);
    }
  }

  predicate NeverLoses(c: Config, es: seq<Entry>, ops: seq<Op>, x: Entry)
    decreases |ops|
  {
    ops == [] || (!Loses(c, es, ops[0], x) && NeverLoses(c, Apply(c, es, ops[0]), ops[1..], x))
  }

  predicate AlwaysHolds(c: Config, es: seq<Entry>, ops: seq<Op>, x: Entry)
    decreases |ops|
  {
    x in es && (ops == [] || AlwaysHolds(c, Apply(c, es, ops[0]), ops[1..], x))
  }

  /** An entry whose key is not put again stays, as it is, through a run if and only if no operation of
      the run takes it away. */
  lemma {:induction false} EntryStays(c: Config, es: seq<Entry>, ops: seq<Op>, x: Entry)
    requires UniqueKeys(es) && x in es && forall i :: 0 <= i < |ops| ==> !(ops[i].OpPut? && ops[i].key == x.key)
    ensures AlwaysHolds(c, es, ops, x) <==> NeverLoses(c, es, ops, x)
    decreases |ops|
  {
    if ops == [] {
    } else {
      ContentsAfter(c, es, ops[0], x);
      ApplyKeepsUnique(c, es, ops[0]);
      assert Brought(es, ops[0]) != Some(x);
      if x in Apply(c, es, ops[0]) {
        EntryStays(c, Apply(c, es, ops[0]), ops[1..], x);
      }
    }
  }
}
