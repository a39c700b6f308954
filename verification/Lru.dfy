/** cache/cache_mgr.go as operations on one sequence of entries, most recently used first. The class
    in LruCache.dfy refines these; this file proves what they mean. Clock readings and what the
    database hook returns are inputs. */
module Lru {
  import opened Prelude

  /** An interface{} value: nil, or a reference. */
  datatype Value = Nil | Object(handle: int)

  /** `expire` is None for the zero time, which never expires. */
  datatype Entry = Entry(key: int, value: Value, expire: Option<int>)

  /** Says whether an item may be dropped. */
  type Filter = (int, Value) -> bool

  datatype Config = Config(minSize: int, coreSize: int, filter: Option<Filter>)

  /** What the database hook comes to: no hook, an error or nil count as nothing. */
  datatype Load = NotLoaded | Loaded(value: Value, expire: int)

  predicate Eligible(c: Config, e: Entry) {
    c.filter.None? || c.filter.value(e.key, e.value)
  }

  predicate Expired(e: Entry, now: int) {
    e.expire.Some? && now > e.expire.value
  }

  function Deadline(now: int, expire: int): Option<int> {
    if expire > 0 then Some(now + expire) else None
  }

  predicate UniqueKeys(es: seq<Entry>) {
    forall i, j :: 0 <= i < j < |es| ==> es[i].key != es[j].key
  }

  predicate HasKey(es: seq<Entry>, key: int) {
    exists i :: 0 <= i < |es| && es[i].key == key
  }

  function IndexOf(es: seq<Entry>, key: int): (i: nat)
    ensures i <= |es| && (i < |es| ==> es[i].key == key)
    ensures forall j :: 0 <= j < i ==> es[j].key != key
  {
    if es == [] || es[0].key == key then 0 else 1 + IndexOf(es[1..], key)
  }

  function RemoveAt(es: seq<Entry>, i: nat): seq<Entry> {
    if i < |es| then es[..i] + es[i + 1..] else es
  }

  function Without(es: seq<Entry>, key: int): seq<Entry> {
    RemoveAt(es, IndexOf(es, key))
  }

  /** The entry for a key, moved to the front. */
  function Touch(es: seq<Entry>, key: int): seq<Entry> {
    var i := IndexOf(es, key);
    if i < |es| then [es[i]] + RemoveAt(es, i) else es
  }

  /** Everything but the doomed entries, in the same order. */
  function Retain(es: seq<Entry>, doomed: Entry -> bool): seq<Entry> {
    if es == [] then []
    else if doomed(es[0]) then Retain(es[1..], doomed)
    else [es[0]] + Retain(es[1..], doomed)
  }

  function Stale(c: Config, now: int): Entry -> bool {
    e => Expired(e, now) && Eligible(c, e)
  }

  function CleanExpired(c: Config, es: seq<Entry>, now: int): seq<Entry> {
    Retain(es, Stale(c, now))
  }

  function Droppable(c: Config): Entry -> bool {
    e => Eligible(c, e)
  }

  function RemoveEligible(c: Config, es: seq<Entry>): seq<Entry> {
    Retain(es, Droppable(c))
  }

  /** The victim: the index of the last eligible entry, or the length when there is none. */
  function Victim(c: Config, es: seq<Entry>): (i: nat)
    ensures i <= |es|
    ensures i < |es| ==> Eligible(c, es[i]) && forall j :: i < j < |es| ==> !Eligible(c, es[j])
    ensures i == |es| ==> forall j :: 0 <= j < |es| ==> !Eligible(c, es[j])
  {
    if es == [] then 0
    else if Eligible(c, es[|es| - 1]) then |es| - 1
    else
      var i := Victim(c, es[..|es| - 1]);
      if i == |es| - 1 then |es| else i
  }

  function EvictOldest(c: Config, es: seq<Entry>): seq<Entry> {
    RemoveAt(es, Victim(c, es))
  }

  /** From the minimum size on, an insertion evicts one entry first, if it can. */
  function MakeRoom(c: Config, es: seq<Entry>): seq<Entry> {
    if |es| >= c.minSize then EvictOldest(c, es) else es
  }

  /** The common end of Put and of a Get that loads. */
  function Insert(c: Config, es: seq<Entry>, e: Entry, sweepTime: int): seq<Entry> {
    var added := [e] + MakeRoom(c, es);
    if |added| > c.coreSize then CleanExpired(c, added, sweepTime) else added
  }

  function Put(c: Config, es: seq<Entry>, key: int, value: Value, expire: int, now: int, sweepTime: int): seq<Entry> {
    var e := Entry(key, value, Deadline(now, expire));
    if IndexOf(es, key) < |es| then [e] + Without(es, key) else Insert(c, es, e, sweepTime)
  }

  /** The new contents, and the value when the second result of Get is true. */
  function Get(c: Config, es: seq<Entry>, key: int, load: Load, now: int, sweepTime: int): (seq<Entry>, Option<Value>) {
    var i := IndexOf(es, key);
    if i == |es| then
      if load.Loaded? && load.value != Nil then
        (Insert(c, es, Entry(key, load.value, Deadline(now, load.expire)), sweepTime), Some(load.value))
      else (es, None)
    else if Expired(es[i], now) then
      (if Eligible(c, es[i]) then Without(es, key) else es, None)
    else
      (Touch(es, key), Some(es[i].value))
  }

  // ---------------------------------------------------------------- uniqueness of keys

  lemma {:induction false} RetainIsSubsequence(es: seq<Entry>, doomed: Entry -> bool)
    ensures Subsequence(Retain(es, doomed), es) && |Retain(es, doomed)| <= |es|
    ensures forall e :: e in Retain(es, doomed) <==> e in es && !doomed(e)
    ensures UniqueKeys(es) ==> UniqueKeys(Retain(es, doomed))
    decreases |es|
  {
    if es == [] {
    } else {
      RetainIsSubsequence(es[1..], doomed);
      assert es == [es[0]] + es[1..];
      if UniqueKeys(es) {
        forall e | e in Retain(es[1..], doomed)
          ensures e.key != es[0].key
        {
          assert e in es[1..];
        }
      }
    }
  }

  lemma RemoveAtKeepsUnique(es: seq<Entry>, i: nat)
    requires UniqueKeys(es)
    ensures UniqueKeys(RemoveAt(es, i))
    ensures i < |es| ==> !HasKey(RemoveAt(es, i), es[i].key)
  {}

  lemma PrependKeepsUnique(es: seq<Entry>, e: Entry)
    requires UniqueKeys(es) && !HasKey(es, e.key)
    ensures UniqueKeys([e] + es)
  {}

  lemma RoomIsSubset(c: Config, es: seq<Entry>, key: int)
    ensures forall e :: e in MakeRoom(c, es) ==> e in es
    ensures IndexOf(es, key) == |es| ==> !HasKey(MakeRoom(c, es), key)
  {
    forall i | 0 <= i < |MakeRoom(c, es)|
      ensures MakeRoom(c, es)[i] in es
    {
    }
    if i :| 0 <= i < |MakeRoom(c, es)| && MakeRoom(c, es)[i].key == key {
      assert MakeRoom(c, es)[i] in es;
    }
  }

  lemma InsertKeepsUnique(c: Config, es: seq<Entry>, e: Entry, sweepTime: int)
    requires UniqueKeys(es) && !HasKey(es, e.key)
    ensures UniqueKeys(Insert(c, es, e, sweepTime))
  {
    RemoveAtKeepsUnique(es, Victim(c, es));
    RoomIsSubset(c, es, e.key);
    PrependKeepsUnique(MakeRoom(c, es), e);
    RetainIsSubsequence([e] + MakeRoom(c, es), Stale(c, sweepTime));
  }

  // ---------------------------------------------------------------- filters, one key at a time

  function KeyIn(keys: set<int>): Entry -> bool {
    (e: Entry) => e.key in keys
  }

  lemma {:induction false} RetainAgrees(es: seq<Entry>, p: Entry -> bool, q: Entry -> bool)
    requires forall e :: e in es ==> p(e) == q(e)
    ensures Retain(es, p) == Retain(es, q)
    decreases |es|
  {
    if es == [] {
    } else {
      assert es[0] in es && forall e :: e in es[1..] ==> e in es;
      RetainAgrees(es[1..], p, q);
    }
  }

  lemma {:induction false} RetainAll(es: seq<Entry>, p: Entry -> bool)
    requires forall e :: e in es ==> !p(e)
    ensures Retain(es, p) == es
    decreases |es|
  {
    if es == [] {
    } else {
      assert es[0] in es && forall e :: e in es[1..] ==> e in es;
      RetainAll(es[1..], p);
    }
  }

  /** Removing one more key from what is left is the same as dooming it from the start. */
  lemma {:induction false} RetainOneMore(es: seq<Entry>, keys: set<int>, key: int)
    requires UniqueKeys(es) && key !in keys
    ensures Without(Retain(es, KeyIn(keys)), key) == Retain(es, KeyIn(keys + {key}))
    decreases |es|
  {
    if es == [] {
    } else if es[0].key == key {
      RetainAgrees(es[1..], KeyIn(keys), KeyIn(keys + {key}));
      assert Retain(es, KeyIn(keys))[1..] == Retain(es[1..], KeyIn(keys));
    } else {
      RetainOneMore(es[1..], keys, key);
      if es[0].key !in keys {
        ConsWithout(es[0], Retain(es[1..], KeyIn(keys)), key);
      }
    }
  }

  lemma ConsWithout(e: Entry, rest: seq<Entry>, key: int)
    requires e.key != key
    ensures Without([e] + rest, key) == [e] + Without(rest, key)
  {
    assert ([e] + rest)[1..] == rest;
  }

  lemma WithoutShrinks(es: seq<Entry>, key: int)
    ensures |Without(es, key)| == if HasKey(es, key) then |es| - 1 else |es|
  {}

  /** Part of a sweep in some order: of the keys already visited, the doomed ones are gone. */
  ghost predicate Swept(es: seq<Entry>, doomed: Entry -> bool, remaining: set<int>, gone: set<int>) {
    && remaining !! gone
    && (forall e :: e in es && e.key in gone ==> doomed(e))
    && (forall e :: e in es && e.key !in remaining && e.key !in gone ==> !doomed(e))
  }

  lemma SweepStep(es: seq<Entry>, doomed: Entry -> bool, remaining: set<int>, gone: set<int>, e: Entry)
    requires UniqueKeys(es) && e in es && e.key in remaining && Swept(es, doomed, remaining, gone)
    ensures Swept(es, doomed, remaining - {e.key}, if doomed(e) then gone + {e.key} else gone)
  {}

  lemma SweepDone(es: seq<Entry>, doomed: Entry -> bool, gone: set<int>)
    requires Swept(es, doomed, {}, gone)
    ensures Retain(es, KeyIn(gone)) == Retain(es, doomed)
  {
    RetainAgrees(es, KeyIn(gone), doomed);
  }

  /** Replacing an entry in place and moving it up is putting the new one in front of the rest. */
  lemma TouchReplaced(es: seq<Entry>, i: nat, e: Entry)
    requires UniqueKeys(es) && i < |es| && es[i].key == e.key
    ensures Touch(es[i := e], e.key) == [e] + Without(es, e.key)
  {
    var fs := es[i := e];
    assert fs[i].key == e.key && forall j :: 0 <= j < i ==> fs[j] == es[j];
    assert IndexOf(es, e.key) == i == IndexOf(fs, e.key);
  }

  lemma AbsentKey(es: seq<Entry>, key: int)
    ensures IndexOf(es, key) == |es| <==> forall e :: e in es ==> e.key != key
  {}

  lemma RetainNoMore(es: seq<Entry>, keys: set<int>, key: int)
    requires IndexOf(Retain(es, KeyIn(keys)), key) == |Retain(es, KeyIn(keys))|
    ensures Retain(es, KeyIn(keys)) == Retain(es, KeyIn(keys + {key}))
  {
    RetainIsSubsequence(es, KeyIn(keys));
    forall e | e in es
      ensures KeyIn(keys)(e) == KeyIn(keys + {key})(e)
    {
      AbsentKey(Retain(es, KeyIn(keys)), key);
    }
    RetainAgrees(es, KeyIn(keys), KeyIn(keys + {key}));
  }
}
