/** cache/cache_mgr.go: the map and the list of the cache, changed in place. Each method is proved
    against the operation of the same name on the sequence of entries. container/list is a sequence
    of element objects here; Go's map iteration order is an arbitrary choice at every step. */
module LruCache {
  import opened Lru
  import opened Prelude

  /** list.Element: the back-pointer from the list to the item it holds. */
  class Element {
    const item: CacheItem

    constructor (item: CacheItem)
      ensures this.item == item
    {
      this.item := item;
    }
  }

  class CacheItem {
    const key: int
    var value: Value
    var expireTime: Option<int>
    var element: Element?

    constructor (key: int, value: Value, expireTime: Option<int>)
      ensures this.key == key && this.value == value && this.expireTime == expireTime
    {
      this.key, this.value, this.expireTime, this.element := key, value, expireTime, null;
    }

    function AsEntry(): Entry
      reads this
    {
      Entry(key, value, expireTime)
    }
  }

  /** An element and the item it holds point at each other, and the map knows the item. */
  ghost predicate Linked(items: map<int, CacheItem>, e: Element)
    reads items.Values
  {
    e.item.key in items && items[e.item.key] == e.item && e.item.element == e
  }

  ghost predicate DistinctKeys(order: seq<Element>) {
    forall i, j :: 0 <= i < j < |order| ==> order[i].item.key != order[j].item.key
  }

  /** The map and the list hold the same items, each item once. */
  ghost predicate Agree(items: map<int, CacheItem>, order: seq<Element>)
    reads items.Values
  {
    && (forall k :: k in items ==> items[k].key == k)
    && (forall i :: 0 <= i < |order| ==> Linked(items, order[i]))
    && DistinctKeys(order)
    && |items| == |order|
  }

  /** The contents, in list order. */
  ghost function Contents(items: map<int, CacheItem>, order: seq<Element>): (es: seq<Entry>)
    requires Agree(items, order)
    reads items.Values
    ensures |es| == |order| && UniqueKeys(es)
    ensures forall i :: 0 <= i < |es| ==> Linked(items, order[i]) && es[i] == items[order[i].item.key].AsEntry()
  {
    seq(|order|, i requires 0 <= i < |order| && Linked(items, order[i]) reads items.Values =>
      items[order[i].item.key].AsEntry())
  }

  ghost function OrderKeys(order: seq<Element>): set<int> {
    set i | 0 <= i < |order| :: order[i].item.key
  }

  lemma {:induction false} OrderKeysCount(order: seq<Element>)
    requires DistinctKeys(order)
    ensures |OrderKeys(order)| == |order|
    decreases |order|
  {
    if order != [] {
      var n := |order| - 1;
      OrderKeysCount(order[..n]);
      assert OrderKeys(order) == OrderKeys(order[..n]) + {order[n].item.key};
      assert order[n].item.key !in OrderKeys(order[..n]);
    }
  }

  lemma SubsetOfSameSize<T>(a: set<T>, b: set<T>)
    requires a <= b && |a| == |b|
    ensures a == b
  {
    assert b == a + (b - a);
    assert |b| == |a| + |b - a|;
  }

  /** Every key of the map is in the list, where its item's element says. */
  lemma FindInOrder(items: map<int, CacheItem>, order: seq<Element>, key: int) returns (i: nat)
    requires Agree(items, order)
    ensures i == IndexOf(Contents(items, order), key) && (key in items <==> i < |order|)
    ensures key in items ==> order[i] == items[key].element && order[i].item == items[key]
  {
    OrderKeysCount(order);
    assert OrderKeys(order) <= items.Keys;
    SubsetOfSameSize(OrderKeys(order), items.Keys);
    i := IndexOf(Contents(items, order), key);
    if key in items {
      assert key in OrderKeys(order);
      var j :| 0 <= j < |order| && order[j].item.key == key;
      assert Contents(items, order)[j].key == key;
    }
  }

  lemma DropAgrees(items: map<int, CacheItem>, order: seq<Element>, i: nat)
    requires Agree(items, order) && i < |order|
    ensures var key := order[i].item.key;
      && Agree(items - {key}, order[..i] + order[i + 1..])
      && Contents(items - {key}, order[..i] + order[i + 1..]) == Without(Contents(items, order), key)
  {
    var key := order[i].item.key;
    var items', order' := items - {key}, order[..i] + order[i + 1..];
    var at := FindInOrder(items, order, key);
    assert Contents(items, order)[i].key == key;
    assert items'.Keys == items.Keys - {key};
    assert |items'.Keys| == |items'|;
    forall j | 0 <= j < |order'|
      ensures Linked(items', order'[j])
    {
      assert Linked(items, order'[j]);
    }
  }

  function Raised<T>(s: seq<T>, i: nat): seq<T>
    requires i < |s|
  {
    [s[i]] + (s[..i] + s[i + 1..])
  }

  /** Where the elements of a raised sequence come from. */
  lemma RaisedFrom<T>(s: seq<T>, i: nat)
    requires i < |s|
    ensures |Raised(s, i)| == |s| && Raised(s, i)[0] == s[i]
    ensures forall j :: 1 <= j <= i ==> Raised(s, i)[j] == s[j - 1]
    ensures forall j :: i < j < |s| ==> Raised(s, i)[j] == s[j]
  {}

  lemma RaiseKeepsLinks(items: map<int, CacheItem>, order: seq<Element>, i: nat)
    requires Agree(items, order) && i < |order|
    ensures Agree(items, Raised(order, i))
  {
    RaisedFrom(order, i);
    var order' := Raised(order, i);
    forall j | 0 <= j < |order'|
      ensures Linked(items, order'[j])
    {
      assert order'[j] == if j == 0 then order[i] else if j <= i then order[j - 1] else order[j];
    }
  }

  lemma RaiseAgrees(items: map<int, CacheItem>, order: seq<Element>, i: nat)
    requires Agree(items, order) && i < |order|
    ensures Agree(items, Raised(order, i))
    ensures var es := Contents(items, order); Contents(items, Raised(order, i)) == [es[i]] + RemoveAt(es, i)
  {
    RaiseKeepsLinks(items, order, i);
    RaisedFrom(order, i);
    RaisedFrom(Contents(items, order), i);
  }

  lemma PushAgrees(items: map<int, CacheItem>, order: seq<Element>, e: Element)
    requires Agree(items, order) && e.item.key !in items && e.item.element == e
    ensures var items', order' := items[e.item.key := e.item], [e] + order;
      Agree(items', order') && Contents(items', order') == [e.item.AsEntry()] + Contents(items, order)
  {
    var items', order' := items[e.item.key := e.item], [e] + order;
    forall i | 0 <= i < |order'|
      ensures Linked(items', order'[i])
    {
      assert i > 0 ==> Linked(items, order'[i]);
    }
  }

  lemma MinusOneMore<V>(m: map<int, V>, gone: set<int>, key: int)
    ensures (m - gone) - {key} == m - (gone + {key})
  {}

  /** The next key of a map range: any one not visited yet. */
  method AnyOf<T>(keys: set<T>) returns (key: T)
    requires keys != {}
    ensures key in keys
  {
    key :| key in keys;
  }

  class LRUCache {
    const config: Config
    var items: map<int, CacheItem>
    var accessOrder: seq<Element>

    ghost predicate Valid()
      reads this, items.Values
    {
      Agree(items, accessOrder)
    }

    ghost function Entries(): seq<Entry>
      requires Valid()
      reads this, items.Values
    {
      Contents(items, accessOrder)
    }

    constructor (config: Config)
      ensures Valid() && Entries() == [] && this.config == config
    {
      this.config, items, accessOrder := config, map[], [];
    }

    /** accessOrder.Remove and delete from the map. */
    method RemoveItem(item: CacheItem)
      requires Valid() && item.key in items && items[item.key] == item
      modifies `items, `accessOrder
      ensures Valid() && Entries() == Without(old(Entries()), item.key)
      ensures items == old(items) - {item.key}
    {
      var i := Locate(item);
      DropAgrees(items, accessOrder, i);
      accessOrder := accessOrder[..i] + accessOrder[i + 1..];
      items := items - {item.key};
    }

    method MoveToFront(item: CacheItem)
      requires Valid() && item.key in items && items[item.key] == item
      modifies `accessOrder
      ensures Valid() && Entries() == Touch(old(Entries()), item.key)
    {
      var i := Locate(item);
      RaiseAgrees(items, accessOrder, i);
      accessOrder := Raised(accessOrder, i);
    }

    /** The list position of an item's element. */
    method Locate(item: CacheItem) returns (i: nat)
      requires Valid() && item.key in items && items[item.key] == item
      ensures i < |accessOrder| && accessOrder[i] == item.element && accessOrder[i].item == item
      ensures i == IndexOf(Entries(), item.key)
    {
      ghost var at := FindInOrder(items, accessOrder, item.key);
      i :| 0 <= i < |accessOrder| && accessOrder[i] == item.element;
      assert accessOrder[i].item.key == accessOrder[at].item.key;
    }

    /** The filter lets the item go, as it does every item when there is none. */
    predicate Lets(item: CacheItem)
      reads item
    {
      config.filter.None? || config.filter.value(item.key, item.value)
    }

    /** The entry at `i`, if eligible with nothing eligible behind it, is the one to evict. */
    lemma VictimFound(es: seq<Entry>, i: nat)
      requires Valid() && es == Entries() && i < |es|
      requires forall j :: i < j < |es| ==> !Eligible(config, es[j])
      ensures accessOrder[i].item.key in items && items[accessOrder[i].item.key] == accessOrder[i].item
      ensures es[i] == accessOrder[i].item.AsEntry() && IndexOf(es, es[i].key) == i
      ensures Eligible(config, es[i]) ==> Victim(config, es) == i
    {}

    /** From the back of the list, remove the first item the filter lets go. */
    method EvictOldestEligible() returns (evicted: bool)
      requires Valid()
      modifies `items, `accessOrder
      ensures Valid() && Entries() == EvictOldest(config, old(Entries()))
      ensures evicted <==> |Entries()| < old(|Entries()|)
      ensures items.Keys <= old(items).Keys
    {
      if |items| == 0 {
        return false;
      }
      ghost var es := Entries();
      var i := |accessOrder|;
      while i > 0
        invariant 0 <= i <= |accessOrder| && Valid() && Entries() == es && |es| == |accessOrder|
        invariant items == old(items)
        invariant forall j :: i <= j < |es| ==> !Eligible(config, es[j])
      {
        i := i - 1;
        var item := accessOrder[i].item;
        VictimFound(es, i);
        if Lets(item) {
          RemoveItem(item);
          return true;
        }
      }
      evicted := false;
    }

    /** The item under a key is the entry with that key. */
    lemma ItemIsEntry(key: int)
      requires Valid() && key in items
      ensures items[key].AsEntry() in Entries() && items[key].key == key
      ensures HasKey(Entries(), key)
    {
      var i := FindInOrder(items, accessOrder, key);
      assert Entries()[i] == items[key].AsEntry();
    }

    lemma EveryEntryHasItem()
      requires Valid()
      ensures forall e :: e in Entries() ==> e.key in items && items[e.key].AsEntry() == e
    {}

    /** One turn of the loop in cleanExpiredEligible. The ghosts say how far the sweep has got. */
    method CleanOne(key: int, now: int, ghost es: seq<Entry>, ghost remaining: set<int>, ghost gone: set<int>)
      returns (dropped: bool)
      requires Valid() && key in items && key in remaining
      requires UniqueKeys(es) && Entries() == Retain(es, KeyIn(gone)) && Swept(es, Stale(config, now), remaining, gone)
      modifies `items, `accessOrder
      ensures Valid() && items == if dropped then old(items) - {key} else old(items)
      ensures var gone' := if dropped then gone + {key} else gone;
        Entries() == Retain(es, KeyIn(gone')) && Swept(es, Stale(config, now), remaining - {key}, gone')
      ensures |Entries()| == old(|Entries()|) - (if dropped then 1 else 0)
    {
      var item := items[key];
      ItemIsEntry(key);
      RetainIsSubsequence(es, KeyIn(gone));
      SweepStep(es, Stale(config, now), remaining, gone, item.AsEntry());
      dropped := item.expireTime.Some? && now > item.expireTime.value && Lets(item);
      if dropped {
        RetainOneMore(es, gone, key);
        WithoutShrinks(Entries(), key);
        RemoveItem(item);
      }
    }

    /** Range over the map in any order, deleting on the way. */
    method CleanExpiredEligible(now: int) returns (cleaned: nat)
      requires Valid()
      modifies `items, `accessOrder
      ensures Valid() && Entries() == CleanExpired(config, old(Entries()), now)
      ensures cleaned == old(|Entries()|) - |Entries()|
      ensures items.Keys <= old(items).Keys
    {
      ghost var es := Entries();
      ghost var gone: set<int> := {};
      var remaining := items.Keys;
      cleaned := 0;
      RetainAll(es, KeyIn({}));
      EveryEntryHasItem();
      while remaining != {}
        invariant Valid() && Entries() == Retain(es, KeyIn(gone)) && UniqueKeys(es)
        invariant items == old(items) - gone && remaining <= items.Keys
        invariant Swept(es, Stale(config, now), remaining, gone)
        invariant cleaned == |es| - |Entries()|
        decreases remaining
      {
        var key := AnyOf(remaining);
        var dropped := CleanOne(key, now, es, remaining, gone);
        if dropped {
          MinusOneMore(old(items), gone, key);
          gone := gone + {key};
          cleaned := cleaned + 1;
        }
        remaining := remaining - {key};
      }
      SweepDone(es, Stale(config, now), gone);
    }

    /** Push a new item to the front and put it in the map. */
    method AddItem(key: int, value: Value, expireTime: Option<int>)
      requires Valid() && key !in items
      modifies `items, `accessOrder
      ensures Valid() && Entries() == [Entry(key, value, expireTime)] + old(Entries())
    {
      var item := new CacheItem(key, value, expireTime);
      var element := new Element(item);
      item.element := element;
      PushAgrees(items, accessOrder, element);
      accessOrder := [element] + accessOrder;
      items := items[key := item];
    }

    /** What Put and a loading Get have in common: make room, add, tidy up above the core size. */
    method InsertNew(key: int, value: Value, expire: int, now: int, sweepTime: int)
      requires Valid() && key !in items
      modifies `items, `accessOrder
      ensures Valid()
      ensures Entries() == Insert(config, old(Entries()), Entry(key, value, Deadline(now, expire)), sweepTime)
    {
      if |items| >= config.minSize {
        var evicted := EvictOldestEligible();
      }
      var expireTime := None;
      if expire > 0 {
        expireTime := Some(now + expire);
      }
      AddItem(key, value, expireTime);
      if |items| > config.coreSize {
        var cleaned := CleanExpiredEligible(sweepTime);
      }
    }

    /** Change an item in place. */
    method Overwrite(item: CacheItem, value: Value, expireTime: Option<int>)
      requires Valid() && item.key in items && items[item.key] == item
      modifies item`value, item`expireTime
      ensures Valid()
      ensures var i := IndexOf(old(Entries()), item.key);
        i < |old(Entries())| && Entries() == old(Entries())[i := Entry(item.key, value, expireTime)]
    {
      ghost var i := FindInOrder(items, accessOrder, item.key);
      item.value := value;
      item.expireTime := expireTime;
    }

    method Put(key: int, value: Value, expire: int, now: int, sweepTime: int)
      requires Valid()
      modifies this, items.Values
      ensures Valid() && Entries() == Lru.Put(config, old(Entries()), key, value, expire, now, sweepTime)
    {
      ghost var es := Entries();
      ghost var i := FindInOrder(items, accessOrder, key);
      if key in items {
        var item := items[key];
        Overwrite(item, value, if expire > 0 then Some(now + expire) else None);
        TouchReplaced(es, i, Entry(key, value, Deadline(now, expire)));
        MoveToFront(item);
        return;
      }
      InsertNew(key, value, expire, now, sweepTime);
    }

    /** `load` is what the database hook would return. */
    method Get(key: int, load: Load, now: int, sweepTime: int) returns (value: Value, ok: bool)
      requires Valid()
      modifies `items, `accessOrder
      ensures Valid()
      ensures (Entries(), if ok then Some(value) else None) == Lru.Get(config, old(Entries()), key, load, now, sweepTime)
      ensures !ok ==> value == Nil
    {
      ghost var i := FindInOrder(items, accessOrder, key);
      if key !in items {
        if load.Loaded? && load.value != Nil {
          InsertNew(key, load.value, load.expire, now, sweepTime);
          return load.value, true;
        }
        return Nil, false;
      }
      var item := items[key];
      if item.expireTime.Some? && now > item.expireTime.value {
        if Lets(item) {
          RemoveItem(item);
        }
        return Nil, false;
      }
      MoveToFront(item);
      return item.value, true;
    }

    method Delete(key: int) returns (found: bool)
      requires Valid()
      modifies `items, `accessOrder
      ensures Valid() && Entries() == Without(old(Entries()), key)
      ensures found <==> old(HasKey(Entries(), key))
    {
      ghost var i := FindInOrder(items, accessOrder, key);
      found := key in items;
      if found {
        RemoveItem(items[key]);
      }
    }

    method Clear()
      modifies `items, `accessOrder
      ensures Valid() && Entries() == []
    {
      items, accessOrder := map[], [];
    }

    method Len() returns (n: nat)
      requires Valid()
      ensures n == |Entries()|
    {
      n := |items|;
    }

    /** The first loop of RemoveEligible: range over the map in any order and note the keys. */
    method CollectEligible() returns (toRemove: seq<int>)
      requires Valid()
      ensures forall e :: e in Entries() ==> (e.key in toRemove <==> Eligible(config, e))
    {
      toRemove := [];
      var remaining := items.Keys;
      EveryEntryHasItem();
      while remaining != {}
        invariant remaining <= items.Keys
        invariant forall k :: k in toRemove ==> k in items && k !in remaining
        invariant forall k :: k in items && k !in remaining ==> (k in toRemove <==> Lets(items[k]))
        decreases remaining
      {
        var key := AnyOf(remaining);
        remaining := remaining - {key};
        if Lets(items[key]) {
          toRemove := toRemove + [key];
        }
      }
    }

    /** One turn of the second loop. */
    method RemoveNoted(key: int, ghost es: seq<Entry>, ghost gone: set<int>) returns (dropped: bool)
      requires Valid() && UniqueKeys(es) && Entries() == Retain(es, KeyIn(gone))
      modifies `items, `accessOrder
      ensures Valid() && Entries() == Retain(es, KeyIn(gone + {key}))
      ensures |Entries()| == old(|Entries()|) - (if dropped then 1 else 0)
    {
      ghost var at := FindInOrder(items, accessOrder, key);
      dropped := key in items;
      if dropped {
        RetainIsSubsequence(es, KeyIn(gone));
        assert Entries()[at] in Entries();
        RetainOneMore(es, gone, key);
        WithoutShrinks(Entries(), key);
        RemoveItem(items[key]);
      } else {
        RetainNoMore(es, gone, key);
      }
    }

    /** Collect the keys first, then remove them one by one. */
    method RemoveEligible() returns (removed: nat)
      requires Valid()
      modifies `items, `accessOrder
      ensures Valid() && Entries() == Lru.RemoveEligible(config, old(Entries()))
      ensures removed == old(|Entries()|) - |Entries()|
    {
      ghost var es := Entries();
      var toRemove := CollectEligible();
      removed := 0;
      ghost var gone: set<int> := {};
      RetainAll(es, KeyIn(gone));
      for i := 0 to |toRemove|
        invariant Valid() && Entries() == Retain(es, KeyIn(gone)) && UniqueKeys(es)
        invariant gone == set j | 0 <= j < i :: toRemove[j]
        invariant removed == |es| - |Entries()|
      {
        var dropped := RemoveNoted(toRemove[i], es, gone);
        gone := gone + {toRemove[i]};
        if dropped {
          removed := removed + 1;
        }
      }
      RetainAgrees(es, KeyIn(gone), Droppable(config));
    }
  }
}
