/** The bounded least-recently-used cache from `int` keys to `string` values.

    `Cache` is the abstract state: the stored entries and the recency list,
    most recently used key first. Its member functions say what each operation
    does to that state; the class `LRUCache` keeps the same state in fields and
    changes it step by step, as the hash map and the linked list of the original
    do. The list iterator kept beside each entry is modelled as the position of
    the key in the recency list. */
module LruCache {
  import opened Common
  import opened Trace

  datatype Cache = Cache(capacity: nat, entries: map<int, string>, recency: seq<int>) {

    /** The map and the recency list hold the same keys, each key once, and
        there are at most `capacity` of them. A capacity of zero is excluded:
        a put into an empty cache of capacity zero would evict from an empty list. */
    predicate Valid() {
      && 1 <= capacity
      && NoDup(recency)
      && entries.Keys == Elems(recency)
      && |entries| <= capacity
    }

    /** The least recently used key: the back of the recency list. */
    function Lru(): int
      requires recency != []
    {
      recency[|recency| - 1]
    }

    /** Looks `key` up; a hit makes it the most recently used key. */
    function Get(key: int): (r: (Option<string>, Cache))
      requires Valid()
      ensures r.1.Valid() && r.1.capacity == capacity
      ensures r.0.Some? <==> key in entries
      ensures r.1.entries == entries
      ensures key in entries ==> r.0.value == entries[key] && r.1.recency[0] == key
      ensures key !in entries ==> r.1 == this
    {
      if key in entries then
        (Some(entries[key]), MoveToFront(key))
      else
        (None, this)
    }

    /** Stores `value` under `key` and makes `key` the most recently used one.
        A new key in a full cache first evicts the least recently used key. */
    function Put(key: int, value: string): (r: Cache)
      requires Valid()
      ensures r.Valid() && r.capacity == capacity
      ensures key in r.entries && r.entries[key] == value && r.recency[0] == key
    {
      if key in entries then
        MoveToFront(key).(entries := entries[key := value])
      else if |entries| >= capacity then
        SizeBound(this);
        EvictLru().PushFront(key, value)
      else
        PushFront(key, value)
    }

    /** Drops the least recently used key from the back of the list and the map. */
    function EvictLru(): (r: Cache)
      requires Valid() && recency != []
      ensures r.Valid() && r.capacity == capacity
      ensures r.entries == entries - {Lru()} && Lru() !in r.entries
      ensures r.recency == recency[..|recency| - 1]
    {
      DropLast(recency);
      Cache(capacity, entries - {Lru()}, recency[..|recency| - 1])
    }

    /** Inserts a new key at the front; there must be room for it. */
    function PushFront(key: int, value: string): (r: Cache)
      requires Valid() && key !in entries && |entries| < capacity
      ensures r.Valid() && r.capacity == capacity
      ensures r.entries == entries[key := value] && r.recency == [key] + recency
    {
      ConsNoDup(key, recency);
      assert Elems([key] + recency) == {key} + Elems(recency);
      Cache(capacity, entries[key := value], [key] + recency)
    }

    /** Takes `key` out of the cache; an absent key is a no-op. */
    function Remove(key: int): (r: Cache)
      requires Valid()
      ensures r.Valid() && r.capacity == capacity
      ensures r.entries == entries - {key}
      ensures key !in r.recency
      ensures key !in entries ==> r == this
    {
      if key in entries then
        Cache(capacity, entries - {key}, Without(recency, key))
      else
        this
    }

    /** Moves a stored key to the front of the recency list. */
    function MoveToFront(key: int): (r: Cache)
      requires Valid() && key in entries
      ensures r.Valid() && r.capacity == capacity && r.entries == entries
      ensures r.recency[0] == key
    {
      var rest := Without(recency, key);
      ConsNoDup(key, rest);
      assert Elems([key] + rest) == {key} + Elems(rest);
      Cache(capacity, entries, [key] + rest)
    }
  }

  /** The cache a fresh `LRUCache` starts with. */
  function Empty(capacity: nat): (r: Cache)
    requires 1 <= capacity
    ensures r.Valid() && r.capacity == capacity && |r.entries| == 0
  {
    Cache(capacity, map[], [])
  }

  /** The recency list is exactly as long as the map is large, and both are
      bounded by the capacity. */
  lemma SizeBound(c: Cache)
    requires c.Valid()
    ensures |c.recency| == |c.entries| <= c.capacity
  {
    NoDupCard(c.recency);
    assert |c.entries.Keys| == |c.entries|;
  }

  /** A hit (in `Get` or in `Put` of a stored key) cuts the key out of its
      position and puts it in front; every other key keeps its relative order. */
  lemma MoveToFrontOrder(c: Cache, i: nat)
    requires c.Valid() && i < |c.recency|
    ensures c.recency[i] in c.entries
    ensures c.MoveToFront(c.recency[i]).recency == [c.recency[i]] + (c.recency[..i] + c.recency[i + 1..])
  {
    assert c.recency[i] in Elems(c.recency);
    WithoutAt(c.recency, i);
  }

  /** Removing a stored key cuts it out of the recency list; the others keep
      their relative order. */
  lemma RemoveOrder(c: Cache, i: nat)
    requires c.Valid() && i < |c.recency|
    ensures c.Remove(c.recency[i]).recency == c.recency[..i] + c.recency[i + 1..]
  {
    assert c.recency[i] in Elems(c.recency);
    WithoutAt(c.recency, i);
  }

  /** A hit returns the stored value and moves the key to the front; the other
      keys keep their relative order and every value stays as it was. */
  lemma GetHit(c: Cache, i: nat)
    requires c.Valid() && i < |c.recency|
    ensures c.recency[i] in c.entries
    ensures c.Get(c.recency[i]).0 == Some(c.entries[c.recency[i]])
    ensures c.Get(c.recency[i]).1.entries == c.entries
    ensures c.Get(c.recency[i]).1.recency == [c.recency[i]] + (c.recency[..i] + c.recency[i + 1..])
  {
    MoveToFrontOrder(c, i);
  }

  /** A put of a stored key replaces its value and moves it to the front: no key
      is evicted, the size is unchanged and the other keys keep their order. */
  lemma PutStored(c: Cache, i: nat, value: string)
    requires c.Valid() && i < |c.recency|
    ensures c.Put(c.recency[i], value).entries == c.entries[c.recency[i] := value]
    ensures |c.Put(c.recency[i], value).entries| == |c.entries|
    ensures c.Put(c.recency[i], value).recency == [c.recency[i]] + (c.recency[..i] + c.recency[i + 1..])
  {
    MoveToFrontOrder(c, i);
  }

  /** A put of a new key into a cache with room inserts it in front and evicts
      nothing. */
  lemma PutWithRoom(c: Cache, key: int, value: string)
    requires c.Valid() && key !in c.entries && |c.entries| < c.capacity
    ensures c.Put(key, value).entries == c.entries[key := value]
    ensures |c.Put(key, value).entries| == |c.entries| + 1
    ensures c.Put(key, value).recency == [key] + c.recency
  {
  }

  /** A put of a new key into a full cache evicts exactly the least recently
      used key, the back of the list, and then inserts the new key in front:
      the size stays at capacity and the other keys keep their order. */
  lemma PutWhenFull(c: Cache, key: int, value: string)
    requires c.Valid() && key !in c.entries && |c.entries| >= c.capacity
    ensures c.recency != [] && c.Lru() != key
    ensures c.Put(key, value).entries == (c.entries - {c.Lru()})[key := value]
    ensures c.Lru() !in c.Put(key, value).entries
    ensures |c.Put(key, value).entries| == c.capacity
    ensures c.Put(key, value).recency == [key] + c.recency[..|c.recency| - 1]
  {
    SizeBound(c);
    SizeBound(c.Put(key, value));
  }

  /** A put touches no other key's value and brings in no key but its own. */
  lemma PutChangesOnlyKey(c: Cache, key: int, value: string)
    requires c.Valid()
    ensures forall k :: k in c.Put(key, value).entries && k != key ==>
              k in c.entries && c.Put(key, value).entries[k] == c.entries[k]
  {
    if key in c.entries {
      assert key in Elems(c.recency);
      PutStored(c, IndexOf(c.recency, key), value);
    } else if |c.entries| < c.capacity {
      PutWithRoom(c, key, value);
    } else {
      PutWhenFull(c, key, value);
    }
  }

  /** A key just read is not the next to be evicted, as long as the cache
      has room for at least two keys. */
  lemma GetProtectsFromEviction(c: Cache, key: int, other: int, value: string)
    requires c.Valid() && key in c.entries && other !in c.entries
    requires c.capacity >= 2
    ensures key in c.Get(key).1.Put(other, value).entries
  {
    var touched := c.Get(key).1;
    SizeBound(c);
    SizeBound(touched);
    assert touched.recency[0] == key;
    if |touched.entries| >= touched.capacity {
      assert touched.Lru() == touched.recency[|touched.recency| - 1];
      assert touched.Lru() != key;
    }
  }

  /** Puts every key of `keys`, in order, all with the same value. */
  function PutEach(c: Cache, keys: seq<int>, value: string): (r: Cache)
    requires c.Valid()
    ensures r.Valid() && r.capacity == c.capacity
    decreases |keys|
  {
    if keys == [] then c else PutEach(c.Put(keys[0], value), keys[1..], value)
  }

  /** Putting distinct new keys while there is room evicts nothing: each new key
      goes in front, so the recency list is the keys in reverse order put before
      the old list. */
  lemma {:induction false} FillWithoutEviction(c: Cache, keys: seq<int>, value: string)
    requires c.Valid() && NoDup(keys) && Elems(keys) !! Elems(c.recency)
    requires |c.recency| + |keys| <= c.capacity
    ensures PutEach(c, keys, value).recency == Reverse(keys) + c.recency
    decreases |keys|
  {
    if keys == [] {
      assert Reverse(keys) + c.recency == c.recency;
    } else {
      var k := keys[0];
      var c1 := c.Put(k, value);
      FillStep(c, keys, value);
      FillWithoutEviction(c1, keys[1..], value);
      calc {
        PutEach(c, keys, value).recency;
        PutEach(c1, keys[1..], value).recency;
        Reverse(keys[1..]) + ([k] + c.recency);
        (Reverse(keys[1..]) + [k]) + c.recency;
        Reverse(keys) + c.recency;
      }
    }
  }

  /** One step of `FillWithoutEviction`: the first key goes in front and the
      remaining keys are still new and still fit. */
  lemma FillStep(c: Cache, keys: seq<int>, value: string)
    requires c.Valid() && NoDup(keys) && Elems(keys) !! Elems(c.recency)
    requires keys != [] && |c.recency| + |keys| <= c.capacity
    ensures c.Put(keys[0], value).recency == [keys[0]] + c.recency
    ensures NoDup(keys[1..]) && Elems(keys[1..]) !! Elems(c.Put(keys[0], value).recency)
    ensures |c.Put(keys[0], value).recency| + |keys[1..]| <= c.capacity
  {
    var k := keys[0];
    SizeBound(c);
    assert k !in c.entries by {
      assert k in Elems(keys);
    }
    PutWithRoom(c, k, value);
    HeadNotInTail(keys);
    assert Elems(keys) == {k} + Elems(keys[1..]);
    assert Elems([k] + c.recency) == {k} + Elems(c.recency);
  }

  /** Putting keys one sequence after another is putting their concatenation. */
  lemma {:induction false} PutEachAppend(c: Cache, a: seq<int>, b: seq<int>, value: string)
    requires c.Valid()
    ensures PutEach(c, a + b, value) == PutEach(PutEach(c, a, value), b, value)
    decreases |a|
  {
    if a == [] {
      assert a + b == b;
    } else {
      assert (a + b)[0] == a[0] && (a + b)[1..] == a[1..] + b;
      PutEachAppend(c.Put(a[0], value), a[1..], b, value);
    }
  }

  /** Starting empty, putting `capacity + 1` distinct keys evicts exactly the
      first of them, the one touched longest ago, so a get of it misses; all
      the others stay. */
  lemma OverfillEvictsOldest(capacity: nat, keys: seq<int>, value: string)
    requires 1 <= capacity && NoDup(keys) && |keys| == capacity + 1
    ensures keys[0] !in PutEach(Empty(capacity), keys, value).entries
    ensures PutEach(Empty(capacity), keys, value).Get(keys[0]).0 == None
    ensures forall i :: 1 <= i < |keys| ==> keys[i] in PutEach(Empty(capacity), keys, value).entries
  {
    var first, last := keys[..capacity], keys[capacity];
    assert keys == first + [last];
    PrefixNoDup(keys, capacity);
    FillFromEmpty(capacity, first, value);
    var full := PutEach(Empty(capacity), first, value);
    PutEachAppend(Empty(capacity), first, [last], value);
    assert PutEach(full, [last], value) == full.Put(last, value);
    PutWhenFull(full, last, value);
    forall i | 1 <= i < capacity
      ensures keys[i] in full.entries && keys[i] != keys[0]
    {
      assert At(keys, 0) != At(keys, i);
      assert keys[i] == first[i] && first[i] in Elems(first);
    }
  }

  /** Starting empty, putting exactly `capacity` distinct keys fills the cache,
      and the first key put is the least recently used one. */
  lemma FillFromEmpty(capacity: nat, keys: seq<int>, value: string)
    requires 1 <= capacity && NoDup(keys) && |keys| == capacity
    ensures PutEach(Empty(capacity), keys, value).entries.Keys == Elems(keys)
    ensures |PutEach(Empty(capacity), keys, value).entries| == capacity
    ensures PutEach(Empty(capacity), keys, value).Lru() == keys[0]
  {
    FillWithoutEviction(Empty(capacity), keys, value);
    var full := PutEach(Empty(capacity), keys, value);
    assert full.recency == Reverse(keys);
    SizeBound(full);
    assert Reverse(keys) == Reverse(keys[1..]) + [keys[0]];
  }

  /** The cache object: a hash map from key to value and a recency list,
      updated in place. */
  class LRUCache {
    const capacity: nat
    var cache: map<int, string>
    var lruList: seq<int>

    /** The abstract state held by the fields. */
    function View(): Cache
      reads this
    {
      Cache(capacity, cache, lruList)
    }

    predicate Valid()
      reads this
    {
      View().Valid()
    }

    constructor (cap: nat)
      requires 1 <= cap
      ensures Valid() && View() == Empty(cap)
    {
      capacity := cap;
      cache := map[];
      lruList := [];
    }

    /** On a hit, erases the key from its place in the list, pushes it to the
        front and returns its value; on a miss, changes nothing. */
    method Get(key: int, ghost log: Log) returns (found: bool, value: string)
      requires Valid()
      modifies this, log
      ensures Valid()
      ensures found <==> key in old(cache)
      ensures found ==> value == old(cache)[key]
      ensures View() == old(View()).Get(key).1
      ensures log.steps == old(log.steps) + [CacheLookup(key, found)]
    {
      log.steps := log.steps + [CacheLookup(key, key in cache)];
      if key !in cache {
        return false, "";
      }
      ghost var after := View().Get(key).1;
      assert key in Elems(lruList);
      var pos := IndexOf(lruList, key);
      assert after == Cache(capacity, cache, [key] + (lruList[..pos] + lruList[pos + 1..])) by {
        GetHit(View(), pos);
      }
      lruList := lruList[..pos] + lruList[pos + 1..];
      lruList := [key] + lruList;
      value := cache[key];
      found := true;
    }

    /** Overwrites a stored key and moves it to the front, or evicts the back
        of the list when the cache is full and then inserts the new key in front. */
    method Put(key: int, value: string, ghost log: Log)
      requires Valid()
      modifies this, log
      ensures Valid()
      ensures View() == old(View()).Put(key, value)
      ensures log.steps == old(log.steps) + [CachePut(key, value)]
    {
      log.steps := log.steps + [CachePut(key, value)];
      ghost var after := View().Put(key, value);
      if key in cache {
        assert key in Elems(lruList);
        var pos := IndexOf(lruList, key);
        assert after == Cache(capacity, cache[key := value], [key] + (lruList[..pos] + lruList[pos + 1..])) by {
          PutStored(View(), pos, value);
        }
        lruList := lruList[..pos] + lruList[pos + 1..];
        lruList := [key] + lruList;
        cache := cache[key := value];
        assert View() == after;
      } else if |cache| >= capacity {
        assert after == Cache(capacity, (cache - {lruList[|lruList| - 1]})[key := value], [key] + lruList[..|lruList| - 1]) by {
          PutWhenFull(View(), key, value);
        }
        var lruKey := lruList[|lruList| - 1];
        lruList := lruList[..|lruList| - 1];
        cache := cache - {lruKey};
        lruList := [key] + lruList;
        cache := cache[key := value];
        assert View() == after;
      } else {
        assert after == Cache(capacity, cache[key := value], [key] + lruList) by {
          PutWithRoom(View(), key, value);
        }
        lruList := [key] + lruList;
        cache := cache[key := value];
        assert View() == after;
      }
    }

    /** Erases a stored key from the list and the map; an absent key is a no-op. */
    method Remove(key: int, ghost log: Log)
      requires Valid()
      modifies this, log
      ensures Valid()
      ensures View() == old(View()).Remove(key)
      ensures log.steps == old(log.steps) + [CacheRemove(key)]
    {
      log.steps := log.steps + [CacheRemove(key)];
      if key in cache {
        assert key in Elems(lruList);
        var pos := IndexOf(lruList, key);
        RemoveOrder(View(), pos);
        lruList := lruList[..pos] + lruList[pos + 1..];
        cache := cache - {key};
      }
    }

    /** The number of stored entries, never more than the capacity. */
    method Size() returns (n: nat)
      requires Valid()
      ensures n == |cache| == |lruList|
      ensures n <= capacity
    {
      SizeBound(View());
      n := |cache|;
    }
  }
}
