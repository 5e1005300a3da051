/** The least-recently-used cache: a bounded map from keys to stored values
    together with a recency queue whose front is the most recently inserted
    or renewed key and whose back is the next key to evict. */
module Cache {
  import opened Types

  datatype Option<T> = None | Some(value: T)

  /** The observable state of an LRU_cache: its capacity (cache_size_), the
      recency queue (lru_queue_, front first) and the stored values
      (cache_map_). */
  datatype CacheState<K, V> = CacheState(capacity: nat, queue: seq<K>, entries: map<K, V>)

  /** The queue lists every stored key exactly once. */
  predicate Paired<K(==), V>(c: CacheState<K, V>)
  {
    && Distinct(c.queue)
    && (forall k :: k in c.queue ==> k in c.entries)
    && (forall k :: k in c.entries ==> k in c.queue)
    && |c.entries| == |c.queue|
  }

  /** The invariant the cache keeps: queue and map agree, and no more keys
      are stored than the capacity allows. */
  predicate Coherent<K(==), V>(c: CacheState<K, V>)
  {
    Paired(c) && |c.queue| <= c.capacity
  }

  /** Evict the key at the back of the queue. */
  function DropBack<K(==), V>(c: CacheState<K, V>): (r: CacheState<K, V>)
    requires |c.queue| > 0
    ensures r.capacity == c.capacity && r.queue == c.queue[..|c.queue| - 1]
    ensures r.entries.Keys == c.entries.Keys - {c.queue[|c.queue| - 1]}
    ensures forall k :: k in r.entries ==> r.entries[k] == c.entries[k]
  {
    var back := c.queue[|c.queue| - 1];
    CacheState(c.capacity, c.queue[..|c.queue| - 1], c.entries - {back})
  }

  lemma DropBackPaired<K, V>(c: CacheState<K, V>)
    requires Paired(c) && |c.queue| > 0
    ensures Paired(DropBack(c))
  {
    var q := c.queue;
    var back := q[|q| - 1];
    DropBackKeys(q);
    assert back in c.entries;
    assert |(c.entries - {back}).Keys| == |c.entries.Keys - {back}|;
  }

  /** The queue without its back holds every key of the queue but the back
      one, each once. */
  lemma DropBackKeys<K>(q: seq<K>)
    requires Distinct(q) && |q| > 0
    ensures Distinct(q[..|q| - 1])
    ensures forall k :: k in q[..|q| - 1] <==> k in q && k != q[|q| - 1]
  {
    var front := q[..|q| - 1];
    forall k | k in front ensures k != q[|q| - 1] {
      var i :| 0 <= i < |front| && front[i] == k;
      assert q[i] == k;
    }
    forall k | k in q && k != q[|q| - 1] ensures k in front {
      var i :| 0 <= i < |q| && q[i] == k;
      assert front[i] == k;
    }
  }

  /** q with the key k taken out (k occurs once). */
  function Without<K(==)>(q: seq<K>, k: K): (r: seq<K>)
    ensures |r| <= |q|
    ensures forall x :: x in r ==> x in q && x != k
    ensures forall x :: x in q && x != k ==> x in r
  {
    if q == [] then []
    else if q[0] == k then Without(q[1..], k)
    else [q[0]] + Without(q[1..], k)
  }

  /** Taking a key out of a queue without repeats leaves a queue without
      repeats, one shorter when the key was there. */
  lemma {:induction false} WithoutDistinct<K>(q: seq<K>, k: K)
    requires Distinct(q)
    ensures Distinct(Without(q, k))
    ensures k in q ==> |Without(q, k)| == |q| - 1
  {
    if q != [] {
      WithoutDistinct(q[1..], k);
      if q[0] == k {
        WithoutAbsent(q[1..], k);
      } else {
        assert q[0] !in Without(q[1..], k);
      }
    }
  }

  /** renew: move a stored key to the front of the queue. */
  function RenewSpec<K(==), V>(c: CacheState<K, V>, k: K): (r: CacheState<K, V>)
    requires k in c.entries
  {
    CacheState(c.capacity, [k] + Without(c.queue, k), c.entries)
  }

  /** Renewing a key keeps the invariant, stores nothing new, puts the key in
      front and keeps the others in their order: the new queue is a
      rearrangement of the old one. */
  lemma {:induction false} RenewRearranges<K, V>(c: CacheState<K, V>, k: K)
    requires Coherent(c) && k in c.entries
    ensures var r := RenewSpec(c, k);
      && Coherent(r) && r.entries == c.entries && r.queue[0] == k
      && multiset(r.queue) == multiset(c.queue)
  {
    WithoutMultiset(c.queue, k);
    WithoutDistinct(c.queue, k);
    assert Distinct([k] + Without(c.queue, k));
  }

  lemma {:induction false} WithoutMultiset<K>(q: seq<K>, k: K)
    requires Distinct(q) && k in q
    ensures multiset([k] + Without(q, k)) == multiset(q)
  {
    if q[0] == k {
      assert k !in q[1..];
      WithoutAbsent(q[1..], k);
      assert q == [k] + q[1..];
    } else {
      WithoutMultiset(q[1..], k);
      calc {
        multiset([k] + Without(q, k));
        multiset([k] + ([q[0]] + Without(q[1..], k)));
        multiset([q[0]]) + multiset([k] + Without(q[1..], k));
        multiset([q[0]]) + multiset(q[1..]);
        { assert q == [q[0]] + q[1..]; }
        multiset(q);
      }
    }
  }

  lemma {:induction false} WithoutAbsent<K>(q: seq<K>, k: K)
    requires k !in q
    ensures Without(q, k) == q
  {
    if q != [] {
      WithoutAbsent(q[1..], k);
    }
  }

  /** insert as the source writes it: with capacity 0 nothing happens;
      otherwise, when as many values are stored as the capacity allows, the
      key at the back of the queue is erased and popped, and then the value
      is stored under the key and the key pushed at the front. */
  function InsertAsWritten<K(==), V>(c: CacheState<K, V>, k: K, v: V): (r: CacheState<K, V>)
  {
    if c.capacity == 0 then c
    else
      var d := if |c.entries| >= c.capacity && |c.queue| > 0 then DropBack(c) else c;
      CacheState(c.capacity, [k] + d.queue, d.entries[k := v])
  }

  /** insert with a key that is already stored renews it and replaces its
      value instead of pushing a second copy of the key; for a new key it is
      the source's insert. */
  function InsertSpec<K(==), V>(c: CacheState<K, V>, k: K, v: V): (r: CacheState<K, V>)
  {
    if c.capacity == 0 then c
    else if k in c.entries then
      CacheState(c.capacity, [k] + Without(c.queue, k), c.entries[k := v])
    else InsertAsWritten(c, k, v)
  }

  /** Inserting keeps the invariant; with capacity 0 nothing changes, and
      otherwise the key is stored with its value at the front of the queue. */
  lemma {:induction false} InsertKeepsCoherent<K, V>(c: CacheState<K, V>, k: K, v: V)
    requires Coherent(c)
    ensures var r := InsertSpec(c, k, v);
      && Coherent(r)
      && (c.capacity == 0 ==> r == c)
      && (c.capacity > 0 ==> r.queue[0] == k && k in r.entries && r.entries[k] == v)
  {
    if c.capacity > 0 {
      if k in c.entries {
        RenewRearranges(c, k);
      } else {
        var d := if |c.entries| >= c.capacity && |c.queue| > 0 then DropBack(c) else c;
        if |c.entries| >= c.capacity {
          DropBackPaired(c);
        }
        assert k !in d.queue;
        assert Distinct([k] + d.queue);
      }
    }
  }

  /** A new key goes in without eviction while there is room; when the cache
      is full exactly the key at the back of the queue is evicted, and every
      other stored value stays. */
  lemma {:induction false} InsertEvictsBack<K, V>(c: CacheState<K, V>, k: K, v: V)
    requires Coherent(c) && c.capacity > 0 && k !in c.entries
    ensures var r := InsertSpec(c, k, v);
      && (|c.entries| < c.capacity ==> r.entries.Keys == c.entries.Keys + {k})
      && (|c.entries| == c.capacity ==>
            r.entries.Keys == c.entries.Keys - {c.queue[|c.queue| - 1]} + {k})
      && (forall x :: x in r.entries && x != k ==> r.entries[x] == c.entries[x])
  {
  }

  /** set_cache_size's eviction loop: pop from the back while more values are
      stored than the capacity. */
  function EvictTo<K(==), V>(c: CacheState<K, V>): (r: CacheState<K, V>)
    requires Paired(c)
    decreases |c.queue|
  {
    if |c.entries| > c.capacity then
      DropBackPaired(c);
      EvictTo(DropBack(c))
    else c
  }

  /** set_cache_size(n): the new capacity, then eviction down to it. */
  function Resize<K(==), V>(c: CacheState<K, V>, n: nat): (r: CacheState<K, V>)
    requires Paired(c)
  {
    EvictTo(CacheState(n, c.queue, c.entries))
  }

  /** Resizing keeps exactly the n most recently used keys, with their
      values, and leaves a cache within its new capacity. */
  lemma {:induction false} ResizeKeepsMostRecent<K, V>(c: CacheState<K, V>, n: nat)
    requires Paired(c)
    ensures var r := Resize(c, n);
      && Coherent(r) && r.capacity == n
      && r.queue == c.queue[..Min(n, |c.queue|)]
      && forall k :: k in r.entries ==> k in c.entries && r.entries[k] == c.entries[k]
  {
    EvictToKeepsFront(CacheState(n, c.queue, c.entries));
  }

  lemma EvictToKeepsFront<K, V>(c: CacheState<K, V>)
    requires Paired(c)
    ensures var r := EvictTo(c);
      && Coherent(r) && r.capacity == c.capacity
      && r.queue == c.queue[..Min(c.capacity, |c.queue|)]
      && forall k :: k in r.entries ==> k in c.entries && r.entries[k] == c.entries[k]
  {
    EvictToCoherent(c);
    EvictToQueue(c);
    EvictToValues(c);
  }

  lemma {:induction false} EvictToCoherent<K, V>(c: CacheState<K, V>)
    requires Paired(c)
    ensures Coherent(EvictTo(c)) && EvictTo(c).capacity == c.capacity
    decreases |c.queue|
  {
    if |c.entries| > c.capacity {
      PairedLength(c);
      DropBackPaired(c);
      EvictToCoherent(DropBack(c));
    }
  }

  lemma {:induction false} EvictToQueue<K, V>(c: CacheState<K, V>)
    requires Paired(c)
    ensures EvictTo(c).queue == c.queue[..Min(c.capacity, |c.queue|)]
    decreases |c.queue|
  {
    if |c.entries| > c.capacity {
      PairedLength(c);
      DropBackPaired(c);
      EvictToQueue(DropBack(c));
      PrefixOfPrefix(c.queue, c.capacity);
    } else {
      assert c.queue[..|c.queue|] == c.queue;
    }
  }

  lemma PairedLength<K, V>(c: CacheState<K, V>)
    requires Paired(c)
    ensures |c.queue| == |c.entries|
  {
  }

  lemma PrefixOfPrefix<K>(q: seq<K>, n: nat)
    requires n < |q|
    ensures q[..|q| - 1][..Min(n, |q| - 1)] == q[..Min(n, |q|)]
  {
    assert Min(n, |q| - 1) == n == Min(n, |q|);
  }

  lemma {:induction false} EvictToValues<K, V>(c: CacheState<K, V>)
    requires Paired(c)
    ensures forall k :: k in EvictTo(c).entries ==> k in c.entries && EvictTo(c).entries[k] == c.entries[k]
    decreases |c.queue|
  {
    if |c.entries| > c.capacity {
      PairedLength(c);
      DropBackPaired(c);
      EvictToValues(DropBack(c));
    }
  }

  /** Inserting an already stored key, as the source's insert does it, pushes
      a second copy of the key onto the queue.  From an empty cache of
      capacity 2, inserting 1, 1, 2, 3 and 4 evicts the stale copy of 1 twice
      (the second time erasing nothing) and ends with three stored values. */
  lemma DuplicateInsertOverflows()
    ensures var c0: CacheState<int, int> := CacheState(2, [], map[]);
      var c := InsertAsWritten(InsertAsWritten(InsertAsWritten(
                 InsertAsWritten(InsertAsWritten(c0, 1, 0), 1, 0), 2, 0), 3, 0), 4, 0);
      |c.entries| == 3 && |c.entries| > c.capacity
  {
    var c0: CacheState<int, int> := CacheState(2, [], map[]);
    DuplicateFirst(c0);
    var c2 := CacheState(2, [1, 1], map[1 := 0]);
    DuplicateThen(c2);
    var c4 := CacheState(2, [3, 2, 1], map[2 := 0, 3 := 0]);
    DuplicateLast(c4);
  }

  /** Inserting 1 twice into the empty cache queues it twice. */
  lemma DuplicateFirst(c0: CacheState<int, int>)
    requires c0 == CacheState(2, [], map[])
    ensures InsertAsWritten(InsertAsWritten(c0, 1, 0), 1, 0) == CacheState(2, [1, 1], map[1 := 0])
  {
    assert InsertAsWritten(c0, 1, 0) == CacheState(2, [1], map[1 := 0]);
  }

  /** 2 fits; 3 evicts the back copy of 1, which erases 1 from the map. */
  lemma DuplicateThen(c2: CacheState<int, int>)
    requires c2 == CacheState(2, [1, 1], map[1 := 0])
    ensures InsertAsWritten(InsertAsWritten(c2, 2, 0), 3, 0) == CacheState(2, [3, 2, 1], map[2 := 0, 3 := 0])
  {
    var c3 := InsertAsWritten(c2, 2, 0);
    assert c3 == CacheState(2, [2, 1, 1], map[1 := 0, 2 := 0]);
    assert c3.entries - {1} == map[2 := 0];
  }

  /** 4 evicts the stale copy of 1, which erases nothing: three values
      remain stored. */
  lemma DuplicateLast(c4: CacheState<int, int>)
    requires c4 == CacheState(2, [3, 2, 1], map[2 := 0, 3 := 0])
    ensures |InsertAsWritten(c4, 4, 0).entries| == 3
  {
    assert c4.entries - {1} == map[2 := 0, 3 := 0];
    assert InsertAsWritten(c4, 4, 0).entries.Keys == {2, 3, 4};
  }

  /** LRU_cache: the fields lru_queue_, cache_map_ and cache_size_.  The
      key_ring_ map of list iterators is how the source finds a key's queue
      node in constant time; here the queue is searched instead. */
  class LruCache<K(==), V> {
    var capacity: nat
    var queue: seq<K>
    var entries: map<K, V>

    function State(): CacheState<K, V>
      reads this
    {
      CacheState(capacity, queue, entries)
    }

    ghost predicate Valid()
      reads this
    {
      Coherent(State())
    }

    constructor (cacheSize: nat := 0)
      ensures Valid() && State() == CacheState(cacheSize, [], map[])
    {
      capacity := cacheSize;
      queue := [];
      entries := map[];
    }

    /** check_cache: the stored value, if any. */
    method CheckCache(key: K) returns (r: Option<V>)
      ensures r.Some? <==> key in entries
      ensures r.Some? ==> r.value == entries[key]
    {
      if key in entries {
        r := Some(entries[key]);
      } else {
        r := None;
      }
    }

    method Insert(key: K, value: V)
      requires Valid()
      modifies this
      ensures Valid() && State() == InsertSpec(old(State()), key, value)
    {
      InsertKeepsCoherent(State(), key, value);
      if capacity == 0 {
        return;
      }
      if key in entries {
        Renew(key);
        entries := entries[key := value];
        return;
      }
      if |entries| >= capacity {
        EvictBack();
      }
      entries := entries[key := value];
      queue := [key] + queue;
    }

    method SetCacheSize(newSize: nat)
      requires Valid()
      modifies this
      ensures Valid() && State() == Resize(old(State()), newSize)
    {
      ResizeKeepsMostRecent(State(), newSize);
      capacity := newSize;
      while |entries| > capacity
        invariant Paired(State()) && capacity == newSize
        invariant EvictTo(State()) == Resize(old(State()), newSize)
        decreases |queue|
      {
        EvictBack();
      }
    }

    /** Erase the key at the back of the queue and pop it. */
    method EvictBack()
      requires Paired(State()) && |queue| > 0
      modifies this
      ensures Paired(State()) && State() == DropBack(old(State()))
    {
      ghost var d := DropBack(State());
      DropBackPaired(State());
      var lruKey := queue[|queue| - 1];
      entries := entries - {lruKey};
      queue := queue[..|queue| - 1];
      assert State() == d;
    }

    method Renew(key: K)
      requires Valid() && key in entries
      modifies this
      ensures Valid() && State() == RenewSpec(old(State()), key)
    {
      RenewRearranges(State(), key);
      queue := [key] + Without(queue, key);
    }

    /** get: the value stored under the key, which is renewed. */
    method Get(key: K) returns (v: V)
      requires Valid() && key in entries
      modifies this
      ensures v == old(entries)[key]
      ensures Valid() && State() == RenewSpec(old(State()), key)
    {
      Renew(key);
      v := entries[key];
    }

    /** size: the number of stored values, one per queued key, never above
        the capacity. */
    function Size(): (r: nat)
      reads this
      requires Valid()
      ensures r == |queue| && r <= capacity
    {
      |entries|
    }

    function Capacity(): (r: nat)
      reads this
      requires Valid()
      ensures r == capacity
    ensures r >= |entries|
    {
      capacity
    }
  }
}
