/** The sharded store of store.go, and its agreement with the expiration index. */
module Store {
  import opened Collections
  import opened Ttl

  const SHARDS: nat := 256

  // The zero value, which stands for nothing found.
  const NO_VALUE := 0

  datatype StoreItem = StoreItem(conflict: int, value: int, expiration: Time)

  /** An item on its way in. */
  datatype Item = Item(key: int, entry: StoreItem)

  /** What an eviction callback is told. */
  datatype Evicted = Evicted(key: int, entry: StoreItem)

  function Find(data: map<int, StoreItem>, key: int): Option<StoreItem> {
    if key in data then Some(data[key]) else None
  }

  /** Conflict 0 matches every entry. */
  predicate Matches(conflict: int, entry: StoreItem) {
    conflict == 0 || conflict == entry.conflict
  }

  /** The buckets an entry belongs in: none if it does not expire, or exactly one, with its conflict. */
  ghost function Due(e: Option<StoreItem>): map<int, int> {
    match e
    case None => map[]
    case Some(it) => if it.expiration == ZERO_TIME then map[] else map[StorageBucket(it.expiration) := it.conflict]
  }

  /** The index has exactly what it should have for a key. */
  ghost predicate Indexed(e: Option<StoreItem>, bs: Buckets, key: int) {
    Places(bs, key) == Due(e)
  }

  /** The index and all other keys of it, before and after a change at one key. */
  ghost predicate OnlyAt(bs: Buckets, bs': Buckets, key: int) {
    forall k | k != key :: Places(bs', k) == Places(bs, k)
  }

  class LockedMap {
    const em: ExpirationMap
    const shouldUpdate: (int, int) -> bool
    var data: map<int, StoreItem>

    constructor (index: ExpirationMap, update: (int, int) -> bool)
      ensures data == map[] && em == index && shouldUpdate == update
    {
      em, shouldUpdate, data := index, update, map[];
    }

    ghost function Has(key: int): Option<StoreItem>
      reads this
    {
      Find(data, key)
    }

    ghost predicate Agrees(key: int)
      reads this, em
    {
      Indexed(Has(key), em.buckets, key)
    }

    /** The value, unless the conflict differs or the entry has expired by now. */
    method Get(key: int, conflict: int, now: Time) returns (value: int, ok: bool)
      ensures ok == (Has(key).Some? && Matches(conflict, Has(key).value) &&
                     (Has(key).value.expiration == ZERO_TIME || now <= Has(key).value.expiration))
      ensures value == if ok then Has(key).value.value else NO_VALUE
    {
      if key !in data {
        return NO_VALUE, false;
      }
      var item := data[key];
      if conflict != 0 && conflict != item.conflict {
        return NO_VALUE, false;
      }
      if item.expiration != ZERO_TIME && now > item.expiration {
        return NO_VALUE, false;
      }
      return item.value, true;
    }

    method Expiration(key: int) returns (t: Time)
      ensures t == if Has(key).Some? then Has(key).value.expiration else ZERO_TIME
    {
      t := if key in data then data[key].expiration else ZERO_TIME;
    }

    /** May `item` go in: nothing is there, or the conflict matches and the update is wanted. */
    ghost predicate Accepts(item: Item)
      reads this
    {
      Has(item.key).None? ||
      (Matches(item.entry.conflict, Has(item.key).value) && shouldUpdate(item.entry.value, Has(item.key).value.value))
    }

    method Set(item: Item)
      requires Agrees(item.key)
      modifies `data, em`buckets
      ensures Agrees(item.key) && OnlyAt(old(em.buckets), em.buckets, item.key)
      ensures data == if old(Accepts(item)) then old(data)[item.key := item.entry] else old(data)
    {
      hide With, Without, Places;
      var key, entry := item.key, item.entry;
      if key in data {
        if entry.conflict != 0 && entry.conflict != data[key].conflict {
          return;
        }
        if !shouldUpdate(entry.value, data[key].value) {
          return;
        }
        Replaced(em.buckets, key, data[key], entry);
        em.Update(key, entry.conflict, data[key].expiration, entry.expiration);
      } else {
        PlacesWith(em.buckets, StorageBucket(entry.expiration), key, entry.conflict);
        em.Add(key, entry.conflict, entry.expiration);
      }
      data := data[key := entry];
    }

    /** Replaces an entry that is there; gives the old value back also when the update is not wanted. */
    method Update(item: Item) returns (prev: int, ok: bool)
      requires Agrees(item.key)
      modifies `data, em`buckets
      ensures Agrees(item.key) && OnlyAt(old(em.buckets), em.buckets, item.key)
      ensures ok == (old(Has(item.key)).Some? && old(Accepts(item)))
      ensures data == if ok then old(data)[item.key := item.entry] else old(data)
      ensures prev == if old(Has(item.key)).Some? && Matches(item.entry.conflict, old(Has(item.key)).value)
                      then old(Has(item.key)).value.value else NO_VALUE
    {
      hide With, Without, Places;
      var key, entry := item.key, item.entry;
      if key !in data {
        return NO_VALUE, false;
      }
      prev := data[key].value;
      if entry.conflict != 0 && entry.conflict != data[key].conflict {
        return NO_VALUE, false;
      }
      if !shouldUpdate(entry.value, prev) {
        return prev, false;
      }
      Replaced(em.buckets, key, data[key], entry);
      em.Update(key, entry.conflict, data[key].expiration, entry.expiration);
      data := data[key := entry];
      ok := true;
    }

    /** Removes an entry whose conflict matches and says what it was. */
    method Del(key: int, conflict: int) returns (oldConflict: int, value: int)
      modifies `data, em`buckets
      ensures var e := old(Has(key));
        if e.Some? && Matches(conflict, e.value)
        then
          && data == old(data) - {key} && oldConflict == e.value.conflict && value == e.value.value
          && em.buckets == if e.value.expiration == ZERO_TIME then old(em.buckets)
                           else Without(old(em.buckets), StorageBucket(e.value.expiration), key)
        else data == old(data) && em.buckets == old(em.buckets) && oldConflict == 0 && value == NO_VALUE
      ensures old(Agrees(key)) ==> Agrees(key)
      ensures OnlyAt(old(em.buckets), em.buckets, key)
    {
      hide With, Without, Places;
      if key !in data {
        return 0, NO_VALUE;
      }
      var item := data[key];
      if conflict != 0 && conflict != item.conflict {
        return 0, NO_VALUE;
      }
      if item.expiration != ZERO_TIME {
        PlacesWithout(em.buckets, StorageBucket(item.expiration), key);
        em.Del(key, item.expiration);
      }
      data := data - {key};
      return item.conflict, item.value;
    }

    /** Hands out every entry once and forgets them all. */
    method Clear() returns (evicted: seq<Evicted>)
      modifies `data
      ensures data == map[]
      ensures Listed(old(data), evicted)
    {
      evicted := [];
      var rest := data.Keys;
      while rest != {}
        invariant rest <= data.Keys && Listed(data - rest, evicted)
        modifies {}
        decreases rest
      {
        var key := Any(rest);
        ListedMore(data - rest, evicted, key, data[key]);
        evicted := evicted + [Evicted(key, data[key])];
        assert data - (rest - {key}) == (data - rest)[key := data[key]];
        rest := rest - {key};
      }
      assert data - {} == data;
      data := map[];
    }
  }

  /** The list names every entry of the map exactly once, and nothing else. */
  ghost predicate Listed(data: map<int, StoreItem>, evicted: seq<Evicted>) {
    && (forall i | 0 <= i < |evicted| :: evicted[i].key in data && data[evicted[i].key] == evicted[i].entry)
    && (forall k | k in data :: Evicted(k, data[k]) in evicted)
    && (forall i, j | 0 <= i < j < |evicted| :: evicted[i].key != evicted[j].key)
  }

  lemma ListedMore(data: map<int, StoreItem>, evicted: seq<Evicted>, key: int, entry: StoreItem)
    requires Listed(data, evicted) && key !in data
    ensures Listed(data[key := entry], evicted + [Evicted(key, entry)])
  {
    var more := evicted + [Evicted(key, entry)];
    assert more[|evicted|] == Evicted(key, entry);
  }

  /** Moving a key from the bucket of its old entry to that of its new one. */
  lemma Replaced(bs: Buckets, key: int, was: StoreItem, entry: StoreItem)
    requires Indexed(Some(was), bs, key)
    ensures var bs0 := Without(bs, StorageBucket(was.expiration), key);
      var bs1 := if entry.expiration == ZERO_TIME then bs0
        else With(bs0, StorageBucket(entry.expiration), key, entry.conflict);
      Indexed(Some(entry), bs1, key) && OnlyAt(bs, bs1, key)
  {
    hide With, Without, Places;
    var bs0 := Without(bs, StorageBucket(was.expiration), key);
    PlacesWithout(bs, StorageBucket(was.expiration), key);
    assert Places(bs0, key) == map[];
    PlacesWith(bs0, StorageBucket(entry.expiration), key, entry.conflict);
  }

  // ---- The shards ----

  ghost predicate Timely(e: Option<StoreItem>, lastCleaned: int) {
    e.Some? && e.value.expiration != ZERO_TIME ==> StorageBucket(e.value.expiration) > lastCleaned
  }

  class ShardedMap {
    const shards: seq<LockedMap>
    const em: ExpirationMap
    const shouldUpdate: (int, int) -> bool

    constructor (now: Time, update: (int, int) -> bool)
      ensures shouldUpdate == update
      ensures Valid() && fresh(shards) && fresh(em) && em.lastCleaned == CleanupBucket(now)
      ensures forall k :: Lookup(k) == None
    {
      var index := new ExpirationMap(now);
      var maps: seq<LockedMap> := [];
      for i := 0 to SHARDS
        invariant |maps| == i && fresh(index) && index.buckets == map[] && index.lastCleaned == CleanupBucket(now)
        invariant forall j | 0 <= j < i ::
          fresh(maps[j]) && maps[j].em == index && maps[j].data == map[] && maps[j].shouldUpdate == update
        invariant forall j, k | 0 <= j < k < i :: maps[j] != maps[k]
      {
        var shard := new LockedMap(index, update);
        maps := maps + [shard];
      }
      shards, em, shouldUpdate := maps, index, update;
    }

    /** The shards share one index and one callback, and every key is in the shard that its residue names. */
    ghost predicate Shape()
      reads shards
    {
      && |shards| == SHARDS
      && (forall i | 0 <= i < SHARDS :: shards[i].em == em && shards[i].shouldUpdate == shouldUpdate)
      && (forall i, j | 0 <= i < j < SHARDS :: shards[i] != shards[j])
      && (forall i, k | 0 <= i < SHARDS && k in shards[i].data :: k % SHARDS == i)
    }

    lemma HasShards()
      requires Valid()
      ensures |shards| == SHARDS
    {
    }

    ghost function Lookup(key: int): Option<StoreItem>
      requires |shards| == SHARDS
      reads shards
    {
      shards[key % SHARDS].Has(key)
    }

    /** Store and index agree on every key. */
    ghost predicate Valid()
      reads shards, em
    {
      Shape() && forall k :: Indexed(Lookup(k), em.buckets, k)
    }

    /** A change of one shard at one of its own keys concerns no other key. */
    twostate lemma Routed(key: int)
      requires old(Valid())
      requires forall i | 0 <= i < SHARDS && i != key % SHARDS :: shards[i].data == old(shards[i].data)
      requires forall k | k != key :: shards[key % SHARDS].Has(k) == old(shards[key % SHARDS].Has(k))
      requires OnlyAt(old(em.buckets), em.buckets, key) && shards[key % SHARDS].Agrees(key)
      ensures Valid()
      ensures forall k | k != key :: Lookup(k) == old(Lookup(k))
    {
      hide Places, Due;
      forall k | k != key
        ensures Lookup(k) == old(Lookup(k)) && Indexed(Lookup(k), em.buckets, k)
      {
        assert old(Indexed(Lookup(k), em.buckets, k));
        if k % SHARDS != key % SHARDS {
          assert shards[k % SHARDS].data == old(shards[k % SHARDS].data);
        }
      }
      assert Indexed(Lookup(key), em.buckets, key);
      assert Shape() by {
        forall i, k | 0 <= i < SHARDS && k in shards[i].data
          ensures k % SHARDS == i
        {
          if i != key % SHARDS {
            assert shards[i].data == old(shards[i].data);
          } else if k != key {
            assert shards[i].Has(k) == old(shards[i].Has(k));
          }
        }
      }
    }

    /** No entry is in a bucket that has been cleaned already. */
    ghost predicate NoneLate()
      requires |shards| == SHARDS
      reads shards, em
    {
      forall k :: Timely(Lookup(k), em.lastCleaned)
    }

    method Get(key: int, conflict: int, now: Time) returns (value: int, ok: bool)
      requires Valid()
      ensures ok == (Lookup(key).Some? && (conflict == 0 || conflict == Lookup(key).value.conflict) &&
                     (Lookup(key).value.expiration == ZERO_TIME || now <= Lookup(key).value.expiration))
      ensures value == if ok then Lookup(key).value.value else NO_VALUE
    {
      value, ok := shards[key % SHARDS].Get(key, conflict, now);
    }

    ghost predicate Accepts(item: Item)
      requires |shards| == SHARDS
      reads shards
    {
      shards[item.key % SHARDS].Accepts(item)
    }

    method Set(item: Item)
      requires Valid()
      modifies shards, em`buckets
      ensures Valid()
      ensures Lookup(item.key) == if old(Accepts(item)) then Some(item.entry) else old(Lookup(item.key))
      ensures var e := old(Lookup(item.key));
        old(Accepts(item)) <==>
          e.None? ||
          ((item.entry.conflict == 0 || item.entry.conflict == e.value.conflict) &&
           shouldUpdate(item.entry.value, e.value.value))
      ensures forall k | k != item.key :: Lookup(k) == old(Lookup(k))
      ensures old(NoneLate()) && Timely(Some(item.entry), em.lastCleaned) ==> NoneLate()
    {
      hide Places, Due;
      var shard := shards[item.key % SHARDS];
      assert Indexed(Lookup(item.key), em.buckets, item.key);
      shard.Set(item);
      Routed(item.key);
    }

    method Update(item: Item) returns (prev: int, ok: bool)
      requires Valid()
      modifies shards, em`buckets
      ensures Valid()
      ensures ok == (old(Lookup(item.key)).Some? && old(Accepts(item)))
      ensures var e := old(Lookup(item.key));
        ok <==>
          e.Some? && (item.entry.conflict == 0 || item.entry.conflict == e.value.conflict) &&
          shouldUpdate(item.entry.value, e.value.value)
      ensures Lookup(item.key) == if ok then Some(item.entry) else old(Lookup(item.key))
      ensures forall k | k != item.key :: Lookup(k) == old(Lookup(k))
      ensures prev == if old(Lookup(item.key)).Some? && Matches(item.entry.conflict, old(Lookup(item.key)).value)
                      then old(Lookup(item.key)).value.value else NO_VALUE
      ensures old(NoneLate()) && Timely(Some(item.entry), em.lastCleaned) ==> NoneLate()
    {
      hide Places, Due;
      var shard := shards[item.key % SHARDS];
      assert Indexed(Lookup(item.key), em.buckets, item.key);
      prev, ok := shard.Update(item);
      Routed(item.key);
    }

    method Del(key: int, conflict: int) returns (oldConflict: int, value: int)
      requires Valid()
      modifies shards, em`buckets
      ensures Valid()
      ensures forall k | k != key :: Lookup(k) == old(Lookup(k))
      ensures var e := old(Lookup(key));
        if e.Some? && (conflict == 0 || conflict == e.value.conflict)
        then Lookup(key) == None && oldConflict == e.value.conflict && value == e.value.value
        else Lookup(key) == e && oldConflict == 0 && value == NO_VALUE
      ensures old(NoneLate()) ==> NoneLate()
    {
      hide Places, Due;
      var shard := shards[key % SHARDS];
      assert Indexed(Lookup(key), em.buckets, key);
      oldConflict, value := shard.Del(key, conflict);
      Routed(key);
    }

    /** Hands out every entry of every shard once. */
    method Clear(now: Time) returns (evicted: seq<Evicted>, ghost gone: map<int, StoreItem>)
      requires Valid()
      modifies shards, em
      ensures Valid() && em.lastCleaned == CleanupBucket(now)
      ensures forall k :: Lookup(k) == None
      ensures forall k :: Find(gone, k) == old(Lookup(k))
      ensures Listed(gone, evicted) && NoneLate()
    {
      hide Places, Listed;
      evicted, gone := [], map[];
      NothingListed();
      for i := 0 to SHARDS
        invariant Shape()
        invariant forall j | i <= j < SHARDS :: shards[j].data == old(shards[j].data)
        invariant forall j | 0 <= j < i :: shards[j].data == map[]
        invariant forall k :: Find(gone, k) == if k % SHARDS < i then old(Lookup(k)) else None
        invariant Listed(gone, evicted)
        modifies shards
      {
        ghost var data := shards[i].data;
        assert forall k | k in data :: k % SHARDS == i;
        assert gone.Keys !! data.Keys by {
          assert forall k | k in gone :: Find(gone, k) != None;
        }
        var more := shards[i].Clear();
        ListedBoth(gone, evicted, data, more);
        forall k
          ensures Find(gone + data, k) == if k % SHARDS < i + 1 then old(Lookup(k)) else None
        {
          assert Find(gone, k) == if k % SHARDS < i then old(Lookup(k)) else None;
        }
        gone := gone + data;
        evicted := evicted + more;
      }
      em.Clear(now);
      forall k
        ensures Lookup(k) == None && Indexed(Lookup(k), em.buckets, k)
      {
        NoPlaces(k);
      }
    }

    /**
     * Removes exactly the entries that expire in a bucket that came to an end since the last cleanup.
     * All others stay: those not over yet, those that never expire, and those put late into a
     * bucket that had been cleaned before.
     */
    method Cleanup(now: Time) returns (evicted: seq<Evicted>, ghost gone: map<int, StoreItem>)
      requires Valid()
      modifies shards, em
      ensures Valid() && em.lastCleaned == CleanupBucket(now) && Listed(gone, evicted)
      ensures forall k ::
        var due := Expiring(old(Lookup(k)), old(em.lastCleaned), CleanupBucket(now));
        && Lookup(k) == (if due then None else old(Lookup(k)))
        && Find(gone, k) == (if due then old(Lookup(k)) else None)
      ensures forall k | k in gone :: gone[k].expiration < now
      ensures forall k ::
        var e := old(Lookup(k));
        e.Some? && e.value.expiration != ZERO_TIME && e.value.expiration + 10 * SECOND <= now &&
        old(Timely(Lookup(k), em.lastCleaned)) ==>
          Lookup(k) == None
      ensures old(NoneLate()) ==> NoneLate()
      ensures old(em.lastCleaned) <= CleanupBucket(now) ==> (NoneLate() <==> old(NoneLate()))
    {
      hide Places, Due, Listed, KeysIn;
      ghost var bs, lo, hi := em.buckets, em.lastCleaned, CleanupBucket(now);
      var todo, nums := em.TakeBuckets(now);
      forall k
        ensures Indexed(if Expiring(Lookup(k), lo, hi) then None else Lookup(k), em.buckets, k)
        ensures k in KeysIn(todo) <==> Expiring(Lookup(k), lo, hi)
        ensures forall i | 0 <= i < |todo| && k in todo[i] :: IsDue(Lookup(k), nums[i], todo[i][k], now)
      {
        TakenPlaces(bs, em.buckets, lo, hi, Lookup(k), k);
        TakenDue(bs, todo, nums, lo, now, Lookup(k), k);
      }
      forall k
        ensures Overdue(Lookup(k), now) && Timely(Lookup(k), lo) ==> Expiring(Lookup(k), lo, hi)
      {
        if Overdue(Lookup(k), now) && Timely(Lookup(k), lo) {
          OverdueExpires(Lookup(k), lo, now);
        }
      }
      evicted, gone := CleanBuckets(todo, nums, now);
    }

    method CleanBuckets(todo: seq<Bucket>, ghost nums: seq<int>, now: Time)
      returns (evicted: seq<Evicted>, ghost gone: map<int, StoreItem>)
      requires Shape() && |todo| == |nums|
      requires forall i, j | 0 <= i < j < |nums| :: nums[i] != nums[j]
      requires forall i | 0 <= i < |nums| :: nums[i] !in em.buckets
      requires forall k, i | 0 <= i < |todo| && k in todo[i] :: IsDue(Lookup(k), nums[i], todo[i][k], now)
      modifies shards, em`buckets
      ensures em.buckets == old(em.buckets)
      ensures Shape() && Listed(gone, evicted)
      ensures forall k :: Lookup(k) == if k in KeysIn(todo) then None else old(Lookup(k))
      ensures forall k :: Find(gone, k) == if k in KeysIn(todo) then old(Lookup(k)) else None
      ensures forall k | k in gone :: gone[k].expiration < now
    {
      hide Listed;
      evicted, gone := [], map[];
      NothingListed();
      for i := 0 to |todo|
        invariant em.buckets == old(em.buckets) && Shape() && Listed(gone, evicted)
        invariant gone.Keys == KeysIn(todo[..i])
        invariant forall k :: Lookup(k) == if k in gone then None else old(Lookup(k))
        invariant forall k | k in gone :: old(Lookup(k)) == Some(gone[k]) && gone[k].expiration < now
        invariant forall k | k in gone :: exists j :: 0 <= j < i && k in todo[j]
        modifies shards, em`buckets
      {
        assert todo[..i + 1][..i] == todo[..i];
        forall k | k in todo[i]
          ensures k !in gone && IsDue(Lookup(k), nums[i], todo[i][k], now) && nums[i] !in em.buckets
        {
        }
        evicted, gone := CleanBucket(todo[i], now, evicted, gone);
      }
      assert todo[..|todo|] == todo;
    }

    /** Removes the keys of one bucket, all of which have expired. */
    method CleanBucket(keys: Bucket, now: Time, before: seq<Evicted>, ghost gone0: map<int, StoreItem>)
      returns (evicted: seq<Evicted>, ghost gone: map<int, StoreItem>)
      requires |shards| == SHARDS && Shape() && Listed(gone0, before) && forall k | k in keys :: k !in gone0
      requires forall k | k in keys ::
        Lookup(k).Some? && Lookup(k).value.conflict == keys[k] &&
        Lookup(k).value.expiration <= now && StorageBucket(Lookup(k).value.expiration) !in em.buckets
      modifies shards, em`buckets
      ensures em.buckets == old(em.buckets)
      ensures Shape() && Listed(gone, evicted)
      ensures forall k :: Lookup(k) == if k in keys then None else old(Lookup(k))
      ensures gone.Keys == gone0.Keys + keys.Keys
      ensures forall k | k in gone :: Some(gone[k]) == if k in keys then old(Lookup(k)) else Some(gone0[k])
    {
      hide Listed, ShardedMap.Shape, LockedMap.Has;
      evicted, gone := before, gone0;
      var rest := keys.Keys;
      while rest != {}
        invariant Shape() && rest <= keys.Keys && em.buckets == old(em.buckets)
        invariant forall k :: Lookup(k) == if k in keys && k !in rest then None else old(Lookup(k))
        invariant Listed(gone, evicted) && gone.Keys == gone0.Keys + (keys.Keys - rest)
        invariant forall k | k in gone :: Some(gone[k]) == if k in keys then old(Lookup(k)) else Some(gone0[k])
        modifies shards, em`buckets
        decreases rest
      {
        var key := Any(rest);
        evicted, gone := CleanKey(key, keys[key], now, evicted, gone);
        rest := rest - {key};
      }
    }

    method CleanKey(key: int, conflict: int, now: Time, before: seq<Evicted>, ghost gone0: map<int, StoreItem>)
      returns (evicted: seq<Evicted>, ghost gone: map<int, StoreItem>)
      requires Shape() && Listed(gone0, before) && key !in gone0
      requires Lookup(key).Some? && Lookup(key).value.conflict == conflict
      requires Lookup(key).value.expiration <= now && StorageBucket(Lookup(key).value.expiration) !in em.buckets
      modifies shards, em`buckets
      ensures em.buckets == old(em.buckets)
      ensures Shape() && Listed(gone, evicted)
      ensures forall k :: Lookup(k) == if k == key then None else old(Lookup(k))
      ensures gone == gone0[key := old(Lookup(key)).value]
    {
      hide Listed;
      evicted, gone := before, gone0;
      ghost var entry := Lookup(key).value;
      var expr := shards[key % SHARDS].Expiration(key);
      if expr <= now {
        var _, value := DelExpired(key, conflict);
        ListedMore(gone, evicted, key, entry);
        evicted := evicted + [Evicted(key, StoreItem(conflict, value, expr))];
        gone := gone[key := entry];
      }
    }

    /** Deletes a key whose bucket is gone already. */
    method DelExpired(key: int, conflict: int) returns (oldConflict: int, value: int)
      requires Shape() && Lookup(key).Some? && Lookup(key).value.conflict == conflict
      requires StorageBucket(Lookup(key).value.expiration) !in em.buckets
      modifies shards, em`buckets
      ensures em.buckets == old(em.buckets)
      ensures Shape() && value == old(Lookup(key)).value.value
      ensures forall k :: Lookup(k) == if k == key then None else old(Lookup(k))
    {
      oldConflict, value := shards[key % SHARDS].Del(key, conflict);
    }
  }

  // ---- Runs ----

  datatype Op =
    | Put(item: Item, at: Time)
    | Change(item: Item, at: Time)
    | Remove(key: int, conflict: int, at: Time)
    | Sweep(at: Time)
    | Wipe(at: Time)

  /** The clock starts at `start` and does not go back. */
  ghost predicate Forward(ops: seq<Op>, start: Time) {
    && (forall i | 0 <= i < |ops| :: start <= ops[i].at)
    && (forall i, j | 0 <= i < j < |ops| :: ops[i].at <= ops[j].at)
  }

  /** Nothing is set to expire before the time it is set. */
  ghost predicate Prompt(ops: seq<Op>) {
    forall i | 0 <= i < |ops| && (ops[i].Put? || ops[i].Change?) ::
      ops[i].item.entry.expiration == ZERO_TIME || ops[i].item.entry.expiration >= ops[i].at
  }

  /** Nothing but sweeping and operations on other keys happens to this key. */
  predicate Spares(op: Op, key: int) {
    match op
    case Put(item, _) => item.key != key
    case Change(item, _) => item.key != key
    case Remove(k, _, _) => k != key
    case Sweep(_) => true
    case Wipe(_) => false
  }

  ghost predicate Untouched(ops: seq<Op>, key: int) {
    forall i | 0 <= i < |ops| :: Spares(ops[i], key)
  }

  /** What one operation does to the clock of the last cleanup, to late entries, and to whether there are any. */
  method Apply(s: ShardedMap, op: Op)
    requires s.Valid()
    modifies s.shards, s.em
    ensures s.Valid()
    ensures s.em.lastCleaned == if op.Sweep? || op.Wipe? then CleanupBucket(op.at) else old(s.em.lastCleaned)
    ensures forall k | !old(Timely(s.Lookup(k), s.em.lastCleaned)) && Spares(op, k) :: s.Lookup(k) == old(s.Lookup(k))
    ensures old(s.NoneLate()) && old(s.em.lastCleaned) <= CleanupBucket(op.at) && Prompt([op]) ==> s.NoneLate()
  {
    hide Prompt;
    if op.Put? || op.Change? {
      PromptEntry(op, s.em.lastCleaned);
    }
    match op {
      case Put(item, _) => s.Set(item);
      case Change(item, _) => var _, _ := s.Update(item);
      case Remove(key, conflict, _) => var _, _ := s.Del(key, conflict);
      case Sweep(at) => var _, _ := s.Cleanup(at);
      case Wipe(at) => var _, _ := s.Clear(at);
    }
  }

  /**
   * Any history keeps store and index in agreement. If the clock does not go back, one that sets
   * nothing to expire in the past leaves nothing behind in cleaned buckets, and an entry that is
   * behind outlives every sweep.
   */
  method Run(s: ShardedMap, ops: seq<Op>, ghost start: Time)
    requires s.Valid()
    modifies s.shards, s.em
    ensures s.Valid()
    ensures Forward(ops, start) && Prompt(ops) && old(s.em.lastCleaned) <= CleanupBucket(start) && old(s.NoneLate()) ==>
      s.NoneLate()
    ensures Forward(ops, start) && old(s.em.lastCleaned) <= CleanupBucket(start) ==>
      && old(s.em.lastCleaned) <= s.em.lastCleaned
      && forall k | !old(Timely(s.Lookup(k), s.em.lastCleaned)) && Untouched(ops, k) :: s.Lookup(k) == old(s.Lookup(k))
  {
    hide ShardedMap.Valid, ShardedMap.NoneLate, Prompt, Spares;
    assert |s.shards| == SHARDS by { s.HasShards(); }
    ghost var clock := start;
    ghost var forward := Forward(ops, start) && s.em.lastCleaned <= CleanupBucket(start);
    for i := 0 to |ops|
      invariant s.Valid()
      invariant forward ==> old(s.em.lastCleaned) <= s.em.lastCleaned <= CleanupBucket(clock)
      invariant forward ==> forall j | i <= j < |ops| :: clock <= ops[j].at
      invariant forward && Prompt(ops) && old(s.NoneLate()) ==> s.NoneLate()
      invariant forward ==>
        forall k | !old(Timely(s.Lookup(k), s.em.lastCleaned)) && Untouched(ops, k) :: s.Lookup(k) == old(s.Lookup(k))
    {
      if forward {
        LaterBucket(clock, ops[i].at);
      }
      if Prompt(ops) {
        PromptOne(ops, i);
      }
      clock := ops[i].at;
      Apply(s, ops[i]);
    }
  }

  lemma PromptOne(ops: seq<Op>, i: nat)
    requires Prompt(ops) && i < |ops|
    ensures Prompt([ops[i]])
  {
  }

  lemma PromptEntry(op: Op, lastCleaned: int)
    requires op.Put? || op.Change?
    ensures Prompt([op]) && lastCleaned <= CleanupBucket(op.at) ==> Timely(Some(op.item.entry), lastCleaned)
  {
    if Prompt([op]) && lastCleaned <= CleanupBucket(op.at) {
      assert [op][0] == op;
      TimelyEntry(op.item.entry, op.at, lastCleaned);
    }
  }

  /** An entry that expires at 99 s and has waited in the queue until 101 s, after the sweep at 100 s. */
  function Waited(): StoreItem { StoreItem(0, 1, 99 * SECOND) }

  /** It goes in late, and no number of later sweeps removes it. */
  method LateEntryStays(ops: seq<Op>) returns (s: ShardedMap)
    requires Forward(ops, 101 * SECOND) && Untouched(ops, 7)
    ensures s.Valid() && !s.NoneLate() && s.Lookup(7) == Some(Waited())
  {
    s := new ShardedMap(90 * SECOND, (cur, prev) => true);
    var _, _ := s.Cleanup(100 * SECOND);
    s.Set(Item(7, Waited()));
    assert s.Lookup(7) == Some(Waited()) && !Timely(s.Lookup(7), s.em.lastCleaned);
    Run(s, ops, 101 * SECOND);
    assert !Timely(s.Lookup(7), s.em.lastCleaned);
  }

  lemma LaterBucket(t: Time, u: Time)
    requires t <= u
    ensures CleanupBucket(t) <= CleanupBucket(u)
  {
  }

  lemma TimelyEntry(entry: StoreItem, at: Time, lastCleaned: int)
    requires entry.expiration == ZERO_TIME || entry.expiration >= at
    requires lastCleaned <= CleanupBucket(at)
    ensures Timely(Some(entry), lastCleaned)
  {
    if entry.expiration != ZERO_TIME {
      NotYetCleaned(entry.expiration, at);
    }
  }

  /** An entry that expires in one of the buckets after `lo`, up to `hi`. */
  ghost predicate Expiring(e: Option<StoreItem>, lo: int, hi: int) {
    e.Some? && e.value.expiration != ZERO_TIME && lo < StorageBucket(e.value.expiration) <= hi
  }

  /** Expired ten seconds ago or earlier. */
  predicate Overdue(e: Option<StoreItem>, now: Time) {
    e.Some? && e.value.expiration != ZERO_TIME && e.value.expiration + 10 * SECOND <= now
  }

  /** An overdue entry is one of them, unless it was late. */
  lemma OverdueExpires(e: Option<StoreItem>, lastCleaned: int, now: Time)
    requires Overdue(e, now) && Timely(e, lastCleaned)
    ensures Expiring(e, lastCleaned, CleanupBucket(now))
  {
    LongExpired(e.value.expiration, now);
  }

  /** An entry that has expired by now, with its bucket and its conflict. */
  ghost predicate IsDue(e: Option<StoreItem>, b: int, conflict: int, now: Time) {
    e.Some? && StorageBucket(e.value.expiration) == b && e.value.conflict == conflict && e.value.expiration < now
  }

  ghost function KeysIn(todo: seq<Bucket>): set<int> {
    if todo == [] then {} else KeysIn(todo[..|todo| - 1]) + todo[|todo| - 1].Keys
  }

  lemma {:induction false} KeysInBucket(todo: seq<Bucket>, k: int)
    ensures k in KeysIn(todo) <==> exists i :: 0 <= i < |todo| && k in todo[i]
  {
    if todo != [] {
      KeysInBucket(todo[..|todo| - 1], k);
    }
  }

  lemma TakenDue(bs: Buckets, todo: seq<Bucket>, nums: seq<int>, lo: int, now: Time, e: Option<StoreItem>, k: int)
    requires |nums| == |todo| && Indexed(e, bs, k)
    requires forall i | 0 <= i < |nums| :: lo < nums[i] <= CleanupBucket(now) && nums[i] in bs && todo[i] == bs[nums[i]]
    requires forall b | b in bs && lo < b <= CleanupBucket(now) :: b in nums
    ensures k in KeysIn(todo) <==> Expiring(e, lo, CleanupBucket(now))
    ensures forall i | 0 <= i < |todo| && k in todo[i] :: IsDue(e, nums[i], todo[i][k], now)
  {
    var hi := CleanupBucket(now);
    KeysInBucket(todo, k);
    TakenPlaces(bs, map b | b in bs && !(lo < b <= hi) :: bs[b], lo, hi, e, k);
    if Expiring(e, lo, hi) {
      CleanedIsExpired(e.value.expiration, now);
      var b := StorageBucket(e.value.expiration);
      var i :| 0 <= i < |nums| && nums[i] == b;
      assert k in todo[i];
    }
  }

  /** The buckets that were taken out hold exactly the expiring entries; the others hold the rest. */
  lemma TakenPlaces(bs: Buckets, left: Buckets, lo: int, hi: int, e: Option<StoreItem>, key: int)
    requires Indexed(e, bs, key) && left == map b | b in bs && !(lo < b <= hi) :: bs[b]
    ensures Indexed(if Expiring(e, lo, hi) then None else e, left, key)
    ensures forall b | b in bs && lo < b <= hi && key in bs[b] ::
      Expiring(e, lo, hi) && b == StorageBucket(e.value.expiration) && bs[b][key] == e.value.conflict
    ensures Expiring(e, lo, hi) ==> var b := StorageBucket(e.value.expiration); b in bs && key in bs[b]
  {
    assert forall b | b in bs && key in bs[b] :: b in Places(bs, key) && Places(bs, key)[b] == bs[b][key];
    if Expiring(e, lo, hi) {
      assert StorageBucket(e.value.expiration) in Places(bs, key);
    }
    assert Places(left, key) == map b | b in Places(bs, key) && !(lo < b <= hi) :: Places(bs, key)[b];
  }

  lemma NothingListed()
    ensures Listed(map[], [])
  {
  }

  lemma NoPlaces(k: int)
    ensures Places(map[], k) == map[]
  {
  }

  lemma ListedBoth(a: map<int, StoreItem>, x: seq<Evicted>, b: map<int, StoreItem>, y: seq<Evicted>)
    requires Listed(a, x) && Listed(b, y) && a.Keys !! b.Keys
    ensures Listed(a + b, x + y)
  {
    var z := x + y;
    forall k | k in a + b
      ensures Evicted(k, (a + b)[k]) in z
    {
      if k in b {
        assert Evicted(k, b[k]) in y;
      } else {
        assert Evicted(k, a[k]) in x;
      }
    }
    forall i, j | 0 <= i < j < |z|
      ensures z[i].key != z[j].key
    {
      assert i < |x| ==> x[i].key in a;
      assert j >= |x| ==> y[j - |x|].key in b;
    }
  }
}
