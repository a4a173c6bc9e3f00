/**
 The bounded cache in front of the stores. Eviction picks an arbitrary entry, so
 every contract below holds for every choice the random generator could make.
 */
module EntryCache {
  import opened Wrappers

  // CachePolicy
  datatype Policy =
    | Empty
    | Count(limit: nat)
    | Tracked(maxSize: nat, minItems: nat)

  // a is b with some entries left out.
  predicate Submap<K(!new), V(==)>(a: map<K, V>, b: map<K, V>) {
    forall k :: k in a ==> k in b && a[k] == b[k]
  }

  // The sum of the sizes of all entries.
  ghost function TotalSize<K(!new), V>(m: map<K, V>, size: V -> nat): nat {
    if m == map[] then 0 else
      var k :| k in m;
      size(m[k]) + TotalSize(m - {k}, size)
  }

  // Any entry may be taken out first.
  lemma {:induction false} TotalSizeRemove<K(!new), V>(m: map<K, V>, size: V -> nat, k: K)
    requires k in m
    ensures TotalSize(m, size) == size(m[k]) + TotalSize(m - {k}, size)
    decreases |m|
  {
    var j :| j in m && TotalSize(m, size) == size(m[j]) + TotalSize(m - {j}, size);
    if j != k {
      TotalSizeRemove(m - {j}, size, k);
      TotalSizeRemove(m - {k}, size, j);
      assert m - {j} - {k} == m - {k} - {j};
    }
  }

  lemma {:induction false} TotalSizeInsert<K(!new), V>(m: map<K, V>, size: V -> nat, k: K, v: V)
    ensures TotalSize(m[k := v], size) == size(v) + TotalSize(m - {k}, size)
  {
    TotalSizeRemove(m[k := v], size, k);
    assert m[k := v] - {k} == m - {k};
  }

  lemma {:induction false} TotalSizeAbsent<K(!new), V>(m: map<K, V>, k: K)
    requires k !in m
    ensures m - {k} == m
  {
  }

  class Cache<K(==, !new), V(==)> {
    const tracked: bool
    const maxSize: nat
    const minItems: nat
    // MemSizeEstimator::estimate_size in the policy's memory mode.
    const size: V -> nat

    var entries: map<K, V>
    var trackedSize: nat

    // The accounting is exact and the policy's bound holds.
    ghost predicate Valid()
      reads this
    {
      && (tracked ==> trackedSize == TotalSize(entries, size))
      && (tracked ==> trackedSize <= maxSize || |entries| <= minItems)
      && (!tracked ==> |entries| <= maxSize)
      && (maxSize == 0 ==> entries == map[])
    }

    constructor (policy: Policy, size: V -> nat)
      ensures Valid() && entries == map[] && this.size == size
      ensures policy == (if maxSize == 0 && policy.Empty? then Empty
                         else if tracked then Tracked(maxSize, minItems) else Count(maxSize))
    {
      tracked := policy.Tracked?;
      maxSize := match policy case Empty => 0 case Count(n) => n case Tracked(n, _) => n;
      minItems := if policy.Tracked? then policy.minItems else 0;
      this.size := size;
      entries := map[];
      trackedSize := 0;
    }

    function Get(key: K): (r: Option<V>)
      reads this
      ensures r.Some? <==> key in entries
      ensures r.Some? ==> r.value == entries[key]
    {
      if key in entries then Some(entries[key]) else None
    }

    // after is before less some entries, and no more of them than the policy asked
    // for: the last one to go still exceeded the limit, and minItems stay.
    ghost predicate Evicted(before: map<K, V>, after: map<K, V>) {
      && Submap(after, before)
      && (|after| >= |before| || |after| >= minItems)
      && (after == before || LastForced(before, after))
    }

    ghost predicate LastForced(before: map<K, V>, after: map<K, V>) {
      exists k :: k in before && k !in after && TotalSize(after, size) + size(before[k]) > maxSize
    }

    // A full cache gives up exactly one entry for the new one.
    ghost predicate Displaced(before: map<K, V>, after: map<K, V>, key: K, data: V) {
      if |before| < maxSize then after == before[key := data]
      else exists k :: k in before && after == (before - {k})[key := data]
    }

    // Evicts until the policy is met.
    method TrackedEvict()
      requires tracked && trackedSize == TotalSize(entries, size)
      modifies this
      ensures trackedSize == TotalSize(entries, size)
      ensures trackedSize <= maxSize || |entries| <= minItems
      ensures Evicted(old(entries), entries)
      ensures old(trackedSize) <= maxSize ==> entries == old(entries)
    {
      while trackedSize > maxSize && |entries| > minItems
        invariant trackedSize == TotalSize(entries, size)
        invariant Evicted(old(entries), entries)
        invariant old(trackedSize) <= maxSize ==> entries == old(entries) && trackedSize == old(trackedSize)
        decreases |entries|
      {
        assert entries != map[];
        var k :| k in entries;
        var v := entries[k];
        TotalSizeRemove(entries, size, k);
        assert |entries - {k}| == |entries| - 1 by {
          assert (entries - {k}).Keys == entries.Keys - {k};
        }
        entries := entries - {k};
        trackedSize := trackedSize - size(v);
        assert LastForced(old(entries), entries) by {
          assert k in old(entries) && k !in entries;
        }
      }
    }

    method InnerInsert(key: K, data: V)
      requires Valid() && maxSize > 0
      modifies this
      ensures Valid()
      ensures Submap(entries, old(entries)[key := data])
      ensures if tracked then Evicted(old(entries)[key := data], entries)
              else Displaced(old(entries), entries, key, data)
    {
      if tracked {
        PutTracked(key, data);
        TrackedEvict();
      } else {
        if |entries| == maxSize {
          var k :| k in entries;
          assert (entries - {k}).Keys == entries.Keys - {k};
          entries := entries - {k};
        }
        assert entries[key := data].Keys == entries.Keys + {key};
        entries := entries[key := data];
      }
    }

    // The accounted insertion that comes before eviction.
    method PutTracked(key: K, data: V)
      requires tracked && trackedSize == TotalSize(entries, size)
      modifies this
      ensures trackedSize == TotalSize(entries, size)
      ensures entries == old(entries)[key := data]
    {
      TotalSizeInsert(entries, size, key, data);
      trackedSize := trackedSize + size(data);
      if key in entries {
        TotalSizeRemove(entries, size, key);
        trackedSize := trackedSize - size(entries[key]);
      } else {
        TotalSizeAbsent(entries, key);
      }
      entries := entries[key := data];
    }

    method InnerUpdateIfEntryExists(key: K, op: V -> V)
      requires Valid() && maxSize > 0
      modifies this
      ensures Valid()
      ensures key !in old(entries) ==> entries == old(entries)
      ensures key in old(entries) ==>
        var updated := old(entries)[key := op(old(entries)[key])];
        if tracked then Evicted(updated, entries) else entries == updated
    {
      if key in entries {
        var data := entries[key];
        if tracked {
          TotalSizeRemove(entries, size, key);
          trackedSize := trackedSize - size(data);
          TotalSizeInsert(entries, size, key, op(data));
          entries := entries[key := op(data)];
          trackedSize := trackedSize + size(op(data));
          TrackedEvict();
        } else {
          assert entries[key := op(data)].Keys == entries.Keys;
          entries := entries[key := op(data)];
        }
      }
    }

    method InnerRemove(key: K) returns (r: Option<V>)
      requires Valid()
      modifies this
      ensures Valid()
      ensures entries == old(entries) - {key}
      ensures r == if key in old(entries) then Some(old(entries)[key]) else None
    {
      if key in entries {
        var data := entries[key];
        TotalSizeRemove(entries, size, key);
        assert (entries - {key}).Keys == entries.Keys - {key};
        entries := entries - {key};
        if tracked {
          trackedSize := trackedSize - size(data);
        }
        r := Some(data);
      } else {
        r := None;
      }
    }

    // The public operations skip everything when the cache has no capacity.
    method Insert(key: K, data: V)
      requires Valid()
      modifies this
      ensures Valid()
      ensures Submap(entries, old(entries)[key := data])
      ensures maxSize > 0 ==>
        if tracked then Evicted(old(entries)[key := data], entries) else Displaced(old(entries), entries, key, data)
    {
      if maxSize == 0 {
        return;
      }
      InnerInsert(key, data);
    }

    method InsertMany(items: seq<(K, V)>)
      requires Valid()
      modifies this
      ensures Valid()
      ensures Submap(entries, Overlay(old(entries), items))
    {
      if maxSize == 0 {
        return;
      }
      for i := 0 to |items|
        invariant Valid()
        invariant Submap(entries, Overlay(old(entries), items[..i]))
      {
        InnerInsert(items[i].0, items[i].1);
        assert items[..i + 1][..i] == items[..i];
      }
      assert items[..|items|] == items;
    }

    method UpdateIfEntryExists(key: K, op: V -> V)
      requires Valid()
      modifies this
      ensures Valid()
      ensures key !in old(entries) ==> entries == old(entries)
      ensures key in old(entries) ==>
        var updated := old(entries)[key := op(old(entries)[key])];
        if tracked then Evicted(updated, entries) else entries == updated
    {
      if maxSize == 0 {
        return;
      }
      InnerUpdateIfEntryExists(key, op);
    }

    method Remove(key: K) returns (r: Option<V>)
      requires Valid()
      modifies this
      ensures Valid()
      ensures entries == old(entries) - {key}
      ensures r == if key in old(entries) then Some(old(entries)[key]) else None
    {
      if maxSize == 0 {
        return None;
      }
      r := InnerRemove(key);
    }

    method RemoveMany(keys: seq<K>)
      requires Valid()
      modifies this
      ensures Valid()
      ensures entries == Without(old(entries), keys)
    {
      if maxSize == 0 {
        WithoutNothing<K, V>(keys);
        return;
      }
      for i := 0 to |keys|
        invariant Valid()
        invariant entries == Without(old(entries), keys[..i])
      {
        var r := InnerRemove(keys[i]);
        assert keys[..i + 1][..i] == keys[..i];
      }
      assert keys[..|keys|] == keys;
    }

    method RemoveAll()
      requires Valid()
      modifies this
      ensures Valid() && entries == map[]
    {
      if maxSize == 0 {
        return;
      }
      entries := map[];
      if tracked {
        trackedSize := 0;
      }
    }
  }

  // m with the items written over it in order.
  function Overlay<K, V>(m: map<K, V>, items: seq<(K, V)>): map<K, V> {
    if items == [] then m
    else
      var k := |items| - 1;
      Overlay(m, items[..k])[items[k].0 := items[k].1]
  }

  // m with the keys removed in order.
  function Without<K, V>(m: map<K, V>, keys: seq<K>): map<K, V> {
    if keys == [] then m
    else
      var n := |keys| - 1;
      Without(m, keys[..n]) - {keys[n]}
  }

  lemma {:induction false} WithoutNothing<K, V>(keys: seq<K>)
    ensures Without<K, V>(map[], keys) == map[]
  {
    if keys != [] {
      WithoutNothing<K, V>(keys[..|keys| - 1]);
    }
  }

  // The operations, and what each does to a cache that never evicts.
  datatype Op<K, !V> = InsertOp(key: K, data: V) | UpdateOp(key: K, op: V -> V) | RemoveOp(key: K) | ClearOp

  function Unbounded<K, V>(m: map<K, V>, op: Op<K, V>): map<K, V> {
    match op
    case InsertOp(k, v) => m[k := v]
    case UpdateOp(k, f) => if k in m then m[k := f(m[k])] else m
    case RemoveOp(k) => m - {k}
    case ClearOp => map[]
  }

  function UnboundedRun<K, V>(m: map<K, V>, ops: seq<Op<K, V>>): map<K, V> {
    if ops == [] then m
    else
      var n := |ops| - 1;
      Unbounded(UnboundedRun(m, ops[..n]), ops[n])
  }

  // Keeping fewer entries before an operation keeps fewer after it.
  lemma UnboundedKeeps<K(!new), V>(e: map<K, V>, m: map<K, V>, op: Op<K, V>)
    requires Submap(e, m)
    ensures Submap(Unbounded(e, op), Unbounded(m, op))
  {
  }

  method Perform<K(==, !new), V(==)>(cache: Cache<K, V>, op: Op<K, V>)
    requires cache.Valid()
    modifies cache
    ensures cache.Valid()
    ensures Submap(cache.entries, Unbounded(old(cache.entries), op))
  {
    match op
    case InsertOp(k, v) => cache.Insert(k, v);
    case UpdateOp(k, f) => cache.UpdateIfEntryExists(k, f);
    case RemoveOp(k) => var r := cache.Remove(k);
    case ClearOp => cache.RemoveAll();
  }

  // Over every run and every eviction choice the accounting stays exact, the
  // policy's bound holds, and each cached value is the latest one for its key.
  method Run<K(==, !new), V(==)>(cache: Cache<K, V>, ops: seq<Op<K, V>>)
    requires cache.Valid()
    modifies cache
    ensures cache.Valid()
    ensures Submap(cache.entries, UnboundedRun(old(cache.entries), ops))
  {
    for i := 0 to |ops|
      invariant cache.Valid()
      invariant Submap(cache.entries, UnboundedRun(old(cache.entries), ops[..i]))
    {
      assert ops[..i + 1][..i] == ops[..i];
      UnboundedKeeps(cache.entries, UnboundedRun(old(cache.entries), ops[..i]), ops[i]);
      Perform(cache, ops[i]);
    }
    assert ops[..|ops|] == ops;
  }
}
