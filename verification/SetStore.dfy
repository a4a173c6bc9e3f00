/**
 CachedDbSetAccess over DbSetAccess: a set per key, stored as one database entry
 per element under the key's bucket, with whole sets cached.
 */
module SetStore {
  import opened Database
  import opened EntryCache
  import opened Wrappers

  datatype Layout<!K, !T> = Layout(prefix: Bytes, keyBytes: K -> Bytes, codec: Codec<T>) {
    function BucketPath(k: K): (p: Bytes)
      ensures p == prefix + keyBytes(k)
    {
      DbKey.NewWithBucket(prefix, keyBytes(k), []).path
    }

    function ItemPath(k: K, d: T): (p: Bytes)
      ensures p == BucketPath(k) + codec.encode(d)
    {
      DbKey.NewWithBucket(prefix, keyBytes(k), codec.encode(d)).path
    }

    // The database keys a prefix iteration over k's bucket visits.
    function BucketKeys(data: Data, k: K): set<Bytes> {
      set b | b in data && BucketPath(k) <= b
    }

    // What such a key decodes to once the bucket's prefix is cut off.
    function Item(k: K, b: Bytes): Result<T, ()>
      requires BucketPath(k) <= b
    {
      codec.decode(b[DbKey.NewWithBucket(prefix, keyBytes(k), []).prefixLen..])
    }
  }

  // No key's bytes are the beginning of another key's bytes. Keys of one fixed
  // length are the usual case.
  ghost predicate PrefixFree<K(!new), T>(l: Layout<K, T>) {
    forall k, k' :: l.keyBytes(k) <= l.keyBytes(k') ==> k == k'
  }

  lemma FixedLengthIsPrefixFree<K(!new), T>(l: Layout<K, T>, n: nat)
    requires forall k :: |l.keyBytes(k)| == n
    requires forall k, k' :: l.keyBytes(k) == l.keyBytes(k') ==> k == k'
    ensures PrefixFree(l)
  {
    forall k, k' | l.keyBytes(k) <= l.keyBytes(k')
      ensures k == k'
    {
      assert |l.keyBytes(k)| == |l.keyBytes(k')|;
    }
  }

  ghost predicate Sound<K(!new), T(!new)>(l: Layout<K, T>) {
    PrefixFree(l) && Lawful(l.codec)
  }

  // Every entry in a bucket is the encoding of some element.
  ghost predicate WellFormed<K(!new), T>(l: Layout<K, T>, data: Data) {
    forall k, b :: b in l.BucketKeys(data, k) ==>
      l.Item(k, b).Ok? && b == l.ItemPath(k, l.Item(k, b).value)
  }

  // Reading k's bucket without a cache: one undecodable entry fails the read.
  ghost function ReadBucket<K(!new), T>(l: Layout<K, T>, data: Data, k: K): Result<set<T>, ()> {
    if forall b :: b in l.BucketKeys(data, k) ==> l.Item(k, b).Ok?
    then Ok(set b | b in l.BucketKeys(data, k) :: l.Item(k, b).value)
    else Err(())
  }

  // The set stored under k.
  ghost function Bucket<K(!new), T>(l: Layout<K, T>, data: Data, k: K): (s: set<T>)
    requires WellFormed(l, data)
    ensures ReadBucket(l, data, k) == Ok(s)
  {
    set b | b in l.BucketKeys(data, k) :: l.Item(k, b).value
  }

  lemma InBucket<K(!new), T(!new)>(l: Layout<K, T>, data: Data, k: K, d: T)
    requires Lawful(l.codec) && WellFormed(l, data)
    ensures d in Bucket(l, data, k) <==> l.ItemPath(k, d) in data
  {
    var b := l.ItemPath(k, d);
    assert b[|l.BucketPath(k)|..] == l.codec.encode(d);
    if b in data {
      assert b in l.BucketKeys(data, k);
    }
  }

  // One of two prefixes of the same bytes is a prefix of the other.
  lemma PrefixesCompare(a: Bytes, b: Bytes, c: Bytes)
    requires a <= c && b <= c
    ensures a <= b || b <= a
  {
    if |a| <= |b| {
      assert a == c[..|a|] == c[..|b|][..|a|];
    } else {
      assert b == c[..|b|] == c[..|a|][..|b|];
    }
  }

  // An entry belongs to one bucket only.
  lemma OneBucket<K(!new), T>(l: Layout<K, T>, j: K, k: K, b: Bytes)
    requires PrefixFree(l) && l.BucketPath(j) <= b && l.BucketPath(k) <= b
    ensures j == k
  {
    var n := |l.prefix|;
    assert l.BucketPath(j)[n..] == l.keyBytes(j) && l.BucketPath(k)[n..] == l.keyBytes(k);
    assert l.keyBytes(j) <= b[n..] && l.keyBytes(k) <= b[n..];
    PrefixesCompare(l.keyBytes(j), l.keyBytes(k), b[n..]);
  }

  // Exactly when writing an element under k leaves bucket j alone, whatever is
  // stored: when j's bytes do not begin k's bytes followed by the element.
  lemma WriteLeavesBucket<K(!new), T>(l: Layout<K, T>, j: K, k: K, d: T)
    ensures (forall data: Data :: l.BucketKeys(Apply(data, Put(l.ItemPath(k, d), [])), j) == l.BucketKeys(data, j))
       <==> !(l.keyBytes(j) <= l.keyBytes(k) + l.codec.encode(d))
  {
    var p, n := l.ItemPath(k, d), |l.prefix|;
    assert p == l.prefix + (l.keyBytes(k) + l.codec.encode(d));
    assert l.BucketPath(j) <= p <==> l.keyBytes(j) <= l.keyBytes(k) + l.codec.encode(d) by {
      if l.BucketPath(j) <= p {
        assert l.BucketPath(j)[n..] == l.keyBytes(j) && p[n..] == l.keyBytes(k) + l.codec.encode(d);
      }
    }
    if l.BucketPath(j) <= p {
      var none: Data := map[];
      assert p in l.BucketKeys(Apply(none, Put(p, [])), j) && p !in l.BucketKeys(none, j);
    }
  }

  // Exactly when clearing k's bucket leaves bucket j alone, whatever is stored: when
  // neither key's bytes begin the other's.
  lemma ClearLeavesBucket<K(!new), T>(l: Layout<K, T>, j: K, k: K)
    ensures (forall data: Data :: l.BucketKeys(Apply(data, DeletePrefix(l.BucketPath(k))), j) == l.BucketKeys(data, j))
       <==> !(l.keyBytes(j) <= l.keyBytes(k)) && !(l.keyBytes(k) <= l.keyBytes(j))
  {
    var p, q := l.BucketPath(j), l.BucketPath(k);
    PrefixedKeys(l, j, k);
    PrefixedKeys(l, k, j);
    if p <= q || q <= p {
      var b := if p <= q then q else p;
      var one: Data := map[b := []];
      assert b in l.BucketKeys(one, j) && b !in l.BucketKeys(Apply(one, DeletePrefix(q)), j);
    } else {
      forall data: Data
        ensures l.BucketKeys(Apply(data, DeletePrefix(q)), j) == l.BucketKeys(data, j)
      {
        forall b | b in l.BucketKeys(data, j)
          ensures !(q <= b)
        {
          if q <= b {
            PrefixesCompare(p, q, b);
          }
        }
      }
    }
  }

  lemma PrefixedKeys<K(!new), T>(l: Layout<K, T>, j: K, k: K)
    ensures l.BucketPath(j) <= l.BucketPath(k) <==> l.keyBytes(j) <= l.keyBytes(k)
  {
    var n := |l.prefix|;
    assert l.BucketPath(j)[n..] == l.keyBytes(j) && l.BucketPath(k)[n..] == l.keyBytes(k);
    assert l.BucketPath(j)[..n] == l.BucketPath(k)[..n];
  }

  // One byte, one element.
  function ByteCodec(): Codec<Byte> {
    Codec((x: Byte) => [x], (b: Bytes) => if |b| == 1 then Ok(b[0]) else Err(()))
  }

  // Keys of two lengths: the second begins with the first.
  function NestedLayout(): Layout<bool, Byte> {
    Layout([9], (long: bool) => if long then [1, 2] else [1], ByteCodec())
  }

  // Writing the element 2 under the short key of this layout puts an entry into the
  // bucket of the long one, and clearing the short key's bucket clears both.
  lemma KeysInterfere()
    ensures var l := NestedLayout();
      && Lawful(l.codec)
      && l.BucketKeys(Apply(map[], Put(l.ItemPath(false, 2), [])), true) == {[9, 1, 2]}
      && l.BucketKeys(Apply(map[l.ItemPath(true, 7) := []], DeletePrefix(l.BucketPath(false))), true) == {}
  {
    var l := NestedLayout();
    assert l.ItemPath(false, 2) == [9, 1, 2] == l.BucketPath(true);
    assert l.BucketPath(false) == [9, 1] <= [9, 1, 2, 7] == l.ItemPath(true, 7);
  }

  lemma WrittenWellFormed<K(!new), T(!new)>(l: Layout<K, T>, data: Data, k: K, d: T)
    requires Sound(l) && WellFormed(l, data)
    ensures WellFormed(l, Apply(data, Put(l.ItemPath(k, d), [])))
  {
    var p := l.ItemPath(k, d);
    var after := Apply(data, Put(p, []));
    forall j, b | b in l.BucketKeys(after, j)
      ensures l.Item(j, b).Ok? && b == l.ItemPath(j, l.Item(j, b).value)
    {
      if b == p {
        OneBucket(l, j, k, b);
        assert b[|l.BucketPath(k)|..] == l.codec.encode(d);
      } else {
        assert b in l.BucketKeys(data, j);
      }
    }
  }

  lemma BucketAfterWrite<K(!new), T(!new)>(l: Layout<K, T>, data: Data, k: K, d: T, j: K)
    requires Sound(l) && WellFormed(l, data)
    ensures var after := Apply(data, Put(l.ItemPath(k, d), []));
      WellFormed(l, after) && Bucket(l, after, j) == if j == k then Bucket(l, data, k) + {d} else Bucket(l, data, j)
  {
    var p := l.ItemPath(k, d);
    var after := Apply(data, Put(p, []));
    WrittenWellFormed(l, data, k, d);
    forall e
      ensures e in Bucket(l, after, j) <==> e in Bucket(l, data, j) || (j == k && e == d)
    {
      InBucket(l, after, j, e);
      InBucket(l, data, j, e);
      SameItem(l, j, e, k, d);
    }
  }

  lemma SameItem<K(!new), T(!new)>(l: Layout<K, T>, j: K, e: T, k: K, d: T)
    requires Sound(l)
    ensures l.ItemPath(j, e) == l.ItemPath(k, d) <==> j == k && e == d
  {
    var p := l.ItemPath(k, d);
    if l.ItemPath(j, e) == p {
      OneBucket(l, j, k, p);
      assert p[|l.BucketPath(k)|..] == l.codec.encode(d);
      assert l.ItemPath(j, e)[|l.BucketPath(k)|..] == l.codec.encode(e);
    }
  }

  lemma ShrunkWellFormed<K(!new), T>(l: Layout<K, T>, data: Data, after: Data)
    requires WellFormed(l, data) && forall b :: b in after ==> b in data
    ensures WellFormed(l, after)
  {
    forall j, b | b in l.BucketKeys(after, j)
      ensures l.Item(j, b).Ok? && b == l.ItemPath(j, l.Item(j, b).value)
    {
      assert b in l.BucketKeys(data, j);
    }
  }

  lemma BucketAfterDelete<K(!new), T(!new)>(l: Layout<K, T>, data: Data, k: K, d: T, j: K)
    requires Sound(l) && WellFormed(l, data)
    ensures var after := Apply(data, Delete(l.ItemPath(k, d)));
      WellFormed(l, after) && Bucket(l, after, j) == if j == k then Bucket(l, data, k) - {d} else Bucket(l, data, j)
  {
    var after := Apply(data, Delete(l.ItemPath(k, d)));
    ShrunkWellFormed(l, data, after);
    forall e
      ensures e in Bucket(l, after, j) <==> e in Bucket(l, data, j) && !(j == k && e == d)
    {
      InBucket(l, after, j, e);
      InBucket(l, data, j, e);
      SameItem(l, j, e, k, d);
    }
  }

  lemma BucketAfterClear<K(!new), T(!new)>(l: Layout<K, T>, data: Data, k: K, j: K)
    requires Sound(l) && WellFormed(l, data)
    ensures var after := Apply(data, DeletePrefix(l.BucketPath(k)));
      WellFormed(l, after) && Bucket(l, after, j) == if j == k then {} else Bucket(l, data, j)
  {
    var after := Apply(data, DeletePrefix(l.BucketPath(k)));
    ShrunkWellFormed(l, data, after);
    forall e
      ensures e in Bucket(l, after, j) <==> e in Bucket(l, data, j) && j != k
    {
      InBucket(l, after, j, e);
      InBucket(l, data, j, e);
      var p := l.ItemPath(j, e);
      if j != k && l.BucketPath(k) <= p {
        OneBucket(l, j, k, p);
      }
    }
  }

  // Every cached set is the set stored in the data.
  ghost predicate Coherent<K(!new), T(!new)>(l: Layout<K, T>, entries: map<K, set<T>>, data: Data) {
    WellFormed(l, data) && forall k :: k in entries ==> entries[k] == Bucket(l, data, k)
  }

  // What updating a cached set does to the entries, evictions included.
  ghost predicate Updated<K(!new), T>(before: map<K, set<T>>, after: map<K, set<T>>, k: K, op: set<T> -> set<T>) {
    if k in before then Submap(after, before[k := op(before[k])]) else after == before
  }

  lemma CoherentWrite<K(!new), T(!new)>(l: Layout<K, T>, before: map<K, set<T>>, after: map<K, set<T>>, data: Data,
                                        k: K, d: T)
    requires Sound(l) && Coherent(l, before, data) && Updated(before, after, k, s => s + {d})
    ensures Coherent(l, after, Apply(data, Put(l.ItemPath(k, d), [])))
  {
    WrittenWellFormed(l, data, k, d);
    forall j | j in after
      ensures after[j] == Bucket(l, Apply(data, Put(l.ItemPath(k, d), [])), j)
    {
      BucketAfterWrite(l, data, k, d, j);
    }
  }

  lemma CoherentDelete<K(!new), T(!new)>(l: Layout<K, T>, before: map<K, set<T>>, after: map<K, set<T>>, data: Data,
                                         k: K, d: T)
    requires Sound(l) && Coherent(l, before, data) && Updated(before, after, k, s => s - {d})
    ensures Coherent(l, after, Apply(data, Delete(l.ItemPath(k, d))))
  {
    BucketAfterDelete(l, data, k, d, k);
    forall j | j in after
      ensures after[j] == Bucket(l, Apply(data, Delete(l.ItemPath(k, d))), j)
    {
      BucketAfterDelete(l, data, k, d, j);
    }
  }

  lemma CoherentClear<K(!new), T(!new)>(l: Layout<K, T>, before: map<K, set<T>>, data: Data, k: K)
    requires Sound(l) && Coherent(l, before, data)
    ensures Coherent(l, before - {k}, Apply(data, DeletePrefix(l.BucketPath(k))))
  {
    BucketAfterClear(l, data, k, k);
    forall j | j in before - {k}
      ensures (before - {k})[j] == Bucket(l, Apply(data, DeletePrefix(l.BucketPath(k))), j)
    {
      BucketAfterClear(l, data, k, j);
    }
  }

  // bucket_iterator(key).collect(): the first entry that fails to decode fails the read.
  method CollectBucket<K(==, !new), T(==, !new)>(l: Layout<K, T>, data: Data, key: K) returns (r: Result<set<T>, ()>)
    ensures r == ReadBucket(l, data, key)
  {
    var left := l.BucketKeys(data, key);
    var items: set<T> := {};
    while left != {}
      invariant left <= l.BucketKeys(data, key)
      invariant forall b :: b in l.BucketKeys(data, key) - left ==> l.Item(key, b).Ok?
      invariant items == set b | b in l.BucketKeys(data, key) - left :: l.Item(key, b).value
      decreases left
    {
      var b :| b in left;
      var item := l.Item(key, b);
      if item.Err? {
        return Err(());
      }
      ghost var done := l.BucketKeys(data, key) - left;
      left := left - {b};
      assert l.BucketKeys(data, key) - left == done + {b};
      items := items + {item.value};
    }
    assert l.BucketKeys(data, key) - left == l.BucketKeys(data, key);
    return Ok(items);
  }

  class SetStore<K(==, !new), T(==, !new)> {
    const db: Db
    const cache: Cache<K, set<T>>
    const layout: Layout<K, T>

    ghost predicate Valid()
      reads this, cache
    {
      cache.Valid() && Sound(layout)
    }

    constructor (db: Db, policy: Policy, size: set<T> -> nat, layout: Layout<K, T>)
      requires Sound(layout)
      ensures Valid() && fresh(cache) && cache.entries == map[]
      ensures this.db == db && this.layout == layout
    {
      this.db := db;
      this.layout := layout;
      cache := new Cache(policy, size);
    }

    // read_locked_entry
    method Read(key: K) returns (r: Result<set<T>, ()>)
      requires Valid()
      modifies cache
      ensures Valid()
      ensures r == if key in old(cache.entries) then Ok(old(cache.entries)[key]) else ReadBucket(layout, db.data, key)
      ensures if r.Ok? then Submap(cache.entries, old(cache.entries)[key := r.value])
              else cache.entries == old(cache.entries)
      ensures r.Ok? && !cache.tracked && cache.maxSize > 0 ==> key in cache.entries
    {
      var hit := cache.Get(key);
      if hit.Some? {
        return Ok(hit.value);
      }
      r := CollectBucket(layout, db.data, key);
      if r.Ok? {
        cache.Insert(key, r.value);
      }
    }

    // The new element is cached only if the whole set already is.
    method Write(writer: Writer, key: K, data: T)
      requires Valid() && writer.Valid() && writer.db == db
      modifies cache, writer, db
      ensures Valid() && writer.Valid()
      ensures old(Coherent(layout, cache.entries, writer.Committed()))
          ==> Coherent(layout, cache.entries, writer.Committed())
      ensures Updated(old(cache.entries), cache.entries, key, s => s + {data})
      ensures writer.Wrote([Put(layout.ItemPath(key, data), [])])
    {
      ghost var entries, committed := cache.entries, writer.Committed();
      cache.UpdateIfEntryExists(key, s => s + {data});
      writer.Write(Put(layout.ItemPath(key, data), []));
      ApplyOne(committed, Put(layout.ItemPath(key, data), []));
      if Coherent(layout, entries, committed) {
        CoherentWrite(layout, entries, cache.entries, committed, key, data);
      }
    }

    method Remove(writer: Writer, key: K, data: T)
      requires Valid() && writer.Valid() && writer.db == db
      modifies cache, writer, db
      ensures Valid() && writer.Valid()
      ensures old(Coherent(layout, cache.entries, writer.Committed()))
          ==> Coherent(layout, cache.entries, writer.Committed())
      ensures Updated(old(cache.entries), cache.entries, key, s => s - {data})
      ensures writer.Wrote([Delete(layout.ItemPath(key, data))])
    {
      ghost var entries, committed := cache.entries, writer.Committed();
      cache.UpdateIfEntryExists(key, s => s - {data});
      writer.Write(Delete(layout.ItemPath(key, data)));
      ApplyOne(committed, Delete(layout.ItemPath(key, data)));
      if Coherent(layout, entries, committed) {
        CoherentDelete(layout, entries, cache.entries, committed, key, data);
      }
    }

    method RemoveBucket(writer: Writer, key: K)
      requires Valid() && writer.Valid() && writer.db == db
      modifies cache, writer, db
      ensures Valid() && writer.Valid()
      ensures old(Coherent(layout, cache.entries, writer.Committed()))
          ==> Coherent(layout, cache.entries, writer.Committed())
      ensures cache.entries == old(cache.entries) - {key}
      ensures writer.Wrote([DeletePrefix(layout.BucketPath(key))])
    {
      ghost var entries, committed := cache.entries, writer.Committed();
      var removed := cache.Remove(key);
      writer.Write(DeletePrefix(layout.BucketPath(key)));
      ApplyOne(committed, DeletePrefix(layout.BucketPath(key)));
      if Coherent(layout, entries, committed) {
        CoherentClear(layout, entries, committed, key);
      }
    }
  }
}
