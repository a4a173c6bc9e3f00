/**
 CachedDbAccess: typed, cached access to one prefix of the database, and the
 proof that the cache cannot be observed.
 */
module MapStore {
  import opened Database
  import opened EntryCache
  import opened Wrappers

  datatype StoreError = KeyNotFound(key: DbKey) | Deserialization

  // Where and how the store's entries are kept.
  datatype Layout<!K, !V> = Layout(prefix: Bytes, keyBytes: K -> Bytes, codec: Codec<V>) {
    function Path(k: K): Bytes {
      DbKey.New(prefix, keyBytes(k)).path
    }

    function Missing(k: K): Result<V, StoreError> {
      Err(KeyNotFound(DbKey.New(prefix, keyBytes(k))))
    }

    // Reading without a cache.
    function Lookup(data: Data, k: K): Result<V, StoreError> {
      if Path(k) !in data then Missing(k)
      else match codec.decode(data[Path(k)])
        case Ok(v) => Ok(v)
        case Err(_) => Err(Deserialization)
    }

    function PutOp(k: K, v: V): BatchOp {
      Put(Path(k), codec.encode(v))
    }

    function PutOps(items: seq<(K, V)>): seq<BatchOp> {
      seq(|items|, i requires 0 <= i < |items| => PutOp(items[i].0, items[i].1))
    }

    function DeleteOps(keys: seq<K>): seq<BatchOp> {
      seq(|keys|, i requires 0 <= i < |keys| => Delete(Path(keys[i])))
    }
  }

  // Distinct keys have distinct bytes, and what is encoded decodes to itself.
  ghost predicate Sound<K(!new), V(!new)>(l: Layout<K, V>) {
    && (forall k, k' :: l.keyBytes(k) == l.keyBytes(k') ==> k == k')
    && Lawful(l.codec)
  }

  lemma PathInjective<K(!new), V(!new)>(l: Layout<K, V>, k: K, k': K)
    requires Sound(l) && l.Path(k) == l.Path(k')
    ensures k == k'
  {
    assert l.keyBytes(k) == l.Path(k)[|l.prefix|..];
    assert l.keyBytes(k') == l.Path(k')[|l.prefix|..];
  }

  lemma LookupPut<K(!new), V(!new)>(l: Layout<K, V>, data: Data, k: K, v: V, j: K)
    requires Sound(l)
    ensures l.Lookup(Apply(data, l.PutOp(k, v)), j) == if j == k then Ok(v) else l.Lookup(data, j)
  {
    if j != k && l.Path(j) == l.Path(k) {
      PathInjective(l, j, k);
    }
  }

  lemma LookupDelete<K(!new), V(!new)>(l: Layout<K, V>, data: Data, k: K, j: K)
    requires Sound(l)
    ensures l.Lookup(Apply(data, Delete(l.Path(k))), j) == if j == k then l.Missing(k) else l.Lookup(data, j)
  {
    if j != k && l.Path(j) == l.Path(k) {
      PathInjective(l, j, k);
    }
  }

  // Deleting the prefix deletes every entry of the store.
  lemma LookupClear<K, V>(l: Layout<K, V>, data: Data, j: K)
    ensures l.Lookup(Apply(data, DeletePrefix(l.prefix)), j) == l.Missing(j)
  {
    assert l.prefix <= l.Path(j);
  }

  // Every cached entry is what an uncached read of the data would give.
  ghost predicate Coherent<K(!new), V(!new)>(l: Layout<K, V>, entries: map<K, V>, data: Data) {
    forall k :: k in entries ==> l.Lookup(data, k) == Ok(entries[k])
  }

  lemma CoherentPut<K(!new), V(!new)>(l: Layout<K, V>, entries: map<K, V>, after: map<K, V>, data: Data, k: K, v: V)
    requires Sound(l) && Coherent(l, entries, data) && Submap(after, entries[k := v])
    ensures Coherent(l, after, Apply(data, l.PutOp(k, v)))
  {
    forall j | j in after
      ensures l.Lookup(Apply(data, l.PutOp(k, v)), j) == Ok(after[j])
    {
      LookupPut(l, data, k, v, j);
    }
  }

  lemma CoherentDelete<K(!new), V(!new)>(l: Layout<K, V>, entries: map<K, V>, data: Data, k: K)
    requires Sound(l) && Coherent(l, entries, data)
    ensures Coherent(l, entries - {k}, Apply(data, Delete(l.Path(k))))
  {
    forall j | j in entries - {k}
      ensures l.Lookup(Apply(data, Delete(l.Path(k))), j) == Ok((entries - {k})[j])
    {
      LookupDelete(l, data, k, j);
    }
  }

  lemma {:induction false} CoherentPuts<K(!new), V(!new)>(l: Layout<K, V>, entries: map<K, V>, data: Data,
                                                          items: seq<(K, V)>)
    requires Sound(l) && Coherent(l, entries, data)
    ensures Coherent(l, Overlay(entries, items), ApplyAll(data, l.PutOps(items)))
  {
    if items != [] {
      var n := |items| - 1;
      CoherentPuts(l, entries, data, items[..n]);
      assert l.PutOps(items)[..n] == l.PutOps(items[..n]);
      CoherentPut(l, Overlay(entries, items[..n]), Overlay(entries, items), ApplyAll(data, l.PutOps(items[..n])),
                  items[n].0, items[n].1);
    }
  }

  lemma {:induction false} CoherentDeletes<K(!new), V(!new)>(l: Layout<K, V>, entries: map<K, V>, data: Data,
                                                             keys: seq<K>)
    requires Sound(l) && Coherent(l, entries, data)
    ensures Coherent(l, Without(entries, keys), ApplyAll(data, l.DeleteOps(keys)))
  {
    if keys != [] {
      var n := |keys| - 1;
      CoherentDeletes(l, entries, data, keys[..n]);
      assert l.DeleteOps(keys)[..n] == l.DeleteOps(keys[..n]);
      CoherentDelete(l, Without(entries, keys[..n]), ApplyAll(data, l.DeleteOps(keys[..n])), keys[n]);
    }
  }

  class MapStore<K(==, !new), V(==, !new)> {
    const db: Db
    const cache: Cache<K, V>
    const layout: Layout<K, V>

    ghost predicate Valid()
      reads this, cache
    {
      cache.Valid() && Sound(layout)
    }

    constructor (db: Db, policy: Policy, size: V -> nat, layout: Layout<K, V>)
      requires Sound(layout)
      ensures Valid() && fresh(cache) && cache.entries == map[]
      ensures this.db == db && this.layout == layout
      ensures policy.Count? ==> !cache.tracked && cache.maxSize == policy.limit
    {
      this.db := db;
      this.layout := layout;
      cache := new Cache(policy, size);
    }

    method Has(key: K) returns (r: bool)
      requires Valid()
      ensures r <==> key in cache.entries || layout.Path(key) in db.data
      ensures Coherent(layout, cache.entries, db.data) ==> (r <==> layout.Path(key) in db.data)
    {
      return cache.Get(key).Some? || DbKey.New(layout.prefix, layout.keyBytes(key)).path in db.data;
    }

    // On a miss the value read from the database is cached.
    method Read(key: K) returns (r: Result<V, StoreError>)
      requires Valid()
      modifies cache
      ensures Valid()
      ensures r == if key in old(cache.entries) then Ok(old(cache.entries)[key]) else layout.Lookup(db.data, key)
      ensures if r.Ok? then Submap(cache.entries, old(cache.entries)[key := r.value])
              else cache.entries == old(cache.entries)
      ensures r.Ok? && !cache.tracked && cache.maxSize > 0 ==> key in cache.entries
    {
      var hit := cache.Get(key);
      if hit.Some? {
        return Ok(hit.value);
      }
      var dbKey := DbKey.New(layout.prefix, layout.keyBytes(key));
      if dbKey.path in db.data {
        match layout.codec.decode(db.data[dbKey.path])
        case Ok(data) =>
          cache.Insert(key, data);
          return Ok(data);
        case Err(_) =>
          return Err(Deserialization);
      } else {
        return Err(KeyNotFound(dbKey));
      }
    }

    // The operations have gone through the writer, and cache and committed database
    // still agree if they did before.
    twostate predicate Performed(writer: Writer, ops: seq<BatchOp>)
      reads this, cache, writer, writer.db
    {
      && Valid() && writer.Valid() && writer.Wrote(ops)
      && (old(Coherent(layout, cache.entries, writer.Committed())) ==>
            Coherent(layout, cache.entries, writer.Committed()))
    }

    method Write(writer: Writer, key: K, data: V)
      requires Valid() && writer.Valid() && writer.db == db
      modifies cache, writer, db
      ensures Performed(writer, [layout.PutOp(key, data)])
      ensures Submap(cache.entries, old(cache.entries)[key := data])
      ensures !cache.tracked && cache.maxSize > 0 ==> key in cache.entries
    {
      ghost var entries, committed := cache.entries, writer.Committed();
      var binData := layout.codec.encode(data);
      cache.Insert(key, data);
      writer.Write(Put(DbKey.New(layout.prefix, layout.keyBytes(key)).path, binData));
      if Coherent(layout, entries, committed) {
        CoherentPut(layout, entries, cache.entries, committed, key, data);
      }
      ApplyOne(committed, layout.PutOp(key, data));
    }

    method WriteMany(writer: Writer, items: seq<(K, V)>)
      requires Valid() && writer.Valid() && writer.db == db
      modifies cache, writer, db
      ensures Performed(writer, layout.PutOps(items))
      ensures Submap(cache.entries, Overlay(old(cache.entries), items))
    {
      ghost var entries, committed := cache.entries, writer.Committed();
      cache.InsertMany(items);
      writer.WriteAll(layout.PutOps(items));
      if Coherent(layout, entries, committed) {
        CoherentPuts(layout, entries, committed, items);
      }
    }

    // Caches nothing, and so must clear the cache.
    method WriteManyWithoutCache(writer: Writer, items: seq<(K, V)>)
      requires Valid() && writer.Valid() && writer.db == db
      modifies cache, writer, db
      ensures Performed(writer, layout.PutOps(items))
      ensures Coherent(layout, cache.entries, writer.Committed())
      ensures cache.entries == map[]
    {
      writer.WriteAll(layout.PutOps(items));
      cache.RemoveAll();
    }

    method Remove(writer: Writer, key: K)
      requires Valid() && writer.Valid() && writer.db == db
      modifies cache, writer, db
      ensures Performed(writer, [Delete(layout.Path(key))])
      ensures cache.entries == old(cache.entries) - {key}
    {
      if Coherent(layout, cache.entries, writer.Committed()) {
        CoherentDelete(layout, cache.entries, writer.Committed(), key);
      }
      var removed := cache.Remove(key);
      ApplyOne(writer.Committed(), Delete(layout.Path(key)));
      writer.Write(Delete(DbKey.New(layout.prefix, layout.keyBytes(key)).path));
    }

    method RemoveMany(writer: Writer, keys: seq<K>)
      requires Valid() && writer.Valid() && writer.db == db
      modifies cache, writer, db
      ensures Performed(writer, layout.DeleteOps(keys))
      ensures cache.entries == Without(old(cache.entries), keys)
    {
      if Coherent(layout, cache.entries, writer.Committed()) {
        CoherentDeletes(layout, cache.entries, writer.Committed(), keys);
      }
      cache.RemoveMany(keys);
      writer.WriteAll(layout.DeleteOps(keys));
    }

    method RemoveAll(writer: Writer)
      requires Valid() && writer.Valid() && writer.db == db
      modifies cache, writer, db
      ensures Performed(writer, [DeletePrefix(layout.prefix)])
      ensures Coherent(layout, cache.entries, writer.Committed())
      ensures cache.entries == map[]
      ensures forall k :: layout.Lookup(writer.Committed(), k) == layout.Missing(k)
      ensures forall path: Bytes :: !(layout.prefix <= path) ==>
        SameAt(old(writer.Committed()), writer.Committed(), path)
    {
      ghost var before := writer.Committed();
      cache.RemoveAll();
      assert layout.prefix + [] == layout.prefix;
      writer.Write(DeletePrefix(DbKey.PrefixOnly(layout.prefix).path));
      ApplyOne(before, DeletePrefix(layout.prefix));
      forall k
        ensures layout.Lookup(writer.Committed(), k) == layout.Missing(k)
      {
        LookupClear(layout, before, k);
      }
    }
  }
}
