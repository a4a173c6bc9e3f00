/**
 What the map store is to its users: a map. Whole runs of requests, with either
 writer, answer as a plain map would, and leave other stores' entries alone.
 */
module MapStoreRefinement {
  import opened Database
  import opened EntryCache
  import opened MapStore
  import opened MapStoreRuns
  import opened Wrappers

  // The database holds the map m under the store's prefix.
  ghost predicate Represents<K(!new), V(!new)>(l: Layout<K, V>, data: Data, m: map<K, V>) {
    forall k :: l.Lookup(data, k) == Find(l, m, k)
  }

  function Find<K, V>(l: Layout<K, V>, m: map<K, V>, k: K): Result<V, StoreError> {
    if k in m then Ok(m[k]) else Err(KeyNotFound(DbKey.New(l.prefix, l.keyBytes(k))))
  }

  // A request to a plain map.
  function MapNext<K, V>(m: map<K, V>, op: Request<K, V>): map<K, V> {
    match op
    case WriteOp(k, v) => m[k := v]
    case WriteManyOp(items) => Overlay(m, items)
    case WriteUncachedOp(items) => Overlay(m, items)
    case DeleteOp(k) => m - {k}
    case DeleteManyOp(keys) => Without(m, keys)
    case DeleteAllOp => map[]
    case _ => m
  }

  // What readers see, and what will be stored once the open batch is written.
  datatype Maps<K, V> = Maps(visible: map<K, V>, committed: map<K, V>)

  function MapsNext<K, V>(direct: bool, s: Maps<K, V>, op: Request<K, V>): Maps<K, V> {
    if op.CommitOp? then Maps(s.committed, s.committed)
    else Maps(if direct then MapNext(s.visible, op) else s.visible, MapNext(s.committed, op))
  }

  function MapResponse<K, V>(l: Layout<K, V>, s: Maps<K, V>, op: Request<K, V>): Response<V> {
    match op
    case ReadOp(k) => Value(Find(l, s.visible, k))
    case HasOp(k) => Present(k in s.visible)
    case _ => Done
  }

  function MapsRun<K, V>(direct: bool, s: Maps<K, V>, ops: seq<Request<K, V>>): Maps<K, V> {
    if ops == [] then s
    else
      var n := |ops| - 1;
      MapsNext(direct, MapsRun(direct, s, ops[..n]), ops[n])
  }

  function MapResponses<K, V>(l: Layout<K, V>, direct: bool, s: Maps<K, V>, ops: seq<Request<K, V>>): seq<Response<V>> {
    if ops == [] then []
    else
      var n := |ops| - 1;
      MapResponses(l, direct, s, ops[..n]) + [MapResponse(l, MapsRun(direct, s, ops[..n]), ops[n])]
  }

  lemma PutRepresents<K(!new), V(!new)>(l: Layout<K, V>, data: Data, m: map<K, V>, k: K, v: V)
    requires Sound(l) && Represents(l, data, m)
    ensures Represents(l, Apply(data, l.PutOp(k, v)), m[k := v])
  {
    forall j
      ensures l.Lookup(Apply(data, l.PutOp(k, v)), j) == Find(l, m[k := v], j)
    {
      LookupPut(l, data, k, v, j);
      assert l.Lookup(data, j) == Find(l, m, j);
    }
  }

  lemma DeleteRepresents<K(!new), V(!new)>(l: Layout<K, V>, data: Data, m: map<K, V>, k: K)
    requires Sound(l) && Represents(l, data, m)
    ensures Represents(l, Apply(data, Delete(l.Path(k))), m - {k})
  {
    forall j
      ensures l.Lookup(Apply(data, Delete(l.Path(k))), j) == Find(l, m - {k}, j)
    {
      LookupDelete(l, data, k, j);
      assert l.Lookup(data, j) == Find(l, m, j);
    }
  }

  lemma {:induction false} PutsRepresent<K(!new), V(!new)>(l: Layout<K, V>, data: Data, m: map<K, V>, items: seq<(K, V)>)
    requires Sound(l) && Represents(l, data, m)
    ensures Represents(l, ApplyAll(data, l.PutOps(items)), Overlay(m, items))
  {
    if items != [] {
      var n := |items| - 1;
      PutsRepresent(l, data, m, items[..n]);
      assert l.PutOps(items)[..n] == l.PutOps(items[..n]);
      PutRepresents(l, ApplyAll(data, l.PutOps(items[..n])), Overlay(m, items[..n]), items[n].0, items[n].1);
    }
  }

  lemma {:induction false} DeletesRepresent<K(!new), V(!new)>(l: Layout<K, V>, data: Data, m: map<K, V>, keys: seq<K>)
    requires Sound(l) && Represents(l, data, m)
    ensures Represents(l, ApplyAll(data, l.DeleteOps(keys)), Without(m, keys))
  {
    if keys != [] {
      var n := |keys| - 1;
      DeletesRepresent(l, data, m, keys[..n]);
      assert l.DeleteOps(keys)[..n] == l.DeleteOps(keys[..n]);
      DeleteRepresents(l, ApplyAll(data, l.DeleteOps(keys[..n])), Without(m, keys[..n]), keys[n]);
    }
  }

  // What a request writes does to the data what the request does to the map.
  lemma WritesRepresent<K(!new), V(!new)>(l: Layout<K, V>, data: Data, m: map<K, V>, op: Request<K, V>)
    requires Sound(l) && Represents(l, data, m)
    ensures Represents(l, ApplyAll(data, Writes(l, op)), MapNext(m, op))
  {
    match op
    case WriteOp(k, v) =>
      ApplyOne(data, l.PutOp(k, v));
      PutRepresents(l, data, m, k, v);
    case WriteManyOp(items) => PutsRepresent(l, data, m, items);
    case WriteUncachedOp(items) => PutsRepresent(l, data, m, items);
    case DeleteOp(k) =>
      ApplyOne(data, Delete(l.Path(k)));
      DeleteRepresents(l, data, m, k);
    case DeleteManyOp(keys) => DeletesRepresent(l, data, m, keys);
    case DeleteAllOp =>
      ApplyOne(data, DeletePrefix(l.prefix));
      forall j
        ensures l.Lookup(Apply(data, DeletePrefix(l.prefix)), j) == Find(l, map[], j)
      {
        LookupClear(l, data, j);
      }
    case _ =>
  }

  ghost predicate Refines<K(!new), V(!new)>(l: Layout<K, V>, s: Plain, m: Maps<K, V>) {
    Represents(l, s.data, m.visible) && Represents(l, s.Committed(), m.committed)
  }

  lemma NextRefines<K(!new), V(!new)>(l: Layout<K, V>, direct: bool, s: Plain, m: Maps<K, V>, op: Request<K, V>)
    requires Sound(l) && Refines(l, s, m) && (direct ==> s.pending == [])
    ensures Refines(l, PlainNext(l, direct, s, op), MapsNext(direct, m, op))
    ensures direct ==> PlainNext(l, direct, s, op).pending == []
    ensures PlainResponse(l, s, op) == MapResponse(l, m, op)
  {
    if op.ReadOp? || op.HasOp? {
      assert l.Lookup(s.data, op.key) == Find(l, m.visible, op.key);
    }
    WritesRepresent(l, s.Committed(), m.committed, op);
    if direct {
      WritesRepresent(l, s.data, m.visible, op);
    } else {
      ApplyConcat(s.data, s.pending, Writes(l, op));
    }
  }

  // Over every run, direct or batched, a store without a cache answers every request
  // as a map would, and ends up holding that map.
  lemma {:induction false} RunRefinesMap<K(!new), V(!new)>(l: Layout<K, V>, direct: bool, s: Plain, m: Maps<K, V>,
                                                           ops: seq<Request<K, V>>)
    requires Sound(l) && Refines(l, s, m) && (direct ==> s.pending == [])
    ensures Refines(l, PlainRun(l, direct, s, ops), MapsRun(direct, m, ops))
    ensures direct ==> PlainRun(l, direct, s, ops).pending == []
    ensures PlainResponses(l, direct, s, ops) == MapResponses(l, direct, m, ops)
  {
    if ops != [] {
      var n := |ops| - 1;
      RunRefinesMap(l, direct, s, m, ops[..n]);
      NextRefines(l, direct, PlainRun(l, direct, s, ops[..n]), MapsRun(direct, m, ops[..n]), ops[n]);
    }
  }

  // The cached store is a map. Over every run and every eviction choice, with a direct
  // writer always and with a batch writer as long as open batches are harmless to what
  // is read meanwhile, every answer is the map's and so is what is stored in the end.
  method Serve<K(==, !new), V(==, !new)>(store: MapStore<K, V>, writer: Writer, ops: seq<Request<K, V>>,
                                        ghost m: Maps<K, V>)
    returns (responses: seq<Response<V>>)
    requires store.Valid() && writer.Valid() && writer.db == store.db
    requires Coherent(store.layout, store.cache.entries, writer.Committed())
    requires Refines(store.layout, Plain(store.db.data, writer.pending), m)
    requires writer.direct || Safe(store.layout, false, Plain(store.db.data, writer.pending), ops)
    modifies store.cache, writer, store.db
    ensures responses == MapResponses(store.layout, writer.direct, m, ops)
    ensures Refines(store.layout, Plain(store.db.data, writer.pending), MapsRun(writer.direct, m, ops))
  {
    ghost var s := Plain(store.db.data, writer.pending);
    if writer.direct {
      DirectIsSafe(store.layout, s, ops);
    }
    RunRefinesMap(store.layout, writer.direct, s, m, ops);
    responses := MapStoreRuns.Run(store, writer, ops);
  }

  // A new store holds the empty map.
  lemma EmptyRepresents<K(!new), V(!new)>(l: Layout<K, V>)
    ensures Represents(l, map[], map[])
  {
  }

  // ---- Other stores ----

  lemma WritesInside<K, V>(l: Layout<K, V>, op: Request<K, V>, path: Bytes)
    requires !(l.prefix <= path)
    ensures Untouched(Writes(l, op), path)
  {
    forall k: K
      ensures l.Path(k) != path
    {
      assert l.prefix <= l.Path(k);
    }
  }

  // Over every run what is stored outside the prefix stays as it is.
  lemma {:induction false} RunStaysInside<K, V>(l: Layout<K, V>, direct: bool, s: Plain, ops: seq<Request<K, V>>, path: Bytes)
    requires !(l.prefix <= path) && Untouched(s.pending, path)
    ensures var t := PlainRun(l, direct, s, ops);
      Untouched(t.pending, path) && SameAt(s.data, t.data, path)
  {
    if ops != [] {
      var n := |ops| - 1;
      RunStaysInside(l, direct, s, ops[..n], path);
      var t := PlainRun(l, direct, s, ops[..n]);
      WritesInside(l, ops[n], path);
      LastTouchDecides(t.data, t.pending, path);
      LastTouchDecides(t.data, Writes(l, ops[n]), path);
    }
  }
}
