/**
 Whole runs of the cached map store against the same store without a cache.
 */
module MapStoreRuns {
  import opened Database
  import opened MapStore
  import opened Wrappers

  datatype Request<K, V> =
    | ReadOp(key: K)
    | HasOp(key: K)
    | WriteOp(key: K, data: V)
    | WriteManyOp(items: seq<(K, V)>)
    | WriteUncachedOp(items: seq<(K, V)>)
    | DeleteOp(key: K)
    | DeleteManyOp(keys: seq<K>)
    | DeleteAllOp
    | CommitOp

  datatype Response<V> = Value(result: Result<V, StoreError>) | Present(present: bool) | Done

  function Writes<K, V>(l: Layout<K, V>, op: Request<K, V>): seq<BatchOp> {
    match op
    case WriteOp(k, v) => [l.PutOp(k, v)]
    case WriteManyOp(items) => l.PutOps(items)
    case WriteUncachedOp(items) => l.PutOps(items)
    case DeleteOp(k) => [Delete(l.Path(k))]
    case DeleteManyOp(keys) => l.DeleteOps(keys)
    case DeleteAllOp => [DeletePrefix(l.prefix)]
    case _ => []
  }

  function PlainNext<K, V>(l: Layout<K, V>, direct: bool, s: Plain, op: Request<K, V>): Plain {
    if op.CommitOp? then s.Flushed() else s.Written(direct, Writes(l, op))
  }

  function PlainResponse<K, V>(l: Layout<K, V>, s: Plain, op: Request<K, V>): Response<V> {
    match op
    case ReadOp(k) => Value(l.Lookup(s.data, k))
    case HasOp(k) => Present(l.Path(k) in s.data)
    case _ => Done
  }

  function PlainRun<K, V>(l: Layout<K, V>, direct: bool, s: Plain, ops: seq<Request<K, V>>): Plain {
    if ops == [] then s
    else
      var n := |ops| - 1;
      PlainNext(l, direct, PlainRun(l, direct, s, ops[..n]), ops[n])
  }

  function PlainResponses<K, V>(l: Layout<K, V>, direct: bool, s: Plain, ops: seq<Request<K, V>>): seq<Response<V>> {
    if ops == [] then []
    else
      var n := |ops| - 1;
      PlainResponses(l, direct, s, ops[..n]) + [PlainResponse(l, PlainRun(l, direct, s, ops[..n]), ops[n])]
  }

  // What a read finds right after an operation on its path.
  function Outcome<K, V>(l: Layout<K, V>, k: K, op: BatchOp): Result<V, StoreError> {
    if !op.Put? then Err(KeyNotFound(DbKey.New(l.prefix, l.keyBytes(k))))
    else match l.codec.decode(op.value)
      case Ok(v) => Ok(v)
      case Err(_) => Err(Deserialization)
  }

  // The open batch makes no difference to reading k: it does not touch it, or its last
  // operation on it leaves what the database gives anyway.
  ghost predicate Harmless<K, V>(l: Layout<K, V>, s: Plain, k: K) {
    var last := LastTouch(s.pending, l.Path(k));
    last == [] || Outcome(l, k, last[0]) == l.Lookup(s.data, k)
  }

  ghost predicate SafeAt<K, V>(l: Layout<K, V>, s: Plain, op: Request<K, V>) {
    && (op.ReadOp? ==> Harmless(l, s, op.key))
    && (op.HasOp? ==> s.KeepsPresence(l.Path(op.key)))
  }

  ghost predicate Safe<K, V>(l: Layout<K, V>, direct: bool, s: Plain, ops: seq<Request<K, V>>) {
    forall i :: 0 <= i < |ops| ==> SafeAt(l, PlainRun(l, direct, s, ops[..i]), ops[i])
  }

  // One more operation of a run.
  lemma {:induction false} Prolonged<K, V>(l: Layout<K, V>, direct: bool, s: Plain, ops: seq<Request<K, V>>, i: nat)
    requires i < |ops|
    ensures PlainRun(l, direct, s, ops[..i + 1]) == PlainNext(l, direct, PlainRun(l, direct, s, ops[..i]), ops[i])
    ensures PlainResponses(l, direct, s, ops[..i + 1])
         == PlainResponses(l, direct, s, ops[..i]) + [PlainResponse(l, PlainRun(l, direct, s, ops[..i]), ops[i])]
  {
    assert ops[..i + 1][..i] == ops[..i];
  }

  lemma {:induction false} DirectNeverPends<K, V>(l: Layout<K, V>, s: Plain, ops: seq<Request<K, V>>)
    requires s.pending == []
    ensures PlainRun(l, true, s, ops).pending == []
  {
    if ops != [] {
      DirectNeverPends(l, s, ops[..|ops| - 1]);
    }
  }

  // With a direct writer every run is safe.
  lemma {:induction false} DirectIsSafe<K, V>(l: Layout<K, V>, s: Plain, ops: seq<Request<K, V>>)
    requires s.pending == []
    ensures Safe(l, true, s, ops)
  {
    forall i | 0 <= i < |ops|
      ensures SafeAt(l, PlainRun(l, true, s, ops[..i]), ops[i])
    {
      DirectNeverPends(l, s, ops[..i]);
    }
  }

  // Exactly the harmless batches leave the answer to a read as it is.
  lemma HarmlessExactly<K, V>(l: Layout<K, V>, s: Plain, k: K)
    ensures l.Lookup(s.Committed(), k) == l.Lookup(s.data, k) <==> Harmless(l, s, k)
  {
    LastTouchDecides(s.data, s.pending, l.Path(k));
  }

  method Step<K(==, !new), V(==, !new)>(store: MapStore<K, V>, writer: Writer,
                                        op: Request<K, V>) returns (r: Response<V>)
    requires store.Valid() && writer.Valid() && writer.db == store.db
    modifies store.cache, writer, store.db
    ensures store.Valid() && writer.Valid()
    ensures Plain(store.db.data, writer.pending)
         == PlainNext(store.layout, writer.direct, Plain(old(store.db.data), old(writer.pending)), op)
    ensures old(Coherent(store.layout, store.cache.entries, writer.Committed())) ==>
      SafeAt(store.layout, Plain(old(store.db.data), old(writer.pending)), op) ==>
        && Coherent(store.layout, store.cache.entries, writer.Committed())
        && r == PlainResponse(store.layout, Plain(old(store.db.data), old(writer.pending)), op)
  {
    ghost var s := Plain(store.db.data, writer.pending);
    match op
    case ReadOp(k) =>
      HarmlessExactly(store.layout, s, k);
      var v := store.Read(k);
      r := Value(v);
    case HasOp(k) =>
      s.PresenceKept(store.layout.Path(k));
      var b := store.Has(k);
      r := Present(b);
    case CommitOp =>
      writer.Commit();
      r := Done;
    case _ =>
      Perform(store, writer, op);
      r := Done;
  }

  method Perform<K(==, !new), V(==, !new)>(store: MapStore<K, V>, writer: Writer, op: Request<K, V>)
    requires store.Valid() && writer.Valid() && writer.db == store.db
    requires !op.ReadOp? && !op.HasOp? && !op.CommitOp?
    modifies store.cache, writer, store.db
    ensures store.Performed(writer, Writes(store.layout, op))
  {
    ghost var ops := Writes(store.layout, op);
    match op
    case WriteOp(k, v) =>
      assert ops == [store.layout.PutOp(k, v)];
      store.Write(writer, k, v);
    case WriteManyOp(items) =>
      assert ops == store.layout.PutOps(items);
      store.WriteMany(writer, items);
    case WriteUncachedOp(items) =>
      assert ops == store.layout.PutOps(items);
      store.WriteManyWithoutCache(writer, items);
    case DeleteOp(k) =>
      assert ops == [Delete(store.layout.Path(k))];
      store.Remove(writer, k);
    case DeleteManyOp(keys) =>
      assert ops == store.layout.DeleteOps(keys);
      store.RemoveMany(writer, keys);
    case DeleteAllOp =>
      assert ops == [DeletePrefix(store.layout.prefix)];
      store.RemoveAll(writer);
  }

  // The cache is invisible. Over every run and every eviction choice the database is
  // that of the uncached store. If besides every open batch is harmless to what the
  // run reads meanwhile, all responses are those of the uncached store, and the cache
  // agrees with the database as it stands after the next commit.
  method Run<K(==, !new), V(==, !new)>(store: MapStore<K, V>, writer: Writer, ops: seq<Request<K, V>>)
    returns (responses: seq<Response<V>>)
    requires store.Valid() && writer.Valid() && writer.db == store.db
    modifies store.cache, writer, store.db
    ensures store.Valid() && writer.Valid()
    ensures Plain(store.db.data, writer.pending)
         == PlainRun(store.layout, writer.direct, Plain(old(store.db.data), old(writer.pending)), ops)
    ensures old(Coherent(store.layout, store.cache.entries, writer.Committed())) ==>
      Safe(store.layout, writer.direct, Plain(old(store.db.data), old(writer.pending)), ops) ==>
        && Coherent(store.layout, store.cache.entries, writer.Committed())
        && responses == PlainResponses(store.layout, writer.direct, Plain(old(store.db.data), old(writer.pending)), ops)
  {
    ghost var s := Plain(store.db.data, writer.pending);
    ghost var safe := Coherent(store.layout, store.cache.entries, writer.Committed())
      && Safe(store.layout, writer.direct, s, ops);
    responses := [];
    for i := 0 to |ops|
      invariant store.Valid() && writer.Valid()
      invariant Plain(store.db.data, writer.pending) == PlainRun(store.layout, writer.direct, s, ops[..i])
      invariant safe ==> Coherent(store.layout, store.cache.entries, writer.Committed())
      invariant safe ==> responses == PlainResponses(store.layout, writer.direct, s, ops[..i])
    {
      Prolonged(store.layout, writer.direct, s, ops, i);
      assert safe ==> SafeAt(store.layout, PlainRun(store.layout, writer.direct, s, ops[..i]), ops[i]);
      var r := Step(store, writer, ops[i]);
      responses := responses + [r];
    }
    assert ops[..|ops|] == ops;
  }

  // A read answers as the uncached store and leaves cache and committed database in
  // agreement if and only if the open batch is harmless to it, or nothing is cached
  // and the database has nothing to cache either.
  lemma ReadExactly<K(!new), V(!new)>(l: Layout<K, V>, entries: map<K, V>, s: Plain, k: K)
    requires Coherent(l, entries, s.Committed())
    ensures var found := l.Lookup(s.data, k);
      var r := if k in entries then Ok(entries[k]) else found;
      r == found && Coherent(l, if r.Ok? then entries[k := r.value] else entries, s.Committed()) <==>
        Harmless(l, s, k) || (k !in entries && found.Err?)
  {
    HarmlessExactly(l, s, k);
    var found := l.Lookup(s.data, k);
    var r := if k in entries then Ok(entries[k]) else found;
    if r.Ok? {
      assert k in entries[k := r.value];
    }
  }

  // Without that condition the store does go wrong: delete in a batch, read,
  // commit, and the store still returns the deleted value.
  method StaleAfterCommit<K(==, !new), V(==, !new)>(store: MapStore<K, V>, writer: Writer, k: K)
    returns (stale: Result<V, StoreError>)
    requires store.Valid() && writer.Valid() && writer.db == store.db && !writer.direct && writer.pending == []
    requires Coherent(store.layout, store.cache.entries, store.db.data)
    requires !store.cache.tracked && store.cache.maxSize > 0
    requires store.layout.Lookup(store.db.data, k).Ok?
    modifies store.cache, writer, store.db
    ensures stale.Ok? && store.layout.Path(k) !in store.db.data
  {
    store.Remove(writer, k);
    var before := store.Read(k);
    writer.Commit();
    stale := store.Read(k);
    assert writer.db.data == Apply(old(store.db.data), Delete(store.layout.Path(k))) by {
      ApplyOne(old(store.db.data), Delete(store.layout.Path(k)));
    }
  }
}
