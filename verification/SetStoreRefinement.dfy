/**
 What the set store is to its users: a set per key. Whole runs of requests, with
 either writer, answer as plain sets would, and leave other stores' entries alone.
 */
module SetStoreRefinement {
  import opened Database
  import opened SetStore
  import opened SetStoreRuns
  import opened Wrappers

  type Sets<!K, T> = K -> set<T>

  // The database holds these sets under the store's prefix.
  ghost predicate Represents<K(!new), T(!new)>(l: Layout<K, T>, data: Data, m: Sets<K, T>) {
    WellFormed(l, data) && forall k :: Bucket(l, data, k) == m(k)
  }

  // A request to plain sets.
  function SetsNext<K(==), T>(m: Sets<K, T>, op: Request<K, T>): Sets<K, T> {
    match op
    case WriteOp(k, d) => j => if j == k then m(j) + {d} else m(j)
    case DeleteOp(k, d) => j => if j == k then m(j) - {d} else m(j)
    case DeleteBucketOp(k) => j => if j == k then {} else m(j)
    case _ => m
  }

  // What readers see, and what will be stored once the open batch is written.
  datatype Views<!K, T> = Views(visible: Sets<K, T>, committed: Sets<K, T>)

  function ViewsNext<K(==), T>(direct: bool, s: Views<K, T>, op: Request<K, T>): Views<K, T> {
    if op.CommitOp? then Views(s.committed, s.committed)
    else Views(if direct then SetsNext(s.visible, op) else s.visible, SetsNext(s.committed, op))
  }

  function SetResponse<K, T>(s: Views<K, T>, op: Request<K, T>): Response<T> {
    if op.ReadOp? then Value(Ok(s.visible(op.key))) else Done
  }

  function ViewsRun<K(==), T>(direct: bool, s: Views<K, T>, ops: seq<Request<K, T>>): Views<K, T> {
    if ops == [] then s
    else
      var n := |ops| - 1;
      ViewsNext(direct, ViewsRun(direct, s, ops[..n]), ops[n])
  }

  function SetResponses<K(==), T>(direct: bool, s: Views<K, T>, ops: seq<Request<K, T>>): seq<Response<T>> {
    if ops == [] then []
    else
      var n := |ops| - 1;
      SetResponses(direct, s, ops[..n]) + [SetResponse(ViewsRun(direct, s, ops[..n]), ops[n])]
  }

  // What a request writes does to the data what the request does to the sets.
  lemma WritesRepresent<K(!new), T(!new)>(l: Layout<K, T>, data: Data, m: Sets<K, T>, op: Request<K, T>)
    requires Sound(l) && Represents(l, data, m)
    ensures Represents(l, ApplyAll(data, Writes(l, op)), SetsNext(m, op))
  {
    match op
    case WriteOp(k, d) =>
      ApplyOne(data, Put(l.ItemPath(k, d), []));
      WrittenWellFormed(l, data, k, d);
      forall j
        ensures Bucket(l, Apply(data, Put(l.ItemPath(k, d), [])), j) == SetsNext(m, op)(j)
      {
        BucketAfterWrite(l, data, k, d, j);
      }
    case DeleteOp(k, d) =>
      ApplyOne(data, Delete(l.ItemPath(k, d)));
      BucketAfterDelete(l, data, k, d, k);
      forall j
        ensures Bucket(l, Apply(data, Delete(l.ItemPath(k, d))), j) == SetsNext(m, op)(j)
      {
        BucketAfterDelete(l, data, k, d, j);
      }
    case DeleteBucketOp(k) =>
      ApplyOne(data, DeletePrefix(l.BucketPath(k)));
      BucketAfterClear(l, data, k, k);
      forall j
        ensures Bucket(l, Apply(data, DeletePrefix(l.BucketPath(k))), j) == SetsNext(m, op)(j)
      {
        BucketAfterClear(l, data, k, j);
      }
    case _ =>
  }

  ghost predicate Refines<K(!new), T(!new)>(l: Layout<K, T>, s: Plain, m: Views<K, T>) {
    Represents(l, s.data, m.visible) && Represents(l, s.Committed(), m.committed)
  }

  lemma NextRefines<K(!new), T(!new)>(l: Layout<K, T>, direct: bool, s: Plain, m: Views<K, T>, op: Request<K, T>)
    requires Sound(l) && Refines(l, s, m) && (direct ==> s.pending == [])
    ensures Refines(l, PlainNext(l, direct, s, op), ViewsNext(direct, m, op))
    ensures direct ==> PlainNext(l, direct, s, op).pending == []
    ensures PlainResponse(l, s, op) == SetResponse(m, op)
  {
    if op.ReadOp? {
      assert Bucket(l, s.data, op.key) == m.visible(op.key);
    }
    WritesRepresent(l, s.Committed(), m.committed, op);
    if direct {
      WritesRepresent(l, s.data, m.visible, op);
    } else {
      ApplyConcat(s.data, s.pending, Writes(l, op));
    }
  }

  // Over every run, direct or batched, a store without a cache answers every read as
  // plain sets would, and ends up holding them.
  lemma {:induction false} RunRefinesSets<K(!new), T(!new)>(l: Layout<K, T>, direct: bool, s: Plain, m: Views<K, T>,
                                                            ops: seq<Request<K, T>>)
    requires Sound(l) && Refines(l, s, m) && (direct ==> s.pending == [])
    ensures Refines(l, PlainRun(l, direct, s, ops), ViewsRun(direct, m, ops))
    ensures direct ==> PlainRun(l, direct, s, ops).pending == []
    ensures PlainResponses(l, direct, s, ops) == SetResponses(direct, m, ops)
  {
    if ops != [] {
      var n := |ops| - 1;
      RunRefinesSets(l, direct, s, m, ops[..n]);
      NextRefines(l, direct, PlainRun(l, direct, s, ops[..n]), ViewsRun(direct, m, ops[..n]), ops[n]);
    }
  }

  // The cached store is a family of sets. Over every run and every eviction choice, with a direct
  // writer always and with a batch writer as long as open batches are harmless to what
  // is read meanwhile, every answer is the sets' and so is what is stored in the end.
  method Serve<K(==, !new), T(==, !new)>(store: SetStore<K, T>, writer: Writer, ops: seq<Request<K, T>>,
                                        ghost m: Views<K, T>)
    returns (responses: seq<Response<T>>)
    requires store.Valid() && writer.Valid() && writer.db == store.db
    requires Coherent(store.layout, store.cache.entries, writer.Committed())
    requires Refines(store.layout, Plain(store.db.data, writer.pending), m)
    requires writer.direct || Safe(store.layout, false, Plain(store.db.data, writer.pending), ops)
    modifies store.cache, writer, store.db
    ensures responses == SetResponses(writer.direct, m, ops)
    ensures Refines(store.layout, Plain(store.db.data, writer.pending), ViewsRun(writer.direct, m, ops))
  {
    ghost var s := Plain(store.db.data, writer.pending);
    if writer.direct {
      DirectIsSafe(store.layout, s, ops);
    }
    RunRefinesSets(store.layout, writer.direct, s, m, ops);
    responses := Run(store, writer, ops);
  }

  // ---- Other stores ----

  lemma WritesInside<K, T>(l: Layout<K, T>, op: Request<K, T>, path: Bytes)
    requires !(l.prefix <= path)
    ensures Untouched(Writes(l, op), path)
  {
    if !op.CommitOp? {
      assert l.prefix <= l.BucketPath(op.key);
    }
  }

  // Over every run what is stored outside the prefix stays as it is.
  lemma {:induction false} RunStaysInside<K, T>(l: Layout<K, T>, direct: bool, s: Plain, ops: seq<Request<K, T>>, path: Bytes)
    requires !(l.prefix <= path) && Untouched(s.pending, path)
    ensures var t := PlainRun(l, direct, s, ops);
      Untouched(t.pending, path) && SameAt(s.data, t.data, path)
  {
    if ops != [] {
      var n := |ops| - 1;
      RunStaysInside(l, direct, s, ops[..n], path);
      var t := PlainRun(l, direct, s, ops[..n]);
      WritesInside(l, ops[n], path);
      LastTouchDecides(t.data, t.pending, path);
      LastTouchDecides(t.data, Writes(l, ops[n]), path);
    }
  }
}
