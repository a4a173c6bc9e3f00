/**
 Whole runs of the cached set store against the same store without a cache.
 */
module SetStoreRuns {
  import opened Database
  import opened SetStore
  import opened Wrappers

  datatype Request<K, T> =
    | ReadOp(key: K)
    | WriteOp(key: K, data: T)
    | DeleteOp(key: K, data: T)
    | DeleteBucketOp(key: K)
    | CommitOp

  datatype Response<T> = Value(result: Result<set<T>, ()>) | Done

  function Writes<K, T>(l: Layout<K, T>, op: Request<K, T>): seq<BatchOp> {
    match op
    case WriteOp(k, d) => [Put(l.ItemPath(k, d), [])]
    case DeleteOp(k, d) => [Delete(l.ItemPath(k, d))]
    case DeleteBucketOp(k) => [DeletePrefix(l.BucketPath(k))]
    case _ => []
  }

  function PlainNext<K, T>(l: Layout<K, T>, direct: bool, s: Plain, op: Request<K, T>): Plain {
    if op.CommitOp? then s.Flushed() else s.Written(direct, Writes(l, op))
  }

  ghost function PlainResponse<K(!new), T>(l: Layout<K, T>, s: Plain, op: Request<K, T>): Response<T> {
    if op.ReadOp? then Value(ReadBucket(l, s.data, op.key)) else Done
  }

  function PlainRun<K, T>(l: Layout<K, T>, direct: bool, s: Plain, ops: seq<Request<K, T>>): Plain {
    if ops == [] then s
    else
      var n := |ops| - 1;
      PlainNext(l, direct, PlainRun(l, direct, s, ops[..n]), ops[n])
  }

  ghost function PlainResponses<K(!new), T>(l: Layout<K, T>, direct: bool, s: Plain,
                                            ops: seq<Request<K, T>>): seq<Response<T>> {
    if ops == [] then []
    else
      var n := |ops| - 1;
      PlainResponses(l, direct, s, ops[..n]) + [PlainResponse(l, PlainRun(l, direct, s, ops[..n]), ops[n])]
  }

  // Whether an operation can change what a prefix iteration over p visits.
  predicate TouchesPrefix(op: BatchOp, p: Bytes) {
    match op
    case Put(k, _) => p <= k
    case Delete(k) => p <= k
    case DeletePrefix(q) => q <= p || p <= q
  }

  // The open batch makes no difference to any element of the set under k.
  ghost predicate Harmless<K(!new), T(!new)>(l: Layout<K, T>, s: Plain, k: K) {
    forall d :: s.KeepsPresence(l.ItemPath(k, d))
  }

  ghost predicate SafeAt<K(!new), T(!new)>(l: Layout<K, T>, s: Plain, op: Request<K, T>) {
    op.ReadOp? ==>
      || (forall i :: 0 <= i < |s.pending| ==> !TouchesPrefix(s.pending[i], l.BucketPath(op.key)))
      || (WellFormed(l, s.data) && Harmless(l, s, op.key))
  }

  ghost predicate Safe<K(!new), T(!new)>(l: Layout<K, T>, direct: bool, s: Plain, ops: seq<Request<K, T>>) {
    forall i :: 0 <= i < |ops| ==> SafeAt(l, PlainRun(l, direct, s, ops[..i]), ops[i])
  }

  // One more operation of a run.
  lemma {:induction false} Prolonged<K(!new), T(!new)>(l: Layout<K, T>, direct: bool, s: Plain, ops: seq<Request<K, T>>, i: nat)
    requires i < |ops|
    ensures PlainRun(l, direct, s, ops[..i + 1]) == PlainNext(l, direct, PlainRun(l, direct, s, ops[..i]), ops[i])
    ensures PlainResponses(l, direct, s, ops[..i + 1])
         == PlainResponses(l, direct, s, ops[..i]) + [PlainResponse(l, PlainRun(l, direct, s, ops[..i]), ops[i])]
  {
    assert ops[..i + 1][..i] == ops[..i];
  }

  lemma {:induction false} DirectNeverPends<K(!new), T(!new)>(l: Layout<K, T>, s: Plain, ops: seq<Request<K, T>>)
    requires s.pending == []
    ensures PlainRun(l, true, s, ops).pending == []
  {
    if ops != [] {
      DirectNeverPends(l, s, ops[..|ops| - 1]);
    }
  }

  // With a direct writer every run is safe.
  lemma {:induction false} DirectIsSafe<K(!new), T(!new)>(l: Layout<K, T>, s: Plain, ops: seq<Request<K, T>>)
    requires s.pending == []
    ensures Safe(l, true, s, ops)
  {
    forall i | 0 <= i < |ops|
      ensures SafeAt(l, PlainRun(l, true, s, ops[..i]), ops[i])
    {
      DirectNeverPends(l, s, ops[..i]);
    }
  }

  // A bucket the batch does not touch iterates the same before and after it.
  lemma {:induction false} UntouchedBucket<K, T>(l: Layout<K, T>, data: Data, ops: seq<BatchOp>, k: K)
    requires forall i :: 0 <= i < |ops| ==> !TouchesPrefix(ops[i], l.BucketPath(k))
    ensures l.BucketKeys(ApplyAll(data, ops), k) == l.BucketKeys(data, k)
  {
    if ops != [] {
      var n := |ops| - 1;
      UntouchedBucket(l, data, ops[..n], k);
      KeepsBucket(l, ApplyAll(data, ops[..n]), ops[n], k);
    }
  }

  lemma KeepsBucket<K, T>(l: Layout<K, T>, data: Data, op: BatchOp, k: K)
    requires !TouchesPrefix(op, l.BucketPath(k))
    ensures l.BucketKeys(Apply(data, op), k) == l.BucketKeys(data, k)
  {
    if op.DeletePrefix? {
      forall b | b in l.BucketKeys(data, k)
        ensures b in Apply(data, op)
      {
        if op.prefix <= b {
          PrefixesCompare(op.prefix, l.BucketPath(k), b);
        }
      }
    }
  }

  // The exact condition under which a batch leaves a stored set as it is.
  lemma HarmlessExactly<K(!new), T(!new)>(l: Layout<K, T>, s: Plain, k: K)
    requires Lawful(l.codec) && WellFormed(l, s.data) && WellFormed(l, s.Committed())
    ensures Bucket(l, s.Committed(), k) == Bucket(l, s.data, k) <==> Harmless(l, s, k)
  {
    var before, after := Bucket(l, s.data, k), Bucket(l, s.Committed(), k);
    forall d
      ensures (d in before <==> d in after) <==> s.KeepsPresence(l.ItemPath(k, d))
    {
      InBucket(l, s.data, k, d);
      InBucket(l, s.Committed(), k, d);
      s.PresenceKept(l.ItemPath(k, d));
    }
    if Harmless(l, s, k) {
      assert forall d :: d in before <==> d in after;
    } else {
      var d :| !s.KeepsPresence(l.ItemPath(k, d));
      assert !(d in before <==> d in after);
    }
  }

  lemma ReadSame<K(!new), T(!new)>(l: Layout<K, T>, s: Plain, k: K)
    requires Lawful(l.codec) && WellFormed(l, s.Committed()) && SafeAt(l, s, ReadOp(k))
    ensures ReadBucket(l, s.Committed(), k) == ReadBucket(l, s.data, k)
  {
    if WellFormed(l, s.data) && Harmless(l, s, k) {
      HarmlessExactly(l, s, k);
      assert ReadBucket(l, s.data, k) == Ok(Bucket(l, s.data, k));
    } else {
      UntouchedBucket(l, s.data, s.pending, k);
    }
  }

  // A read returns what the uncached store would and leaves cache and committed
  // database in agreement if and only if the open batch is harmless to the set read.
  lemma ReadExactly<K(!new), T(!new)>(l: Layout<K, T>, entries: map<K, set<T>>, s: Plain, k: K)
    requires Lawful(l.codec) && WellFormed(l, s.data) && Coherent(l, entries, s.Committed())
    ensures var v := if k in entries then entries[k] else Bucket(l, s.data, k);
      v == Bucket(l, s.data, k) && Coherent(l, entries[k := v], s.Committed()) <==> Harmless(l, s, k)
  {
    HarmlessExactly(l, s, k);
    var v := if k in entries then entries[k] else Bucket(l, s.data, k);
    assert entries[k := v][k] == v;
  }

  method Step<K(==, !new), T(==, !new)>(store: SetStore<K, T>, writer: Writer,
                                        op: Request<K, T>) returns (r: Response<T>)
    requires store.Valid() && writer.Valid() && writer.db == store.db
    modifies store.cache, writer, store.db
    ensures store.Valid() && writer.Valid()
    ensures Plain(store.db.data, writer.pending)
         == PlainNext(store.layout, writer.direct, Plain(old(store.db.data), old(writer.pending)), op)
    ensures old(Coherent(store.layout, store.cache.entries, writer.Committed())) ==>
      SafeAt(store.layout, Plain(old(store.db.data), old(writer.pending)), op) ==>
        && Coherent(store.layout, store.cache.entries, writer.Committed())
        && r == PlainResponse(store.layout, Plain(old(store.db.data), old(writer.pending)), op)
  {
    match op
    case ReadOp(k) =>
      if Coherent(store.layout, store.cache.entries, writer.Committed())
        && SafeAt(store.layout, Plain(store.db.data, writer.pending), op) {
        ReadSame(store.layout, Plain(store.db.data, writer.pending), k);
      }
      var v := store.Read(k);
      r := Value(v);
    case WriteOp(k, d) =>
      store.Write(writer, k, d);
      r := Done;
    case DeleteOp(k, d) =>
      store.Remove(writer, k, d);
      r := Done;
    case DeleteBucketOp(k) =>
      store.RemoveBucket(writer, k);
      r := Done;
    case CommitOp =>
      writer.Commit();
      r := Done;
  }

  // Over every run and every eviction choice the database is that of the uncached
  // store. If besides every open batch is harmless to the sets the run reads meanwhile,
  // all reads are those of the uncached store, and each cached set equals its bucket as
  // it stands after the next commit.
  method Run<K(==, !new), T(==, !new)>(store: SetStore<K, T>, writer: Writer, ops: seq<Request<K, T>>)
    returns (responses: seq<Response<T>>)
    requires store.Valid() && writer.Valid() && writer.db == store.db
    modifies store.cache, writer, store.db
    ensures store.Valid() && writer.Valid()
    ensures Plain(store.db.data, writer.pending)
         == PlainRun(store.layout, writer.direct, Plain(old(store.db.data), old(writer.pending)), ops)
    ensures old(Coherent(store.layout, store.cache.entries, writer.Committed())) ==>
      Safe(store.layout, writer.direct, Plain(old(store.db.data), old(writer.pending)), ops) ==>
        && Coherent(store.layout, store.cache.entries, writer.Committed())
        && responses == PlainResponses(store.layout, writer.direct, Plain(old(store.db.data), old(writer.pending)), ops)
  {
    ghost var s := Plain(store.db.data, writer.pending);
    ghost var safe := Coherent(store.layout, store.cache.entries, writer.Committed())
      && Safe(store.layout, writer.direct, s, ops);
    responses := [];
    for i := 0 to |ops|
      invariant store.Valid() && writer.Valid()
      invariant Plain(store.db.data, writer.pending) == PlainRun(store.layout, writer.direct, s, ops[..i])
      invariant safe ==> Coherent(store.layout, store.cache.entries, writer.Committed())
      invariant safe ==> responses == PlainResponses(store.layout, writer.direct, s, ops[..i])
    {
      Prolonged(store.layout, writer.direct, s, ops, i);
      assert safe ==> SafeAt(store.layout, PlainRun(store.layout, writer.direct, s, ops[..i]), ops[i]);
      var r := Step(store, writer, ops[i]);
      responses := responses + [r];
    }
    assert ops[..|ops|] == ops;
  }

  // Without that condition the store does go wrong: write to an uncached set in a
  // batch, read, commit, and the set read from then on lacks the element.
  method StaleAfterCommit<K(==, !new), T(==, !new)>(store: SetStore<K, T>, writer: Writer, k: K, d: T)
    returns (stale: Result<set<T>, ()>)
    requires store.Valid() && writer.Valid() && writer.db == store.db && !writer.direct && writer.pending == []
    requires Coherent(store.layout, store.cache.entries, store.db.data) && k !in store.cache.entries
    requires !store.cache.tracked && store.cache.maxSize > 0
    requires d !in Bucket(store.layout, store.db.data, k)
    modifies store.cache, writer, store.db
    ensures WellFormed(store.layout, store.db.data) && d in Bucket(store.layout, store.db.data, k)
    ensures stale.Ok? && d !in stale.value
  {
    ghost var before := store.db.data;
    store.Write(writer, k, d);
    var first := store.Read(k);
    assert first == Ok(Bucket(store.layout, before, k));
    writer.Commit();
    assert store.db.data == Apply(before, Put(store.layout.ItemPath(k, d), [])) by {
      ApplyOne(before, Put(store.layout.ItemPath(k, d), []));
    }
    stale := store.Read(k);
    BucketAfterWrite(store.layout, before, k, d, k);
  }
}
