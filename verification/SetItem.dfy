/**
 CachedDbSetItem: one set stored in the database, one entry per element, and held
 in memory whole from its first use on.
 */
module SetItem {
  import opened Database
  import opened SetStore
  import opened Wrappers
  import SetStoreRuns

  function DeleteOps<T>(l: Layout<(), T>, items: seq<T>): seq<BatchOp> {
    seq(|items|, i requires 0 <= i < |items| => Delete(l.ItemPath((), items[i])))
  }

  function PutOps<T>(l: Layout<(), T>, items: seq<T>): seq<BatchOp> {
    seq(|items|, i requires 0 <= i < |items| => Put(l.ItemPath((), items[i]), []))
  }

  function Elements<T(==)>(items: seq<T>): set<T> {
    set x | x in items
  }

  // The database holds exactly the set s.
  ghost predicate Holds<T(!new)>(l: Layout<(), T>, data: Data, s: set<T>) {
    WellFormed(l, data) && Bucket(l, data, ()) == s
  }

  lemma HoldsAfterDelete<T(!new)>(l: Layout<(), T>, data: Data, s: set<T>, d: T)
    requires Sound(l) && Holds(l, data, s)
    ensures Holds(l, Apply(data, Delete(l.ItemPath((), d))), s - {d})
  {
    BucketAfterDelete(l, data, (), d, ());
  }

  lemma HoldsAfterPut<T(!new)>(l: Layout<(), T>, data: Data, s: set<T>, d: T)
    requires Sound(l) && Holds(l, data, s)
    ensures Holds(l, Apply(data, Put(l.ItemPath((), d), [])), s + {d})
  {
    BucketAfterWrite(l, data, (), d, ());
  }

  lemma ElementsSnoc<T>(items: seq<T>)
    requires items != []
    ensures var n := |items| - 1; Elements(items) == Elements(items[..n]) + {items[n]}
  {
    var n := |items| - 1;
    assert items == items[..n] + [items[n]];
  }

  lemma {:induction false} HoldsAfterDeletes<T(!new)>(l: Layout<(), T>, data: Data, s: set<T>, items: seq<T>)
    requires Sound(l) && Holds(l, data, s)
    ensures Holds(l, ApplyAll(data, DeleteOps(l, items)), s - Elements(items))
  {
    if items == [] {
      assert s - Elements(items) == s;
    } else {
      var n := |items| - 1;
      HoldsAfterDeletes(l, data, s, items[..n]);
      assert DeleteOps(l, items)[..n] == DeleteOps(l, items[..n]);
      HoldsAfterDelete(l, ApplyAll(data, DeleteOps(l, items[..n])), s - Elements(items[..n]), items[n]);
      ElementsSnoc(items);
      assert s - Elements(items) == s - Elements(items[..n]) - {items[n]};
    }
  }

  lemma {:induction false} HoldsAfterPuts<T(!new)>(l: Layout<(), T>, data: Data, s: set<T>, items: seq<T>)
    requires Sound(l) && Holds(l, data, s)
    ensures Holds(l, ApplyAll(data, PutOps(l, items)), s + Elements(items))
  {
    if items == [] {
      assert s + Elements(items) == s;
    } else {
      var n := |items| - 1;
      HoldsAfterPuts(l, data, s, items[..n]);
      assert PutOps(l, items)[..n] == PutOps(l, items[..n]);
      HoldsAfterPut(l, ApplyAll(data, PutOps(l, items[..n])), s + Elements(items[..n]), items[n]);
      ElementsSnoc(items);
      assert s + Elements(items) == s + Elements(items[..n]) + {items[n]};
    }
  }

  lemma ConcatAssoc(a: seq<BatchOp>, b: seq<BatchOp>, c: seq<BatchOp>)
    ensures a + b + c == a + (b + c)
  {
  }

  // The two loops of update: one database operation and one set operation an item.
  method DeleteItems<T(==, !new)>(writer: Writer, l: Layout<(), T>, items: seq<T>, s: set<T>) returns (t: set<T>)
    requires writer.Valid()
    modifies writer, writer.db
    ensures writer.Valid() && writer.Wrote(DeleteOps(l, items))
    ensures t == s - Elements(items)
  {
    t := s;
    for i := 0 to |items|
      invariant writer.Valid() && writer.Wrote(DeleteOps(l, items[..i]))
      invariant t == s - Elements(items[..i])
    {
      assert items[..i + 1][..i] == items[..i];
      ElementsSnoc(items[..i + 1]);
      var op := Delete(l.ItemPath((), items[i]));
      assert DeleteOps(l, items[..i + 1]) == DeleteOps(l, items[..i]) + [op];
      ApplySnoc(old(writer.Committed()), DeleteOps(l, items[..i]), op);
      ApplyOne(writer.Committed(), op);
      writer.Write(op);
      t := t - {items[i]};
    }
    assert items[..|items|] == items;
  }

  method AddItems<T(==, !new)>(writer: Writer, l: Layout<(), T>, items: seq<T>, s: set<T>) returns (t: set<T>)
    requires writer.Valid()
    modifies writer, writer.db
    ensures writer.Valid() && writer.Wrote(PutOps(l, items))
    ensures t == s + Elements(items)
  {
    t := s;
    for i := 0 to |items|
      invariant writer.Valid() && writer.Wrote(PutOps(l, items[..i]))
      invariant t == s + Elements(items[..i])
    {
      assert items[..i + 1][..i] == items[..i];
      ElementsSnoc(items[..i + 1]);
      var op := Put(l.ItemPath((), items[i]), []);
      assert PutOps(l, items[..i + 1]) == PutOps(l, items[..i]) + [op];
      ApplySnoc(old(writer.Committed()), PutOps(l, items[..i]), op);
      ApplyOne(writer.Committed(), op);
      writer.Write(op);
      t := t + {items[i]};
    }
    assert items[..|items|] == items;
  }

  // The entries stay under the item's prefix.
  lemma RevisionInside<T>(l: Layout<(), T>, data: Data, added: seq<T>, removed: seq<T>, path: Bytes)
    requires !(l.prefix <= path)
    ensures SameAt(data, ApplyAll(data, DeleteOps(l, removed) + PutOps(l, added)), path)
  {
    var ops := DeleteOps(l, removed) + PutOps(l, added);
    forall i | 0 <= i < |ops|
      ensures !Touches(ops[i], path)
    {
      var d := if i < |removed| then removed[i] else added[i - |removed|];
      assert ops[i].key == l.ItemPath((), d) && l.prefix <= l.BucketPath(());
    }
    LastTouchDecides(data, ops, path);
  }

  // What an update makes of a set: removals first, then additions.
  function Revised<T(==)>(s: set<T>, added: seq<T>, removed: seq<T>): set<T> {
    s - Elements(removed) + Elements(added)
  }

  method Revise<T(==, !new)>(writer: Writer, l: Layout<(), T>, added: seq<T>, removed: seq<T>, s: set<T>)
    returns (t: set<T>)
    requires writer.Valid()
    modifies writer, writer.db
    ensures writer.Valid() && writer.Wrote(DeleteOps(l, removed) + PutOps(l, added))
    ensures t == Revised(s, added, removed)
  {
    t := DeleteItems(writer, l, removed, s);
    t := AddItems(writer, l, added, t);
    ApplyConcat(old(writer.Committed()), DeleteOps(l, removed), PutOps(l, added));
    ConcatAssoc(old(writer.pending), DeleteOps(l, removed), PutOps(l, added));
  }

  class SetItem<T(==, !new)> {
    const db: Db
    const layout: Layout<(), T>
    var cached: Option<set<T>>

    constructor (db: Db, key: Bytes, codec: Codec<T>)
      requires Lawful(codec)
      ensures cached == None && this.db == db && Sound(layout)
      ensures layout.prefix == key && layout.keyBytes(()) == [] && layout.codec == codec
    {
      this.db := db;
      // EmptyKey: the bucket is the item's own prefix.
      layout := Layout(key, (k: ()) => [], codec);
      cached := None;
    }

    // What the next use will work on.
    ghost function Current(): Result<set<T>, ()>
      reads this, db
    {
      if cached.Some? then Ok(cached.value) else ReadBucket(layout, db.data, ())
    }

    // s is the set in memory and what the database will hold once the writer's
    // batch is written; before the set is first loaded that batch does not touch it.
    ghost predicate Agrees(writer: Writer, s: set<T>)
      reads this, writer, writer.db
    {
      && Sound(layout) && writer.db == db && writer.Valid() && Holds(layout, writer.Committed(), s)
      && (cached.Some? ==> cached.value == s)
      && (cached.None? ==> forall i :: 0 <= i < |writer.pending| ==>
            !SetStoreRuns.TouchesPrefix(writer.pending[i], layout.BucketPath(())))
    }

    lemma CurrentAgrees(writer: Writer, s: set<T>)
      requires Agrees(writer, s)
      ensures Current() == Ok(s)
    {
      if cached.None? {
        SetStoreRuns.UntouchedBucket(layout, db.data, writer.pending, ());
      }
    }

    // read_locked_set
    method Read() returns (r: Result<set<T>, ()>)
      modifies this
      ensures r == old(Current())
      ensures cached == if r.Ok? then Some(r.value) else None
    {
      if cached.Some? {
        return Ok(cached.value);
      }
      r := CollectBucket(layout, db.data, ());
      if r.Ok? {
        cached := Some(r.value);
      }
    }

    method Update(writer: Writer, added: seq<T>, removed: seq<T>) returns (r: Result<set<T>, ()>)
      requires writer.Valid() && writer.db == db
      modifies this, writer, db
      ensures writer.Valid()
      ensures forall path: Bytes :: !(layout.prefix <= path) ==>
        SameAt(old(writer.Committed()), writer.Committed(), path)
      ensures old(Current()).Err? ==>
        r == old(Current()) && cached == None && db.data == old(db.data) && writer.pending == old(writer.pending)
      ensures old(Current()).Ok? ==>
        && r == Ok(Revised(old(Current()).value, added, removed)) && cached == Some(r.value)
        && writer.Wrote(DeleteOps(layout, removed) + PutOps(layout, added))
    {
      r := Read();
      if r.Err? {
        return;
      }
      ghost var before := writer.Committed();
      var items := Revise(writer, layout, added, removed, r.value);
      forall path: Bytes | !(layout.prefix <= path)
        ensures SameAt(before, writer.Committed(), path)
      {
        RevisionInside(layout, before, added, removed, path);
      }
      cached := Some(items);
      r := Ok(items);
    }
  }

  datatype Op<T> = ReadOp | UpdateOp(added: seq<T>, removed: seq<T>) | CommitOp

  // The same operations on a plain set.
  function Next<T(==)>(s: set<T>, op: Op<T>): set<T> {
    if op.UpdateOp? then Revised(s, op.added, op.removed) else s
  }

  function After<T(==)>(s: set<T>, ops: seq<Op<T>>): set<T> {
    if ops == [] then s else Next(After(s, ops[..|ops| - 1]), ops[|ops| - 1])
  }

  method Step<T(==, !new)>(item: SetItem<T>, writer: Writer, op: Op<T>,
                           ghost s: set<T>) returns (r: Option<Result<set<T>, ()>>)
    requires item.Agrees(writer, s)
    modifies item, writer, item.db
    ensures item.Agrees(writer, Next(s, op))
    ensures r == if op.CommitOp? then None else Some(Ok(Next(s, op)))
  {
    item.CurrentAgrees(writer, s);
    match op
    case ReadOp =>
      var v := item.Read();
      r := Some(v);
    case UpdateOp(added, removed) =>
      HoldsAfterDeletes(item.layout, writer.Committed(), s, removed);
      ghost var between := ApplyAll(writer.Committed(), DeleteOps(item.layout, removed));
      HoldsAfterPuts(item.layout, between, s - Elements(removed), added);
      ApplyConcat(writer.Committed(), DeleteOps(item.layout, removed), PutOps(item.layout, added));
      var v := item.Update(writer, added, removed);
      r := Some(v);
    case CommitOp =>
      writer.Commit();
      r := None;
  }

  // Over every run, with either kind of writer, every read and update returns the
  // set the operations so far make of the first one, and the database holds it
  // once everything pending is written. Reading inside an open batch is safe here.
  method Run<T(==, !new)>(item: SetItem<T>, writer: Writer, ops: seq<Op<T>>, ghost s: set<T>)
    returns (responses: seq<Option<Result<set<T>, ()>>>)
    requires item.Agrees(writer, s)
    modifies item, writer, item.db
    ensures item.Agrees(writer, After(s, ops))
    ensures |responses| == |ops|
    ensures forall i :: 0 <= i < |ops| ==>
      responses[i] == if ops[i].CommitOp? then None else Some(Ok(After(s, ops[..i + 1])))
  {
    responses := [];
    for i := 0 to |ops|
      invariant item.Agrees(writer, After(s, ops[..i]))
      invariant |responses| == i
      invariant forall j :: 0 <= j < i ==>
        responses[j] == if ops[j].CommitOp? then None else Some(Ok(After(s, ops[..j + 1])))
    {
      assert ops[..i + 1][..i] == ops[..i];
      var r := Step(item, writer, ops[i], After(s, ops[..i]));
      responses := responses + [r];
    }
    assert ops[..|ops|] == ops;
  }
}
