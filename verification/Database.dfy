/**
 The key-value database under the stores: key layout, batches, and the two kinds
 of writer. RocksDB is a byte map; a range delete over a prefix removes exactly
 the keys that start with it.
 */
module Database {
  import opened Wrappers

  type Byte = x: int | 0 <= x < 256
  type Bytes = seq<Byte>
  type Data = map<Bytes, Bytes>

  // DbKey: a path and the length of its prefix part.
  datatype DbKey = DbKey(path: Bytes, prefixLen: nat) {
    // The prefix comes first and its length is remembered; the rest is the key.
    static function New(prefix: Bytes, key: Bytes): (k: DbKey)
      ensures k.prefixLen <= |k.path| && k.path[..k.prefixLen] == prefix && k.path[k.prefixLen..] == key
    {
      DbKey(prefix + key, |prefix|)
    }

    static function PrefixOnly(prefix: Bytes): DbKey {
      New(prefix, [])
    }

    function AddBucket(bucket: Bytes): DbKey {
      DbKey(path + bucket, prefixLen + |bucket|)
    }

    function AddKey(key: Bytes): DbKey {
      DbKey(path + key, prefixLen + |key|)
    }

    static function NewWithBucket(prefix: Bytes, bucket: Bytes, key: Bytes): (k: DbKey)
      ensures k.path == prefix + bucket + key
      ensures k.prefixLen == |k.path|
    {
      PrefixOnly(prefix).AddBucket(bucket).AddKey(key)
    }
  }

  // Serialisation as a total encoder and a partial decoder.
  datatype Codec<!T> = Codec(encode: T -> Bytes, decode: Bytes -> Result<T, ()>)

  ghost predicate Lawful<T(!new)>(codec: Codec<T>) {
    forall x: T :: codec.decode(codec.encode(x)) == Ok(x)
  }

  // WriteBatch entries.
  datatype BatchOp = Put(key: Bytes, value: Bytes) | Delete(key: Bytes) | DeletePrefix(prefix: Bytes)

  function Apply(data: Data, op: BatchOp): Data {
    match op
    case Put(k, v) => data[k := v]
    case Delete(k) => data - {k}
    case DeletePrefix(p) => map k | k in data && !(p <= k) :: data[k]
  }

  function ApplyAll(data: Data, ops: seq<BatchOp>): Data {
    if ops == [] then data else Apply(ApplyAll(data, ops[..|ops| - 1]), ops[|ops| - 1])
  }

  // Whether an operation can change what is stored under a path.
  predicate Touches(op: BatchOp, path: Bytes) {
    match op
    case Put(k, _) => k == path
    case Delete(k) => k == path
    case DeletePrefix(p) => p <= path
  }

  predicate Untouched(ops: seq<BatchOp>, path: Bytes) {
    forall i :: 0 <= i < |ops| ==> !Touches(ops[i], path)
  }

  predicate SameAt(a: Data, b: Data, path: Bytes) {
    if path in a then path in b && a[path] == b[path] else path !in b
  }

  // The last operation of a batch that can change what is stored under a path.
  function LastTouch(ops: seq<BatchOp>, path: Bytes): (r: seq<BatchOp>)
    ensures |r| <= 1 && (r == [] <==> Untouched(ops, path))
  {
    if ops == [] then []
    else
      var n := |ops| - 1;
      if Touches(ops[n], path) then [ops[n]] else LastTouch(ops[..n], path)
  }

  // Only that operation decides what a batch leaves under the path.
  lemma {:induction false} LastTouchDecides(data: Data, ops: seq<BatchOp>, path: Bytes)
    ensures var last := LastTouch(ops, path);
      if last == [] then SameAt(data, ApplyAll(data, ops), path)
      else if last[0].Put? then path in ApplyAll(data, ops) && ApplyAll(data, ops)[path] == last[0].value
      else path !in ApplyAll(data, ops)
  {
    if ops != [] {
      LastTouchDecides(data, ops[..|ops| - 1], path);
    }
  }

  lemma {:induction false} ApplySnoc(data: Data, ops: seq<BatchOp>, op: BatchOp)
    ensures ApplyAll(data, ops + [op]) == Apply(ApplyAll(data, ops), op)
  {
    assert (ops + [op])[..|ops|] == ops;
  }

  lemma {:induction false} ApplyOne(data: Data, op: BatchOp)
    ensures ApplyAll(data, [op]) == Apply(data, op)
  {
    ApplySnoc(data, [], op);
    assert [] + [op] == [op];
  }

  lemma {:induction false} ApplyConcat(data: Data, ops: seq<BatchOp>, more: seq<BatchOp>)
    ensures ApplyAll(data, ops + more) == ApplyAll(ApplyAll(data, ops), more)
  {
    if more == [] {
      assert ops + more == ops;
    } else {
      var n := |more| - 1;
      ApplyConcat(data, ops, more[..n]);
      assert ops + more == ops + more[..n] + [more[n]];
      ApplySnoc(data, ops + more[..n], more[n]);
    }
  }

  // A database and the batch being collected for it, as values: what a store without
  // a cache consists of.
  datatype Plain = Plain(data: Data, pending: seq<BatchOp>) {
    function Committed(): Data {
      ApplyAll(data, pending)
    }

    function Written(direct: bool, ops: seq<BatchOp>): Plain {
      if direct then Plain(ApplyAll(data, ops), pending) else Plain(data, pending + ops)
    }

    function Flushed(): Plain {
      Plain(Committed(), [])
    }

    // The batch makes no difference to whether anything is stored under the path: it
    // does not touch it, or last writes it where it is stored, or last deletes it
    // where it is not.
    predicate KeepsPresence(path: Bytes) {
      var last := LastTouch(pending, path);
      last == [] || (last[0].Put? <==> path in data)
    }

    lemma PresenceKept(path: Bytes)
      ensures KeepsPresence(path) <==> (path in Committed() <==> path in data)
    {
      LastTouchDecides(data, pending, path);
    }
  }

  class Db {
    var data: Data

    constructor ()
      ensures data == map[]
    {
      data := map[];
    }
  }

  // DirectDbWriter applies each operation at once; BatchDbWriter collects them
  // until the batch is written.
  class Writer {
    const db: Db
    const direct: bool
    var pending: seq<BatchOp>

    constructor (db: Db, direct: bool)
      ensures this.db == db && this.direct == direct && pending == []
    {
      this.db := db;
      this.direct := direct;
      pending := [];
    }

    ghost predicate Valid()
      reads this
    {
      direct ==> pending == []
    }

    // The database as it will be once everything pending is written.
    ghost function Committed(): Data
      reads this, db
    {
      ApplyAll(db.data, pending)
    }

    // The operations have gone through this writer: into the database at once,
    // or to the end of the batch with the database unchanged.
    twostate predicate Wrote(ops: seq<BatchOp>)
      reads this, db
    {
      && Committed() == ApplyAll(old(Committed()), ops)
      && (if direct then pending == [] else db.data == old(db.data) && pending == old(pending) + ops)
    }

    method Write(op: BatchOp)
      requires Valid()
      modifies this, db
      ensures Valid() && Wrote([op])
    {
      ApplySnoc(db.data, pending, op);
      ApplyOne(ApplyAll(db.data, pending), op);
      if direct {
        db.data := Apply(db.data, op);
      } else {
        pending := pending + [op];
      }
    }

    method WriteAll(ops: seq<BatchOp>)
      requires Valid()
      modifies this, db
      ensures Valid() && Wrote(ops)
    {
      for i := 0 to |ops|
        invariant Valid() && Wrote(ops[..i])
      {
        assert ops[..i + 1] == ops[..i] + [ops[i]];
        ApplySnoc(old(Committed()), ops[..i], ops[i]);
        ApplyOne(Committed(), ops[i]);
        Write(ops[i]);
      }
      assert ops[..|ops|] == ops;
    }

    // db.write(batch)
    method Commit()
      requires Valid()
      modifies this, db
      ensures Valid() && pending == []
      ensures db.data == old(Committed()) == Committed()
    {
      var i := 0;
      ghost var start := db.data;
      while i < |pending|
        invariant 0 <= i <= |pending| && pending == old(pending)
        invariant db.data == ApplyAll(start, pending[..i])
      {
        ApplySnoc(start, pending[..i], pending[i]);
        assert pending[..i + 1] == pending[..i] + [pending[i]];
        db.data := Apply(db.data, pending[i]);
        i := i + 1;
      }
      assert pending[..|pending|] == pending;
      pending := [];
    }
  }
}
