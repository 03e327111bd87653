/** The key-value database with its pending write batch. */
module Db {

  datatype BatchOp = Put(key: string, value: string) | Delete(key: string)

  function ApplyOp(db: map<string, string>, op: BatchOp): map<string, string> {
    match op
    case Put(k, v) => db[k := v]
    case Delete(k) => db - {k}
  }

  // The database after a batch has been written, operation by operation.
  function Apply(db: map<string, string>, ops: seq<BatchOp>): map<string, string> {
    if ops == [] then db else ApplyOp(Apply(db, ops[..|ops| - 1]), ops[|ops| - 1])
  }

  function Touched(ops: seq<BatchOp>): set<string> {
    set i | 0 <= i < |ops| :: ops[i].key
  }

  // A direct write to a key that the batch does not touch commutes with writing the batch.
  lemma {:induction false} DirectPutCommutes(db: map<string, string>, ops: seq<BatchOp>, k: string, v: string)
    requires k !in Touched(ops)
    ensures Apply(db[k := v], ops) == Apply(db, ops)[k := v]
  {
    if ops != [] {
      var init := ops[..|ops| - 1];
      assert ops[|ops| - 1].key in Touched(ops);
      assert forall i :: 0 <= i < |init| ==> init[i].key == ops[i].key && ops[i].key in Touched(ops);
      DirectPutCommutes(db, init, k, v);
    }
  }

  lemma {:induction false} UntouchedSame(db: map<string, string>, ops: seq<BatchOp>, k: string)
    requires k !in Touched(ops)
    ensures k in Apply(db, ops) <==> k in db
    ensures k in db ==> Apply(db, ops)[k] == db[k]
  {
    if ops != [] {
      var init := ops[..|ops| - 1];
      assert ops[|ops| - 1].key in Touched(ops);
      assert forall i :: 0 <= i < |init| ==> init[i].key == ops[i].key && ops[i].key in Touched(ops);
      UntouchedSame(db, init, k);
    }
  }

  class DbHandler {
    var db: map<string, string>
    var batch: seq<BatchOp>

    // The database as it would be if the batch were written now.
    ghost function Pending(): map<string, string>
      reads this
    {
      Apply(db, batch)
    }

    constructor ()
      ensures db == map[] && batch == []
    {
      db, batch := map[], [];
    }

    // Opens what is stored; a batch does not outlive the handler.
    constructor Open(stored: map<string, string>)
      ensures db == stored && batch == []
    {
      db, batch := stored, [];
    }

    method Put(key: string, value: string)
      modifies this`db
      ensures db == old(db)[key := value]
      ensures key !in Touched(batch) ==> Pending() == old(Pending())[key := value]
    {
      if key !in Touched(batch) {
        DirectPutCommutes(db, batch, key, value);
      }
      db := db[key := value];
    }

    method Get(key: string) returns (found: bool, value: string)
      ensures found == (key in db)
      ensures found ==> value == db[key]
    {
      found := key in db;
      value := if found then db[key] else "";
    }

    method EraseBatch(key: string)
      modifies this`batch
      ensures Pending() == old(Pending()) - {key}
      ensures Touched(batch) == old(Touched(batch)) + {key}
    {
      batch := batch + [Delete(key)];
      assert batch[..|batch| - 1] == old(batch);
      TouchedSnoc(old(batch), Delete(key));
    }

    method PutBatch(key: string, value: string)
      modifies this`batch
      ensures Pending() == old(Pending())[key := value]
      ensures Touched(batch) == old(Touched(batch)) + {key}
    {
      batch := batch + [BatchOp.Put(key, value)];
      assert batch[..|batch| - 1] == old(batch);
      TouchedSnoc(old(batch), BatchOp.Put(key, value));
    }

    method ClearBatch()
      modifies this`batch
      ensures batch == [] && Pending() == db && Touched(batch) == {}
    {
      batch := [];
    }

    // Writing leaves the operations in the batch; the callers clear it before the next use.
    method WriteBatch()
      modifies this`db
      ensures db == old(Pending())
    {
      var result := db;
      var i := 0;
      while i < |batch|
        invariant 0 <= i <= |batch|
        invariant result == Apply(db, batch[..i])
      {
        assert batch[..i + 1][..i] == batch[..i];
        result := ApplyOp(result, batch[i]);
        i := i + 1;
      }
      assert batch[..i] == batch;
      db := result;
    }
  }

  lemma TouchedSnoc(ops: seq<BatchOp>, op: BatchOp)
    ensures Touched(ops + [op]) == Touched(ops) + {op.key}
  {
    var all := ops + [op];
    forall k | k in Touched(ops) + {op.key} ensures k in Touched(all) {
      if k == op.key {
        assert all[|ops|].key == k;
      } else {
        var i :| 0 <= i < |ops| && ops[i].key == k;
        assert all[i].key == k;
      }
    }
  }
}
