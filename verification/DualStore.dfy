/** Mode 'A' of the file handler: every WRITE, REWRITE and DELETE goes to the ISAM file
    first and then to the database, and is undone in the ISAM file when the database
    refuses it (pqfh.c, op_write.c, op_rewrite.c, op_delete.c).

    Both stores are maps from primary key to the rest of the record. A call into either
    store takes full effect or none; that it may fail although it could succeed is an
    input of the model. Calls that undo are assumed to succeed. */
module DualStore {

  datatype Op = Write | Rewrite | Delete

  datatype Status = OK | Error

  /** The caller's record buffer. */
  datatype Rec<K, V> = Rec(key: K, data: V)

  /** Which calls fail for reasons of their own (lock, I/O, lost connection). */
  datatype Faults = Faults(isamRead: bool, isamOp: bool, dbRead: bool, dbOp: bool)

  // ---- What one store does with one operation ----

  predicate Possible<K(==), V>(m: map<K, V>, op: Op, rec: Rec<K, V>) {
    if op.Write? then rec.key !in m else rec.key in m
  }

  function Applied<K, V>(m: map<K, V>, op: Op, rec: Rec<K, V>): map<K, V> {
    if op.Delete? then m - {rec.key} else m[rec.key := rec.data]
  }

  // ---- The whole call ----

  datatype Stores<K, V> = Stores(isam: map<K, V>, db: map<K, V>)

  /** Whether the database part of the call succeeds. The insert checks for the key by
      reading first; an update or delete needs that read to succeed, and an update of an
      unchanged record stops there. */
  predicate DbSucceeds<K(==), V(==)>(db: map<K, V>, op: Op, rec: Rec<K, V>, f: Faults) {
    match op
    case Write => rec.key !in db && !f.dbOp
    case Rewrite => rec.key in db && !f.dbRead && (db[rec.key] == rec.data || !f.dbOp)
    case Delete => rec.key in db && !f.dbRead && !f.dbOp
  }

  predicate IsamSucceeds<K(==), V>(isam: map<K, V>, op: Op, rec: Rec<K, V>, f: Faults) {
    Possible(isam, op, rec) && !f.isamOp && (op.Write? || !f.isamRead)
  }

  /** The record a failed DELETE writes back: what the buffer holds by then, which is the
      database's record only if the database could read it. */
  function WrittenBack<K, V>(db: map<K, V>, rec: Rec<K, V>, f: Faults): V {
    if rec.key in db && !f.dbRead then db[rec.key] else rec.data
  }

  function Call<K, V(==)>(s: Stores<K, V>, op: Op, rec: Rec<K, V>, f: Faults): (Stores<K, V>, Status) {
    if !IsamSucceeds(s.isam, op, rec, f) then (s, Error)
    else if DbSucceeds(s.db, op, rec, f) then
      (Stores(Applied(s.isam, op, rec), Applied(s.db, op, rec)), OK)
    else if op.Delete? then
      (s.(isam := s.isam[rec.key := WrittenBack(s.db, rec, f)]), Error)
    else (s, Error)
  }

  /** The one call that leaves the stores different: a DELETE that the ISAM file did, that
      the database could not even read, with a buffer that is not the stored record. */
  predicate LosesRecord<K(==), V(==)>(s: Stores<K, V>, op: Op, rec: Rec<K, V>, f: Faults) {
    op.Delete? && IsamSucceeds(s.isam, op, rec, f) && f.dbRead && s.isam[rec.key] != rec.data
  }

  /** Equal stores stay equal exactly when no record is lost; a call that reports success
      has taken effect in both, and any other has changed neither. */
  lemma CallKeepsEqual<K, V>(s: Stores<K, V>, op: Op, rec: Rec<K, V>, f: Faults)
    requires s.isam == s.db
    ensures var (t, st) := Call(s, op, rec, f);
            && (t.isam == t.db <==> !LosesRecord(s, op, rec, f))
            && (!LosesRecord(s, op, rec, f) ==>
                  t.db == if st == OK then Applied(s.db, op, rec) else s.db)
            && (st == OK ==> Possible(s.db, op, rec))
  {
    var (t, st) := Call(s, op, rec, f);
    if LosesRecord(s, op, rec, f) {
      assert t.isam[rec.key] != t.db[rec.key];
    }
  }

  /** What a call meets, written out: WRITE needs a new key and does not mind a failing read
      of the database; REWRITE needs the record, and an unchanged one needs no update. */
  ghost predicate Goes<K, V>(m: map<K, V>, op: Op, rec: Rec<K, V>, f: Faults) {
    match op
    case Write => rec.key !in m && !f.isamOp && !f.dbOp
    case Rewrite =>
      rec.key in m && !f.isamRead && !f.isamOp && !f.dbRead && (m[rec.key] == rec.data || !f.dbOp)
    case Delete => rec.key in m && !f.isamRead && !f.isamOp && !f.dbRead && !f.dbOp
  }

  /** And what it then leaves. */
  ghost function Left<K, V>(m: map<K, V>, op: Op, rec: Rec<K, V>): map<K, V> {
    match op
    case Write => m[rec.key := rec.data]
    case Rewrite => m[rec.key := rec.data]
    case Delete => m - {rec.key}
  }

  /** From equal stores a call succeeds exactly when the key is right and nothing it meets
      fails, and then both stores have changed as they should. */
  lemma CallExact<K, V>(s: Stores<K, V>, op: Op, rec: Rec<K, V>, f: Faults)
    requires s.isam == s.db
    ensures Call(s, op, rec, f).1 == OK <==> Goes(s.db, op, rec, f)
    ensures Goes(s.db, op, rec, f) ==>
      Call(s, op, rec, f).0 == Stores(Left(s.db, op, rec), Left(s.db, op, rec))
    ensures !Goes(s.db, op, rec, f) && !LosesRecord(s, op, rec, f) ==> Call(s, op, rec, f).0 == s
  {
  }

  /** With nothing failing: a WRITE of a new key, and a REWRITE or DELETE of a stored one. */
  lemma FaultlessCall<K, V>(s: Stores<K, V>, op: Op, rec: Rec<K, V>)
    requires s.isam == s.db
    ensures Call(s, op, rec, Faults(false, false, false, false)).1 == OK
       <==> if op == Write then rec.key !in s.db else rec.key in s.db
  {
  }

  datatype Request<K, V> = Request(op: Op, rec: Rec<K, V>, faults: Faults)

  function Run<K, V(==)>(s: Stores<K, V>, rs: seq<Request<K, V>>): (Stores<K, V>, seq<Status>)
    decreases |rs|
  {
    if rs == [] then (s, [])
    else
      var (t, st) := Call(s, rs[0].op, rs[0].rec, rs[0].faults);
      var (u, sts) := Run(t, rs[1..]);
      (u, [st] + sts)
  }

  /** The requests that reported success, applied to one map. */
  function Outcome<K, V>(m: map<K, V>, rs: seq<Request<K, V>>, sts: seq<Status>): map<K, V>
    requires |rs| == |sts|
    decreases |rs|
  {
    if rs == [] then m
    else Outcome(if sts[0] == OK then Applied(m, rs[0].op, rs[0].rec) else m, rs[1..], sts[1..])
  }

  /** No request of the run loses a record. */
  ghost predicate Safe<K(!new), V(!new)>(s: Stores<K, V>, rs: seq<Request<K, V>>)
    decreases |rs|
  {
    rs == [] ||
    (!LosesRecord(s, rs[0].op, rs[0].rec, rs[0].faults)
     && Safe(Call(s, rs[0].op, rs[0].rec, rs[0].faults).0, rs[1..]))
  }

  /** Over every safe run the stores stay equal and hold what the successful calls did. */
  lemma {:induction false} RunKeepsEqual<K(!new), V(!new)>(s: Stores<K, V>, rs: seq<Request<K, V>>)
    requires s.isam == s.db && Safe(s, rs)
    ensures var (t, sts) := Run(s, rs);
            |sts| == |rs| && t.isam == t.db == Outcome(s.db, rs, sts)
    decreases |rs|
  {
    if rs != [] {
      CallKeepsEqual(s, rs[0].op, rs[0].rec, rs[0].faults);
      RunKeepsEqual(Call(s, rs[0].op, rs[0].rec, rs[0].faults).0, rs[1..]);
    }
  }

  /** One map and the same requests, by what each of them meets. */
  ghost function Expected<K, V>(m: map<K, V>, rs: seq<Request<K, V>>): (map<K, V>, seq<Status>)
    decreases |rs|
  {
    if rs == [] then (m, [])
    else
      var goes := Goes(m, rs[0].op, rs[0].rec, rs[0].faults);
      var (u, sts) := Expected(if goes then Left(m, rs[0].op, rs[0].rec) else m, rs[1..]);
      (u, [if goes then OK else Error] + sts)
  }

  /** Every status and the final content of both stores, over every safe run. */
  lemma {:induction false} RunExact<K(!new), V(!new)>(s: Stores<K, V>, rs: seq<Request<K, V>>)
    requires s.isam == s.db && Safe(s, rs)
    ensures var (u, sts) := Expected(s.db, rs);
            Run(s, rs) == (Stores(u, u), sts)
    decreases |rs|
  {
    if rs != [] {
      CallExact(s, rs[0].op, rs[0].rec, rs[0].faults);
      RunExact(Call(s, rs[0].op, rs[0].rec, rs[0].faults).0, rs[1..]);
    }
  }

  /** What a caller can do to be safe: read before deleting, so that the buffer is the
      stored record. */
  lemma {:induction false} ReadBeforeDelete<K(!new), V(!new)>(s: Stores<K, V>, rs: seq<Request<K, V>>)
    requires forall i :: 0 <= i < |rs| && rs[i].op.Delete? ==>
               var t := Run(s, rs[..i]).0;
               rs[i].rec.key in t.isam ==> t.isam[rs[i].rec.key] == rs[i].rec.data
    ensures Safe(s, rs)
    decreases |rs|
  {
    if rs != [] {
      var t := Call(s, rs[0].op, rs[0].rec, rs[0].faults).0;
      assert Run(s, rs[..0]).0 == s;
      forall i | 0 <= i < |rs| - 1
        ensures Run(t, rs[1..][..i]).0 == Run(s, rs[..i + 1]).0
      {
        assert rs[..i + 1][1..] == rs[1..][..i];
      }
      ReadBeforeDelete(t, rs[1..]);
    }
  }

  /** The failing family is not empty: one stored record, a delete with only the key set,
      and a database read that fails leave different records behind. */
  lemma DeleteCanLoseRecord()
    ensures var s := Stores(map[1 := "full"], map[1 := "full"]);
            var t := Call(s, Delete, Rec(1, ""), Faults(false, false, true, false)).0;
            t.isam == map[1 := ""] && t.db == map[1 := "full"]
  {
  }

  // ---- The program ----

  class Handler<K(==), V(==)> {
    var isam: map<K, V>
    var db: map<K, V>
    var record: Rec<K, V>
    var status: Status

    constructor (isam: map<K, V>, db: map<K, V>, record: Rec<K, V>)
      ensures this.isam == isam && this.db == db && this.record == record
    {
      this.isam, this.db, this.record, status := isam, db, record, OK;
    }

    ghost function Abs(): Stores<K, V>
      reads this
    {
      Stores(isam, db)
    }

    /** EXTFH with one of the three updating operations. */
    method Extfh(op: Op, fails: bool)
      modifies this`isam, this`status
      ensures status == if Possible(old(isam), op, record) && !fails then OK else Error
      ensures isam == if status == OK then Applied(old(isam), op, record) else old(isam)
      ensures op == Write ==>
        (status == OK <==> record.key !in old(isam) && !fails)
        && isam == if status == OK then old(isam)[record.key := record.data] else old(isam)
      ensures op != Write ==> (status == OK <==> record.key in old(isam) && !fails)
    {
      if Possible(isam, op, record) && !fails {
        isam := if op.Delete? then isam - {record.key} else isam[record.key := record.data];
        status := OK;
      } else {
        status := Error;
      }
    }

    /** EXTFH with OP_READ_RANDOM: copies the record into the buffer. */
    method ExtfhRead(fails: bool)
      modifies this`record, this`status
      ensures status == if old(record).key in isam && !fails then OK else Error
      ensures record == if status == OK then Rec(old(record).key, isam[old(record).key]) else old(record)
    {
      if record.key in isam && !fails {
        record := Rec(record.key, isam[record.key]);
        status := OK;
      } else {
        status := Error;
      }
    }

    /** op_read_random on the database: copies the record into the buffer. */
    method OpReadRandom(fails: bool)
      modifies this`record, this`status
      ensures status == if old(record).key in db && !fails then OK else Error
      ensures record == if status == OK then Rec(old(record).key, db[old(record).key]) else old(record)
    {
      if record.key in db && !fails {
        record := Rec(record.key, db[record.key]);
        status := OK;
      } else {
        status := Error;
      }
    }

    method OpWrite(f: Faults)
      modifies this`db, this`record, this`status
      ensures status == if DbSucceeds(old(db), Write, old(record), f) then OK else Error
      ensures status == OK <==> old(record).key !in old(db) && !f.dbOp
      ensures db == if status == OK then old(db)[old(record).key := old(record).data] else old(db)
      ensures record.key == old(record).key && (status == OK ==> record == old(record))
    {
      OpReadRandom(f.dbRead);
      if status == OK {
        status := Error;
        return;
      }
      if f.dbOp || record.key in db {
        status := Error;
      } else {
        db := db[record.key := record.data];
        status := OK;
      }
    }

    method OpRewrite(f: Faults) returns (ret: bool)
      modifies this`db, this`record, this`status
      ensures status == if DbSucceeds(old(db), Rewrite, old(record), f) then OK else Error
      ensures status == OK ==> ret
      ensures status == OK <==>
        && record.key in old(db) && !f.dbRead && (old(db)[record.key] == record.data || !f.dbOp)
      ensures db == if status == OK then old(db)[record.key := record.data] else old(db)
      ensures record == old(record)
    {
      var saved := record;
      OpReadRandom(f.dbRead);
      if status != OK {
        return false;
      }
      if saved == record {
        assert db == db[record.key := record.data];
        return true;
      }
      record := saved;
      if f.dbOp {
        status := Error;
      } else {
        db := db[record.key := record.data];
        status := OK;
      }
      return true;
    }

    method OpDelete(f: Faults)
      modifies this`db, this`record, this`status
      ensures status == if DbSucceeds(old(db), Delete, old(record), f) then OK else Error
      ensures status == OK <==> old(record).key in old(db) && !f.dbRead && !f.dbOp
      ensures db == if status == OK then old(db) - {old(record).key} else old(db)
      ensures record == Rec(old(record).key, WrittenBack(old(db), old(record), f))
    {
      OpReadRandom(f.dbRead);
      if status != OK {
        status := Error;
        return;
      }
      if f.dbOp {
        status := Error;
      } else {
        db := db - {record.key};
        status := OK;
      }
    }

    /** pqfh in mode 'A': pre-read for undoing, ISAM, database, undo. */
    method Pqfh(op: Op, f: Faults)
      modifies this
      ensures (Abs(), status) == Call(old(Abs()), op, old(record), f)
      ensures old(isam == db) ==> (status == OK <==> Goes(old(db), op, old(record), f))
      ensures old(isam == db) && status == OK ==> isam == db == Left(old(db), op, old(record))
      ensures record.key == old(record).key && (op == Rewrite ==> record == old(record))
      ensures op == Write && status == OK ==> record == old(record)
      ensures op == Delete && status == OK ==> old(record).key in old(db) && record.data == old(db)[old(record).key]
    {
      if isam == db { CallExact(Abs(), op, record, f); }
      var undo := record;
      if !op.Write? {
        var saved := record;
        ExtfhRead(f.isamRead);
        if status != OK {
          record := saved;
          return;
        }
        undo := record;
        record := saved;
      }
      Extfh(op, f.isamOp);
      if status != OK {
        return;
      }
      ghost var before := old(isam);
      match op {
        case Rewrite =>
          var ret := OpRewrite(f);
          if !ret || status != OK {
            var saved, st := record, status;
            record := undo;
            Extfh(Rewrite, false);
            record, status := saved, st;
            assert isam == before;
          }
        case Write =>
          OpWrite(f);
          if status != OK {
            var st := status;
            Extfh(Delete, false);
            status := st;
            assert isam == before;
          }
        case Delete =>
          OpDelete(f);
          if status != OK {
            var saved, st := record, status;
            Extfh(Write, false);
            record, status := saved, st;
            assert isam == before[record.key := record.data];
          }
      }
    }
  }
}
