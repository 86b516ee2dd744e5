/** The in-memory file on top of the index (memfh.c): records are kept in arrival order
    and the primary index maps each key to its record. */
module MemFile {
  import opened Bytes
  import opened Powers
  import opened Memory
  import opened MemIndex
  import PageGraph

  type Record = seq<byte>

  /** One component of a key: where it lies in the record. */
  datatype Part = Part(offset: nat, len: nat)

  ghost predicate Inside(parts: seq<Part>, reclen: nat) {
    forall i :: 0 <= i < |parts| ==> parts[i].offset + parts[i].len <= reclen
  }

  function KeyLen(parts: seq<Part>): nat {
    if parts == [] then 0 else parts[0].len + KeyLen(parts[1..])
  }

  /** The key of a record: its components one after the other. */
  ghost function KeyOf(parts: seq<Part>, rec: Record): (k: seq<byte>)
    requires Inside(parts, |rec|)
    ensures |k| == KeyLen(parts)
  {
    if parts == [] then [] else rec[parts[0].offset..parts[0].offset + parts[0].len] + KeyOf(parts[1..], rec)
  }

  lemma {:induction false} KeyOfSnoc(parts: seq<Part>, p: Part, rec: Record)
    requires Inside(parts + [p], |rec|)
    ensures Inside(parts, |rec|) && p.offset + p.len <= |rec|
    ensures KeyOf(parts + [p], rec) == KeyOf(parts, rec) + rec[p.offset..p.offset + p.len]
  {
    assert forall i :: 0 <= i < |parts| ==> (parts + [p])[i] == parts[i];
    assert (parts + [p])[|parts|] == p;
    if parts == [] {
      assert parts + [p] == [p] && [p][1..] == [];
    } else {
      assert (parts + [p])[1..] == parts[1..] + [p];
      KeyOfSnoc(parts[1..], p, rec);
    }
  }

  /** The loop that assembles a key (memfh.c:138-144). */
  method BuildKey(parts: seq<Part>, rec: Record) returns (key: seq<byte>)
    requires Inside(parts, |rec|)
    ensures key == KeyOf(parts, rec)
  {
    key := [];
    var c := 0;
    while c < |parts|
      invariant 0 <= c <= |parts|
      invariant key == KeyOf(parts[..c], rec)
    {
      assert parts[..c + 1] == parts[..c] + [parts[c]];
      KeyOfSnoc(parts[..c], parts[c], rec);
      key := key + rec[parts[c].offset..parts[c].offset + parts[c].len];
      c := c + 1;
    }
    assert parts[..c] == parts;
  }

  type Keyed = map<seq<byte>, Record>

  ghost predicate AllInside(parts: seq<Part>, records: seq<Record>) {
    forall i :: 0 <= i < |records| ==> Inside(parts, |records[i]|)
  }

  /** The index leads from the value of key `k` to its record. */
  ghost predicate Indexed(parts: seq<Part>, records: seq<Record>, m: map<int, int>, t: Keyed, k: seq<byte>) {
    && |k| == KeyLen(parts) && Value(k) in m && 0 <= m[Value(k)] < |records|
    && k in t && records[m[Value(k)]] == t[k]
  }

  /** Index entry `v` is the value of the key of its record, and that key is in the table. */
  ghost predicate Backed(parts: seq<Part>, records: seq<Record>, m: map<int, int>, t: Keyed, v: int) {
    && v in m && 0 <= m[v] < |records| && Inside(parts, |records[m[v]]|)
    && Value(KeyOf(parts, records[m[v]])) == v && KeyOf(parts, records[m[v]]) in t
  }

  ghost predicate Matches(parts: seq<Part>, records: seq<Record>, m: map<int, int>, t: Keyed) {
    && AllInside(parts, records)
    && (forall k {:trigger Indexed(parts, records, m, t, k)} :: k in t ==> Indexed(parts, records, m, t, k))
    && (forall v {:trigger Backed(parts, records, m, t, v)} :: v in m ==> Backed(parts, records, m, t, v))
  }

  lemma Lookup(parts: seq<Part>, records: seq<Record>, m: map<int, int>, t: Keyed, key: seq<byte>)
    requires Matches(parts, records, m, t) && |key| == KeyLen(parts)
    ensures key in t <==> Value(key) in m
    ensures key in t ==> 0 <= m[Value(key)] < |records| && records[m[Value(key)]] == t[key]
  {
    if key in t { assert Indexed(parts, records, m, t, key); }
    if Value(key) in m {
      assert Backed(parts, records, m, t, Value(key));
      CompareIsValueOrder(key, KeyOf(parts, records[m[Value(key)]]));
    }
  }

  lemma RecordAppended(parts: seq<Part>, records: seq<Record>, m: map<int, int>, t: Keyed, rec: Record)
    requires Matches(parts, records, m, t) && Inside(parts, |rec|)
    ensures Matches(parts, records + [rec], m, t)
  {
    var rs := records + [rec];
    forall k | k in t ensures Indexed(parts, rs, m, t, k) { assert Indexed(parts, records, m, t, k); }
    forall v | v in m ensures Backed(parts, rs, m, t, v) { assert Backed(parts, records, m, t, v); }
  }

  lemma RecordEntered(parts: seq<Part>, records: seq<Record>, m: map<int, int>, t: Keyed, rec: Record)
    requires Matches(parts, records, m, t) && Inside(parts, |rec|) && KeyOf(parts, rec) !in t
    ensures var k := KeyOf(parts, rec);
            Matches(parts, records + [rec], m[Value(k) := |records|], t[k := rec])
  {
    var key := KeyOf(parts, rec);
    var rs, m', t' := records + [rec], m[Value(key) := |records|], t[key := rec];
    forall k | k in t' ensures Indexed(parts, rs, m', t', k) {
      if k != key {
        assert Indexed(parts, records, m, t, k);
        CompareIsValueOrder(k, key);
      }
    }
    forall v | v in m' ensures Backed(parts, rs, m', t', v) {
      if v != Value(key) { assert Backed(parts, records, m, t, v); }
    }
  }

  lemma RecordReplaced(parts: seq<Part>, records: seq<Record>, m: map<int, int>, t: Keyed, rec: Record)
    requires Matches(parts, records, m, t) && Inside(parts, |rec|) && KeyOf(parts, rec) in t
    ensures var k := KeyOf(parts, rec);
            && Value(k) in m && 0 <= m[Value(k)] < |records|
            && Matches(parts, records[m[Value(k)] := rec], m, t[k := rec])
  {
    var key := KeyOf(parts, rec);
    Lookup(parts, records, m, t, key);
    var p := m[Value(key)];
    var rs, t' := records[p := rec], t[key := rec];
    assert Backed(parts, records, m, t, Value(key));
    forall k | k in t' ensures Indexed(parts, rs, m, t', k) {
      assert Indexed(parts, records, m, t, k);
      CompareIsValueOrder(k, key);
      if k != key { assert Backed(parts, records, m, t, Value(k)); }
    }
    forall v | v in m ensures Backed(parts, rs, m, t', v) {
      assert Backed(parts, records, m, t, v);
    }
  }

  lemma SingleKey(p: Part, rec: Record)
    requires p.offset + p.len <= |rec|
    ensures Inside([p], |rec|) && KeyOf([p], rec) == rec[p.offset..p.offset + p.len] && KeyLen([p]) == p.len
  {
    assert [p][1..] == [];
  }

  // ---- Secondary indexes ----

  ghost predicate AllIn(sec: seq<Part>, records: seq<Record>, m: map<int, int>) {
    forall v :: v in m ==> 0 <= m[v] < |records| && Inside(sec, |records[m[v]]|)
  }

  /** The value under which the record of entry `v` goes into an index on `sec`. */
  ghost function SecValue(sec: seq<Part>, records: seq<Record>, m: map<int, int>, v: int): int
    requires AllIn(sec, records, m) && v in m
  {
    Value(KeyOf(sec, records[m[v]]))
  }

  /** Different entries have different keys in the index on `sec`. */
  ghost predicate Separated(sec: seq<Part>, records: seq<Record>, m: map<int, int>) {
    && AllIn(sec, records, m)
    && forall v, w :: v in m && w in m && v != w ==> SecValue(sec, records, m, v) != SecValue(sec, records, m, w)
  }

  /** Index `x` holds, under its `sec` key, the record of every entry below `limit`. */
  ghost predicate Copied(sec: seq<Part>, records: seq<Record>, m: map<int, int>, x: map<int, int>, limit: int) {
    && AllIn(sec, records, m)
    && (forall v :: v in m && v < limit ==>
          SecValue(sec, records, m, v) in x && x[SecValue(sec, records, m, v)] == m[v])
    && (forall w :: w in x ==> Source(sec, records, m, x, limit, w))
  }

  ghost predicate Source(sec: seq<Part>, records: seq<Record>, m: map<int, int>, x: map<int, int>, limit: int, w: int)
    requires AllIn(sec, records, m) && w in x
  {
    exists v :: v in m && v < limit && SecValue(sec, records, m, v) == w && x[w] == m[v]
  }

  /** Index `x` holds exactly the records of `m`, each under its `sec` key. */
  ghost predicate Mirrors(sec: seq<Part>, records: seq<Record>, m: map<int, int>, x: map<int, int>) {
    && AllIn(sec, records, m)
    && (forall v :: v in m ==> SecValue(sec, records, m, v) in x && x[SecValue(sec, records, m, v)] == m[v])
    && (forall w :: w in x ==> exists v :: v in m && SecValue(sec, records, m, v) == w && x[w] == m[v])
  }

  ghost predicate Injective(m: map<int, int>) {
    forall v, w :: v in m && w in m && m[v] == m[w] ==> v == w
  }

  lemma CopyStart(sec: seq<Part>, records: seq<Record>, m: map<int, int>, k: int)
    requires AllIn(sec, records, m) && forall v :: v in m ==> k <= v
    ensures Copied(sec, records, m, map[], k)
  {
  }

  lemma NothingToCopy(sec: seq<Part>, records: seq<Record>)
    ensures Mirrors(sec, records, map[], map[]) && Separated(sec, records, map[])
  {
  }

  lemma CopyStep(sec: seq<Part>, records: seq<Record>, m: map<int, int>, x: map<int, int>, v: int)
    requires Copied(sec, records, m, x, v) && v in m && SecValue(sec, records, m, v) !in x
    ensures Copied(sec, records, m, x[SecValue(sec, records, m, v) := m[v]], v + 1)
  {
    var u := SecValue(sec, records, m, v);
    var y := x[u := m[v]];
    forall w | w in y ensures Source(sec, records, m, y, v + 1, w) {
      if w != u {
        assert Source(sec, records, m, x, v, w);
        var z :| z in m && z < v && SecValue(sec, records, m, z) == w && x[w] == m[z];
        assert z in m && z < v + 1 && y[w] == m[z];
      }
    }
  }

  lemma CopyMore(sec: seq<Part>, records: seq<Record>, m: map<int, int>, x: map<int, int>, v: int, k: int)
    requires Copied(sec, records, m, x, v + 1) && v < k && forall w :: w in m && w > v ==> w >= k
    ensures Copied(sec, records, m, x, k)
  {
    forall w | w in x ensures Source(sec, records, m, x, k, w) {
      assert Source(sec, records, m, x, v + 1, w);
    }
  }

  lemma CopyDone(sec: seq<Part>, records: seq<Record>, m: map<int, int>, x: map<int, int>, limit: int)
    requires Copied(sec, records, m, x, limit) && Injective(m) && forall v :: v in m ==> v < limit
    ensures Mirrors(sec, records, m, x) && Separated(sec, records, m)
  {
    forall w | w in x ensures exists v :: v in m && SecValue(sec, records, m, v) == w && x[w] == m[v] {
      assert Source(sec, records, m, x, limit, w);
    }
  }

  lemma CopyClash(sec: seq<Part>, records: seq<Record>, m: map<int, int>, x: map<int, int>, v: int)
    requires Copied(sec, records, m, x, v) && v in m && SecValue(sec, records, m, v) in x
    ensures !Separated(sec, records, m)
  {
    assert Source(sec, records, m, x, v, SecValue(sec, records, m, v));
  }

  /** Appending the whole primary key, as one component, keeps secondary keys apart. */
  lemma PrimaryKeySeparates(sec: seq<Part>, p: Part, records: seq<Record>, m: map<int, int>, t: Keyed)
    requires Matches([p], records, m, t) && AllIn(sec + [p], records, m)
    ensures Separated(sec + [p], records, m)
  {
    forall v, w | v in m && w in m && v != w
      ensures SecValue(sec + [p], records, m, v) != SecValue(sec + [p], records, m, w)
    {
      var a, b := records[m[v]], records[m[w]];
      assert Backed([p], records, m, t, v) && Backed([p], records, m, t, w);
      KeyOfSnoc(sec, p, a);
      KeyOfSnoc(sec, p, b);
      SingleKey(p, a);
      SingleKey(p, b);
      CompareIsValueOrder(KeyOf(sec + [p], a), KeyOf(sec + [p], b));
      CompareConcat(KeyOf(sec, a), KeyOf(sec, b), KeyOf([p], a), KeyOf([p], b));
      CompareIsValueOrder(KeyOf([p], a), KeyOf([p], b));
      CompareIsValueOrder(KeyOf(sec, a), KeyOf(sec, b));
    }
  }

  /** The order of such an index: by secondary key, then by primary key. */
  lemma SecondaryOrder(sec: seq<Part>, p: Part, a: Record, b: Record)
    requires Inside(sec + [p], |a|) && Inside(sec + [p], |b|)
    ensures Inside(sec, |a|) && Inside(sec, |b|) && Inside([p], |a|) && Inside([p], |b|)
    ensures Value(KeyOf(sec + [p], a)) < Value(KeyOf(sec + [p], b)) <==>
            || Memcmp(KeyOf(sec, a), KeyOf(sec, b)) < 0
            || (KeyOf(sec, a) == KeyOf(sec, b) && Memcmp(KeyOf([p], a), KeyOf([p], b)) < 0)
  {
    KeyOfSnoc(sec, p, a);
    KeyOfSnoc(sec, p, b);
    SingleKey(p, a);
    SingleKey(p, b);
    CompareIsValueOrder(KeyOf(sec + [p], a), KeyOf(sec + [p], b));
    CompareConcat(KeyOf(sec, a), KeyOf(sec, b), KeyOf([p], a), KeyOf([p], b));
    CompareIsValueOrder(KeyOf(sec, a), KeyOf(sec, b));
  }

  // ---- Runs ----

  /** A call of memfh_write (`put`) or of memfh_read for update. */
  datatype Op = Op(put: bool, key: seq<byte>, rec: Record)

  /** What one call does to the table when it does not stop the program. */
  ghost function After(t: Keyed, op: Op): Keyed {
    if op.put || op.key in t then t[op.key := op.rec] else t
  }

  ghost function RunTable(ops: seq<Op>): Keyed {
    if ops == [] then map[] else After(RunTable(ops[..|ops| - 1]), ops[|ops| - 1])
  }

  ghost predicate Written(ops: seq<Op>, key: seq<byte>) {
    exists i :: 0 <= i < |ops| && ops[i].put && ops[i].key == key
  }

  /** `rec` is what the last call with this key carries. */
  ghost predicate LastUnder(ops: seq<Op>, key: seq<byte>, rec: Record) {
    exists i :: 0 <= i < |ops| && ops[i].key == key && ops[i].rec == rec
                && forall j :: i < j < |ops| ==> ops[j].key != key
  }

  /** After any run a key is there exactly when it was written, and its record is the one
      most recently written or updated under it. */
  lemma {:induction false} LastWins(ops: seq<Op>, key: seq<byte>)
    ensures key in RunTable(ops) <==> Written(ops, key)
    ensures key in RunTable(ops) ==> LastUnder(ops, key, RunTable(ops)[key])
  {
    if ops != [] {
      var n := |ops| - 1;
      LastWins(ops[..n], key);
      LastStep(ops, key);
    }
  }

  lemma LastStep(ops: seq<Op>, key: seq<byte>)
    requires |ops| > 0
    ensures Written(ops, key) <==> Written(ops[..|ops| - 1], key) || (ops[|ops| - 1].put && ops[|ops| - 1].key == key)
    ensures LastUnder(ops, key, ops[|ops| - 1].rec) <== ops[|ops| - 1].key == key
    ensures forall r :: LastUnder(ops[..|ops| - 1], key, r) && ops[|ops| - 1].key != key ==> LastUnder(ops, key, r)
  {
    var n := |ops| - 1;
    var rest := ops[..n];
    if Written(rest, key) {
      var i :| 0 <= i < n && rest[i].put && rest[i].key == key;
      assert ops[i] == rest[i];
    }
    if Written(ops, key) {
      var i :| 0 <= i < |ops| && ops[i].put && ops[i].key == key;
      assert i < n ==> rest[i] == ops[i];
    }
    forall r | LastUnder(rest, key, r) && ops[n].key != key ensures LastUnder(ops, key, r) {
      var i :| 0 <= i < n && rest[i].key == key && rest[i].rec == r && forall j :: i < j < n ==> rest[j].key != key;
      assert ops[i] == rest[i];
      forall j | i < j < |ops| ensures ops[j].key != key {
        assert j < n ==> rest[j] == ops[j];
      }
    }
  }

  datatype Outcome = Missing | Done | Stopped

  class File {
    const reclen: nat
    const parts: seq<Part>
    const primary: Index
    var records: seq<Record>
    var count: nat

    /** What the file holds: the last record stored under each key. */
    ghost var Table: Keyed

    ghost predicate Valid()
      reads this, primary, primary.Repr
    {
      && primary.Valid() && this as object !in primary.Repr && primary as object != this
      && Inside(parts, reclen) && 1 <= KeyLen(parts) <= 256 && KeyLen(parts) <= reclen
      && primary.bound == Pow(256, KeyLen(parts))
      && (forall i :: 0 <= i < |records| ==> |records[i]| == reclen)
      && Matches(parts, records, primary.Contents, Table)
    }

    /** memfh_open. */
    constructor (reclen: nat, parts: seq<Part>, ptrSize: nat)
      requires Inside(parts, reclen) && 1 <= KeyLen(parts) <= 256 && KeyLen(parts) <= reclen
      requires ptrSize == 4 || ptrSize == 8
      ensures Valid() && Table == map[] && count == 0 && this.reclen == reclen && this.parts == parts
      ensures fresh(primary) && fresh(primary.Repr)
    {
      this.reclen, this.parts := reclen, parts;
      primary := new Index(KeyLen(parts), ptrSize, Pow(256, KeyLen(parts)));
      records, count, Table := [], 0, map[];
    }

    /** memfh_write: appends the record and enters it in the primary index. A key that is
        already there stops the program. */
    method Write(rec: Record) returns (ok: bool)
      requires Valid() && |rec| == reclen
      modifies this, primary, primary.Repr
      ensures Valid() && fresh(primary.Repr - old(primary.Repr))
      ensures var k := KeyOf(parts, rec);
              && (ok <==> k !in old(Table))
              && Table == if ok then old(Table)[k := rec] else old(Table)
      ensures count == old(count) + if ok then 1 else 0
    {
      hide Matches, PageGraph.Ok, PageGraph.Represents, PageGraph.Filled;
      var key := BuildKey(parts, rec);
      ghost var was, m := records, primary.Contents;
      Lookup(parts, was, m, Table, key);
      records := records + [rec];
      ok := primary.Write(Value(key), |records| - 1);
      if ok {
        count := count + 1;
        RecordEntered(parts, was, m, Table, rec);
        Table := Table[key := rec];
      } else {
        RecordAppended(parts, was, m, Table, rec);
      }
    }

    /** memfh_read: looks a record up by primary key and either copies it out or overwrites
        it. Before overwriting, the first bytes of both records, as many as the key has,
        are compared; a difference stops the program. */
    method Read(rec: Record, update: bool) returns (o: Outcome, out: Record)
      requires Valid() && |rec| == reclen
      modifies this`records, this`Table, primary`path, primary`pos
      ensures Valid()
      ensures var k, n := KeyOf(parts, rec), KeyLen(parts);
              && (o == Missing <==> k !in old(Table))
              && (o == Stopped <==> update && k in old(Table) && |old(Table)[k]| == reclen
                                    && old(Table)[k][..n] != rec[..n])
              && (o == Done && !update ==> out == old(Table)[k])
              && Table == if o == Done && update then old(Table)[k := rec] else old(Table)
    {
      hide Matches, PageGraph.Ok, PageGraph.Represents, PageGraph.Filled;
      out := rec;
      var key := BuildKey(parts, rec);
      Lookup(parts, records, primary.Contents, Table, key);
      var c := primary.Search(Value(key));
      if c != 0 {
        return Missing, out;
      }
      var p := primary.FoundPtr(Value(key), c);
      if !update {
        return Done, records[p];
      }
      if records[p][..KeyLen(parts)] != rec[..KeyLen(parts)] {
        return Stopped, out;
      }
      RecordReplaced(parts, records, primary.Contents, Table, rec);
      records := records[p := rec];
      Table := Table[key := rec];
      o := Done;
    }

    /** A run of writes and updates from an empty file; it ends early when a call stops
        the program. */
    method Run(ops: seq<Op>) returns (done: nat)
      requires Valid() && Table == map[]
      requires forall i :: 0 <= i < |ops| ==> |ops[i].rec| == reclen && ops[i].key == KeyOf(parts, ops[i].rec)
      modifies this, primary, primary.Repr
      ensures Valid() && done <= |ops| && Table == RunTable(ops[..done])
      ensures done < |ops| ==>
                && ops[done].key in Table && |Table[ops[done].key]| == reclen
                && (!ops[done].put ==> Table[ops[done].key][..KeyLen(parts)] != ops[done].rec[..KeyLen(parts)])
    {
      hide Matches, PageGraph.Ok, PageGraph.Represents, PageGraph.Filled, KeyOf, RunTable;
      NothingRun();
      done := 0;
      while done < |ops|
        invariant 0 <= done <= |ops| && Valid() && fresh(primary.Repr - old(primary.Repr))
        invariant Table == RunTable(ops[..done])
      {
        assert ops[..done + 1][..done] == ops[..done];
        RunStep(ops[..done + 1]);
        TableSizes();
        if ops[done].put {
          var ok := Write(ops[done].rec);
          if !ok { return; }
        } else {
          var o, _ := Read(ops[done].rec, true);
          if o == Stopped { return; }
        }
        done := done + 1;
      }
    }

    lemma NothingRun()
      ensures RunTable([]) == map[]
    {
    }

    lemma RunStep(ops: seq<Op>)
      requires ops != []
      ensures RunTable(ops) == After(RunTable(ops[..|ops| - 1]), ops[|ops| - 1])
    {
    }

    lemma TableSizes()
      requires Valid()
      ensures forall k :: k in Table ==> |Table[k]| == reclen
    {
      forall k | k in Table ensures |Table[k]| == reclen {
        assert Indexed(parts, records, primary.Contents, Table, k);
      }
    }

    /** With a one-component key at the start of the record, an update never stops. */
    lemma KeyAtStart(rec: Record)
      requires Valid() && |rec| == reclen && parts == [Part(0, KeyLen(parts))] && KeyOf(parts, rec) in Table
      ensures |Table[KeyOf(parts, rec)]| == reclen
      ensures Table[KeyOf(parts, rec)][..KeyLen(parts)] == rec[..KeyLen(parts)]
    {
      var k := KeyOf(parts, rec);
      TableSizes();
      Lookup(parts, records, primary.Contents, Table, k);
      assert Backed(parts, records, primary.Contents, Table, Value(k));
      CompareIsValueOrder(k, KeyOf(parts, Table[k]));
      SingleKey(parts[0], rec);
      SingleKey(parts[0], Table[k]);
    }

    // ---- Secondary indexes ----

    /** memfh_idx_create: builds an index on `sec` from a scan by primary key. A repeated
        key stops the program. */
    method CreateIndex(sec: seq<Part>, ptrSize: nat) returns (ok: bool, ix: Index)
      requires Valid() && Inside(sec, reclen) && 1 <= KeyLen(sec) <= 256 && (ptrSize == 4 || ptrSize == 8)
      modifies primary`path, primary`pos
      ensures Valid() && ix.Valid() && fresh(ix) && fresh(ix.Repr)
      ensures ok <==> Separated(sec, records, primary.Contents)
      ensures ok ==> Mirrors(sec, records, primary.Contents, ix.Contents)
    {
      hide Matches, Copied, Separated, Mirrors, AllIn, Injective, PageGraph.Ok, PageGraph.Represents, PageGraph.Filled;
      IndexFacts(sec);
      ix := new Index(KeyLen(sec), ptrSize, Pow(256, KeyLen(sec)));
      ghost var m := primary.Contents;
      var more := primary.First();
      if !more {
        NothingToCopy(sec, records);
        return true, ix;
      }
      CopyStart(sec, records, m, primary.CurrentKey());
      ok := CopyAll(sec, ix);
    }

    /** Copies the current record and all that follow it. */
    method CopyAll(sec: seq<Part>, ix: Index) returns (ok: bool)
      requires Valid() && Inside(sec, reclen) && primary.AtEntry()
      requires primary.CurrentKey() in primary.Contents
      requires ix.Valid() && ix != primary && ix.bound == Pow(256, KeyLen(sec))
      requires ix.Repr !! ({this, primary} + primary.Repr) && ix as object !in primary.Repr && ix as object != this
      requires Copied(sec, records, primary.Contents, ix.Contents, primary.CurrentKey())
      modifies ix, ix.Repr, primary`path, primary`pos
      ensures Valid() && ix.Valid() && fresh(ix.Repr - old(ix.Repr))
      ensures ok <==> Separated(sec, records, primary.Contents)
      ensures ok ==> Mirrors(sec, records, primary.Contents, ix.Contents)
    {
      hide Matches, Copied, Separated, Mirrors, AllIn, Injective, PageGraph.Ok, PageGraph.Represents, PageGraph.Filled;
      IndexFacts(sec);
      ghost var m := primary.Contents;
      var more := true;
      ghost var limit := primary.CurrentKey();
      while more
        invariant Valid() && ix.Valid() && fresh(ix.Repr - old(ix.Repr))
        invariant more ==> primary.AtEntry() && limit == primary.CurrentKey() && limit in m
        invariant !more ==> forall v :: v in m ==> v < limit
        invariant Copied(sec, records, m, ix.Contents, limit)
        decreases if more then set v | v in m.Keys && v >= limit else {}, more
      {
        ghost var v := limit;
        ok, more, limit := CopyAndAdvance(sec, ix);
        if !ok {
          return;
        }
        assert v in m && v !in (set w | w in m.Keys && w >= limit);
      }
      CopyDone(sec, records, m, ix.Contents, limit);
      ok := true;
    }

    /** Enters the current record of the primary scan in index `ix`. */
    method CopyEntry(sec: seq<Part>, ix: Index) returns (ok: bool)
      requires Valid() && Inside(sec, reclen) && primary.AtEntry()
      requires ix.Valid() && ix != primary && ix.bound == Pow(256, KeyLen(sec))
      requires ix.Repr !! ({this, primary} + primary.Repr) && ix as object !in primary.Repr && ix as object != this
      requires Copied(sec, records, primary.Contents, ix.Contents, primary.CurrentKey())
      modifies ix, ix.Repr
      ensures Valid() && ix.Valid() && fresh(ix.Repr - old(ix.Repr))
      ensures ok ==> Copied(sec, records, primary.Contents, ix.Contents, primary.CurrentKey() + 1)
      ensures !ok ==> !Separated(sec, records, primary.Contents)
    {
      hide Matches, Copied, Separated;
      IndexFacts(sec);
      var v, p := primary.Current();
      var key := BuildKey(sec, records[p]);
      ghost var was := ix.Contents;
      ok := ix.Write(Value(key), p);
      if ok {
        CopyStep(sec, records, primary.Contents, was, v);
      } else {
        CopyClash(sec, records, primary.Contents, was, v);
      }
    }

    /** Copies the current record and moves the primary scan on; all entries below the
        new `limit` are then copied. */
    method CopyAndAdvance(sec: seq<Part>, ix: Index) returns (ok: bool, more: bool, ghost limit: int)
      requires Valid() && Inside(sec, reclen) && primary.AtEntry()
      requires ix.Valid() && ix != primary && ix.bound == Pow(256, KeyLen(sec))
      requires ix.Repr !! ({this, primary} + primary.Repr) && ix as object !in primary.Repr && ix as object != this
      requires Copied(sec, records, primary.Contents, ix.Contents, primary.CurrentKey())
      modifies ix, ix.Repr, primary`path, primary`pos
      ensures Valid() && ix.Valid() && fresh(ix.Repr - old(ix.Repr))
      ensures ok ==> old(primary.CurrentKey()) < limit && Copied(sec, records, primary.Contents, ix.Contents, limit)
      ensures ok && more ==> primary.AtEntry() && limit == primary.CurrentKey() && limit in primary.Contents
      ensures ok && !more ==> forall v :: v in primary.Contents ==> v < limit
      ensures !ok ==> !Separated(sec, records, primary.Contents)
    {
      hide Matches, Copied, Separated, PageGraph.Ok, PageGraph.Represents, PageGraph.Filled;
      ghost var v := primary.CurrentKey();
      more, limit := false, v;
      ok := CopyEntry(sec, ix);
      if ok {
        more := primary.Next();
        limit := if more then primary.CurrentKey() else v + 1;
        CopyMore(sec, records, primary.Contents, ix.Contents, v, limit);
      }
    }

    lemma IndexFacts(sec: seq<Part>)
      requires Valid() && Inside(sec, reclen)
      ensures AllIn(sec, records, primary.Contents) && Injective(primary.Contents)
    {
      forall v | v in primary.Contents
        ensures 0 <= primary.Contents[v] < |records| && Inside(sec, |records[primary.Contents[v]]|)
      {
        assert Backed(parts, records, primary.Contents, Table, v);
      }
      forall v, w | v in primary.Contents && w in primary.Contents && primary.Contents[v] == primary.Contents[w]
        ensures v == w
      {
        assert Backed(parts, records, primary.Contents, Table, v);
        assert Backed(parts, records, primary.Contents, Table, w);
      }
    }
  }
}
