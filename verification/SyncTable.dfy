/** SYNC: a merge of the database table and the ISAM file that repairs the table from the
    file (cmp_table.c). The table is read through a cursor that does not see the repairs.
    A statement fails only for the lack or the presence of a row. */
module SyncTable {
  import opened Bytes
  import opened Compare
  import Z = Zoned

  type Column = Z.Column

  const NUL: byte := 0

  ghost predicate Inside(cols: seq<Column>, n: nat) {
    forall i :: 0 <= i < |cols| ==> cols[i].offset + cols[i].len <= n
  }

  // ---- Comparing records ----

  /** What an unset byte of the ISAM file stands for. */
  function Normal(text: bool, b: byte): byte {
    if text then (if b == NUL then Z.SPACE else b)
    else if b == NUL || b == Z.SPACE then Z.ZERO else b
  }

  /** The ISAM field, as it is or with unset bytes filled in, is the table's. */
  ghost predicate SameField(text: bool, table: seq<byte>, file: seq<byte>) {
    && |table| == |file|
    && (file == table || forall i :: 0 <= i < |file| ==> Normal(text, file[i]) == table[i])
  }

  ghost predicate SameRecord(cols: seq<Column>, table: seq<byte>, file: seq<byte>)
    requires Inside(cols, |table|) && Inside(cols, |file|)
  {
    forall i :: 0 <= i < |cols| ==> SameField(!cols[i].numeric, Z.Slice(cols[i], table), Z.Slice(cols[i], file))
  }

  /** A numeric field compares equal when the bytes are, or when every NUL or blank of the
      file stands where the table has the digit 0 and all else is the same. */
  lemma NumericFieldSame(table: seq<byte>, file: seq<byte>)
    requires |table| == |file|
    ensures SameField(false, table, file) <==>
      || file == table
      || forall i :: 0 <= i < |file| ==>
           if file[i] == 0 || file[i] == 32 then table[i] == 48 else table[i] == file[i]
  {
    assert forall i :: 0 <= i < |file| ==>
      Normal(false, file[i]) == if file[i] == 0 || file[i] == 32 then 48 else file[i];
  }

  /** A text field likewise, with only the NULs, which stand for blanks. */
  lemma TextFieldSame(table: seq<byte>, file: seq<byte>)
    requires |table| == |file|
    ensures SameField(true, table, file) <==>
      || file == table
      || forall i :: 0 <= i < |file| ==> if file[i] == 0 then table[i] == 32 else table[i] == file[i]
  {
    assert forall i :: 0 <= i < |file| ==> Normal(true, file[i]) == if file[i] == 0 then 32 else file[i];
  }

  /** memcmp, of which only the zero result matters here. */
  method Differs(a: array<byte>, b: seq<byte>) returns (d: bool)
    requires a.Length == |b|
    ensures d <==> a[..] != b
  {
    var i := 0;
    while i < a.Length
      invariant 0 <= i <= a.Length && a[..i] == b[..i]
    {
      if a[i] != b[i] {
        assert a[..][i] != b[i];
        return true;
      }
      i := i + 1;
    }
    assert a[..] == a[..i] && b == b[..i];
    return false;
  }

  /** Fills in the unset bytes of a field in place. */
  method Fill(a: array<byte>, text: bool)
    modifies a
    ensures forall i :: 0 <= i < a.Length ==> a[i] == Normal(text, old(a[i]))
  {
    var i := 0;
    while i < a.Length
      invariant 0 <= i <= a.Length
      invariant forall j :: 0 <= j < i ==> a[j] == Normal(text, old(a[j]))
      invariant forall j :: i <= j < a.Length ==> a[j] == old(a[j])
    {
      if text {
        if a[i] == NUL { a[i] := Z.SPACE; }
      } else {
        if a[i] == NUL || a[i] == Z.SPACE { a[i] := Z.ZERO; }
      }
      i := i + 1;
    }
  }

  method FieldDiffers(text: bool, table: seq<byte>, file: seq<byte>) returns (d: bool)
    requires |table| == |file|
    ensures d <==> !SameField(text, table, file)
    ensures !d <==> || file == table
                    || forall i :: 0 <= i < |file| ==>
                         table[i] == if file[i] == 0 then (if text then 32 else 48)
                                     else if file[i] == 32 && !text then 48 else file[i]
  {
    NumericFieldSame(table, file);
    TextFieldSame(table, file);
    var buf := new byte[|file|](i requires 0 <= i < |file| => file[i]);
    assert buf[..] == file;
    d := Differs(buf, table);
    if d {
      Fill(buf, text);
      d := Differs(buf, table);
      assert buf[..] == table <==> forall i :: 0 <= i < |file| ==> buf[..][i] == table[i];
    }
  }

  /** reccmp. */
  method RecordsDiffer(cols: seq<Column>, table: seq<byte>, file: seq<byte>) returns (d: bool)
    requires Inside(cols, |table|) && Inside(cols, |file|)
    ensures d <==> !SameRecord(cols, table, file)
  {
    var c := 0;
    while c < |cols|
      invariant 0 <= c <= |cols|
      invariant forall i :: 0 <= i < c ==> SameField(!cols[i].numeric, Z.Slice(cols[i], table), Z.Slice(cols[i], file))
    {
      var col := cols[c];
      var a, z := col.offset, col.offset + col.len;
      var e := FieldDiffers(!col.numeric, table[a..z], file[a..z]);
      if e {
        return true;
      }
      c := c + 1;
    }
    return false;
  }

  // ---- The statements ----

  type File = seq<Rec<seq<byte>>>
  type Table = map<int, seq<byte>>

  /** The columns, the key of a record, and the record that the table gives back for one
      that was stored. */
  datatype Storage = Storage(cols: seq<Column>, keyOf: seq<byte> -> int, image: seq<byte> -> seq<byte>)

  /** The key under which the statements built from a record insert, update and delete: not
      the record's own, but that of what is stored. */
  function At(st: Storage, r: seq<byte>): int {
    st.keyOf(st.image(r))
  }

  /** op_write: an existing row is left alone. */
  function Inserted(st: Storage, db: Table, r: seq<byte>): Table {
    if At(st, r) in db then db else db[At(st, r) := st.image(r)]
  }

  /** op_rewrite: there must be a row, and one equal to the record is left alone. */
  function Updated(st: Storage, db: Table, r: seq<byte>): Table {
    if At(st, r) in db && db[At(st, r)] != r then db[At(st, r) := st.image(r)] else db
  }

  function Deleted(st: Storage, db: Table, r: seq<byte>): Table {
    db - {At(st, r)}
  }

  // ---- The merge ----

  ghost predicate Fits(cols: seq<Column>, f: File) {
    forall i :: 0 <= i < |f| ==> Inside(cols, |f[i].data|)
  }

  /** Both maps have key `k`, with records that compare equal. */
  ghost predicate Same(st: Storage, d: Table, e: Table, k: int) {
    && k in d && k in e && Inside(st.cols, |d[k]|) && Inside(st.cols, |e[k]|)
    && SameRecord(st.cols, d[k], e[k])
  }

  /** The table after the action for key `k`; `d` is what the cursor delivers and `e` what
      the ISAM file holds. */
  ghost function Repaired(st: Storage, db: Table, d: Table, e: Table, k: int): Table
    requires k in d || k in e
  {
    if Same(st, d, e, k) then db
    else if k in d && k in e then Updated(st, db, e[k])
    else if k in e then Inserted(st, db, e[k])
    else Deleted(st, db, d[k])
  }

  ghost function Synced(st: Storage, db: Table, snap: File, isam: File): Table
    decreases |snap| + |isam|
  {
    if snap == [] && isam == [] then db
    else
      LowIsThere(snap, isam);
      Synced(st, Repaired(st, db, Dict(snap), Dict(isam), Low(snap, isam)), Rest(snap, isam), Rest(isam, snap))
  }

  lemma LowIsThere(f: File, g: File)
    requires f != [] || g != []
    ensures Low(f, g) in Dict(f) || Low(f, g) in Dict(g)
  {
  }

  /** A step of the merge is done with the lowest key. */
  lemma RestDict(f: File, g: File)
    requires Ascending(f) && Ascending(g) && (f != [] || g != [])
    ensures Dict(Rest(f, g)) == Dict(f) - {Low(f, g)} && Ascending(Rest(f, g))
  {
    var low := Low(f, g);
    if TakesFirst(f, g) {
      DictAbove(f[1..], low);
    } else {
      DictAbove(f, low);
    }
  }

  // ---- Which statements hit their own key ----

  /** The record from which the statement for key `k` is built. */
  ghost function Actor(d: Table, e: Table, k: int): seq<byte>
    requires k in d || k in e
  {
    if k in e then e[k] else d[k]
  }

  ghost predicate Own(st: Storage, d: Table, e: Table, k: int)
    requires k in d || k in e
  {
    At(st, Actor(d, e, k)) == k
  }

  /** Every key in only one of the two is kept by storing its record. */
  ghost predicate LoneKeysKept(st: Storage, d: Table, e: Table) {
    forall k :: (k in d) != (k in e) ==> Own(st, d, e, k)
  }

  /** So is every key that calls for a statement. */
  ghost predicate KeysKept(st: Storage, d: Table, e: Table) {
    forall k :: k in d || k in e ==> Same(st, d, e, k) || Own(st, d, e, k)
  }

  /** What storing did to a key, storing again leaves alone: a key under which some record
      is filed is kept by its own record. */
  ghost predicate Steady(st: Storage, d: Table, e: Table) {
    forall j, k {:trigger Actor(d, e, j), Actor(d, e, k)} ::
      (j in d || j in e) && (k in d || k in e) && At(st, Actor(d, e, j)) == k ==> Own(st, d, e, k)
  }

  /** No statement is about key `k`. */
  ghost predicate NoneAt(st: Storage, d: Table, e: Table, k: int) {
    forall j :: j in d || j in e ==> Same(st, d, e, j) || At(st, Actor(d, e, j)) != k
  }

  ghost predicate Alike(t: Table, u: Table, k: int) {
    (k in t <==> k in u) && (k in t ==> t[k] == u[k])
  }

  // ---- What the merge leaves in the table ----

  /** A key that no statement is about is left alone. */
  lemma {:induction false} Untouched(st: Storage, db: Table, snap: File, isam: File, k: int)
    requires Ascending(snap) && Ascending(isam) && NoneAt(st, Dict(snap), Dict(isam), k)
    ensures Alike(Synced(st, db, snap, isam), db, k)
    decreases |snap| + |isam|
  {
    hide Dict, SameRecord;
    if snap != [] || isam != [] {
      var d, e, low := Dict(snap), Dict(isam), Low(snap, isam);
      LowIsThere(snap, isam);
      RestDict(snap, isam);
      RestDict(isam, snap);
      Untouched(st, Repaired(st, db, d, e, low), Rest(snap, isam), Rest(isam, snap), k);
    }
  }

  /** Under `k`: nothing if the file has nothing, the record that was there if it compares
      equal, and otherwise the image of the file's record. */
  ghost predicate Settled(st: Storage, t: Table, d: Table, e: Table, k: int) {
    && (k in t <==> k in e)
    && (k in t ==> t[k] == if Same(st, d, e, k) then d[k] else st.image(e[k]))
  }

  /** With the lowest key gone, the rest still hit their own keys. */
  lemma KeysKeptRest(st: Storage, d: Table, e: Table, low: int, k: int)
    requires KeysKept(st, d, e)
    ensures KeysKept(st, d - {low}, e - {low})
    ensures k !in d - {low} && k !in e - {low} ==> NoneAt(st, d - {low}, e - {low}, k)
    ensures k != low ==> Alike(d - {low}, d, k)
  {
    hide SameRecord;
    forall j | j in d - {low} || j in e - {low}
      ensures Same(st, d - {low}, e - {low}, j) || Own(st, d - {low}, e - {low}, j)
    {
      assert Same(st, d, e, j) || Own(st, d, e, j);
    }
  }

  lemma SettledRest(st: Storage, t: Table, u: Table, d: Table, e: Table, low: int, k: int)
    ensures k != low && Settled(st, t, d - {low}, e - {low}, k) ==> Settled(st, t, d, e, k)
    ensures Settled(st, u, d, e, k) && Alike(t, u, k) ==> Settled(st, t, d, e, k)
    ensures k !in d && k !in e && Alike(t, u, k) && Alike(u, d, k) ==> Settled(st, t, d, e, k)
  {
  }

  /** Where every statement hits its own key, every key is settled in the end. */
  lemma {:induction false} SyncSettles(st: Storage, db: Table, snap: File, isam: File, k: int)
    requires Ascending(snap) && Ascending(isam) && Fits(st.cols, isam)
    requires KeysKept(st, Dict(snap), Dict(isam)) && Alike(db, Dict(snap), k)
    ensures Settled(st, Synced(st, db, snap, isam), Dict(snap), Dict(isam), k)
    decreases |snap| + |isam|
  {
    hide Dict, Repaired, Settled, KeysKept, NoneAt, Ascending, Alike;
    var d, e, t := Dict(snap), Dict(isam), Synced(st, db, snap, isam);
    if snap == [] && isam == [] {
      NothingThere();
      AlikeItself(db, k);
      SettledRest(st, t, db, d, e, 0, k);
    } else {
      var low, f, g := Low(snap, isam), Rest(snap, isam), Rest(isam, snap);
      LowIsThere(snap, isam);
      RestDict(snap, isam);
      RestDict(isam, snap);
      var u := Repaired(st, db, d, e, low);
      if low in e { DictFits(st.cols, isam, low); }
      LowKept(st, d, e, low);
      RepairSettles(st, db, d, e, low, k);
      KeysKeptRest(st, d, e, low, k);
      if k == low {
        Untouched(st, u, f, g, k);
      } else {
        AlikeThrough(u, d, d - {low}, k);
        SyncSettles(st, u, f, g, k);
      }
      SettledRest(st, t, u, d, e, low, k);
    }
  }

  lemma LowKept(st: Storage, d: Table, e: Table, low: int)
    requires KeysKept(st, d, e) && (low in d || low in e)
    ensures Same(st, d, e, low) || Own(st, d, e, low)
  {
  }

  lemma AlikeItself(t: Table, k: int)
    ensures Alike(t, t, k)
  {
  }

  lemma AlikeThrough(t: Table, u: Table, v: Table, k: int)
    requires Alike(t, u, k) && Alike(v, u, k)
    ensures Alike(t, v, k)
  {
  }

  lemma NothingThere()
    ensures Dict<seq<byte>>([]) == map[]
  {
  }

  lemma RepairSettles(st: Storage, db: Table, d: Table, e: Table, low: int, k: int)
    requires (low in d || low in e) && (Same(st, d, e, low) || Own(st, d, e, low)) && Alike(db, d, k)
    requires low in e ==> Inside(st.cols, |e[low]|)
    ensures var t := Repaired(st, db, d, e, low);
      if k == low then Settled(st, t, d, e, k) else Alike(t, d, k)
  {
    if k == low && k in d && k in e && d[k] == e[k] {
      assert Same(st, d, e, k);
    }
  }

  lemma {:induction false} DictFits(cols: seq<Column>, f: File, k: int)
    requires Fits(cols, f) && k in Dict(f)
    ensures Inside(cols, |Dict(f)[k]|)
  {
    if f[0].key != k { DictFits(cols, f[1..], k); }
  }

  /** Where every lone key is kept, the table has exactly the keys of the file in the end. */
  lemma {:induction false} KeySettles(st: Storage, db: Table, snap: File, isam: File, k: int)
    requires Ascending(snap) && Ascending(isam) && LoneKeysKept(st, Dict(snap), Dict(isam))
    requires k in Dict(snap) || k in Dict(isam) ==> (k in db <==> k in Dict(snap))
    ensures k in Dict(snap) || k in Dict(isam) ==> (k in Synced(st, db, snap, isam) <==> k in Dict(isam))
    ensures k !in Dict(snap) && k !in Dict(isam) ==> (k in Synced(st, db, snap, isam) <==> k in db)
    decreases |snap| + |isam|
  {
    hide Dict, SameRecord;
    if snap != [] || isam != [] {
      var d, e, low := Dict(snap), Dict(isam), Low(snap, isam);
      LowIsThere(snap, isam);
      RestDict(snap, isam);
      RestDict(isam, snap);
      KeySettles(st, Repaired(st, db, d, e, low), Rest(snap, isam), Rest(isam, snap), k);
    } else {
      NothingThere();
    }
  }

  // ---- What SYNC achieves ----

  /** The table has exactly the file's keys, if and only if storing keeps every key that is
      in only one of the two. */
  lemma KeysExact(st: Storage, snap: File, isam: File)
    requires Ascending(snap) && Ascending(isam) && Steady(st, Dict(snap), Dict(isam))
    ensures Synced(st, Dict(snap), snap, isam).Keys == Dict(isam).Keys <==> LoneKeysKept(st, Dict(snap), Dict(isam))
  {
    hide Dict, Synced, Same;
    var d, e, t := Dict(snap), Dict(isam), Synced(st, Dict(snap), snap, isam);
    if t.Keys == e.Keys {
      forall k | (k in d) != (k in e) ensures Own(st, d, e, k) {
        if !Own(st, d, e, k) {
          Untouched(st, d, snap, isam, k);
        }
      }
    }
    if LoneKeysKept(st, d, e) {
      forall k ensures k in t.Keys <==> k in e.Keys {
        KeySettles(st, d, snap, isam, k);
      }
    }
  }

  /** Table and file have the same keys, with records that compare equal. */
  ghost predicate InSync(st: Storage, t: Table, e: Table) {
    t.Keys == e.Keys && forall k :: k in e ==> Same(st, t, e, k)
  }

  /** Key `k` can be brought in line: it is already, or storing keeps the key and gives back
      a record that compares equal. */
  ghost predicate Repairable(st: Storage, d: Table, e: Table, k: int)
    requires k in d || k in e
  {
    || Same(st, d, e, k)
    || (&& Own(st, d, e, k)
        && (k in e ==> && Inside(st.cols, |e[k]|) && Inside(st.cols, |st.image(e[k])|)
                       && SameRecord(st.cols, st.image(e[k]), e[k])))
  }

  /** SYNC brings the table in line with the file if and only if every key can be. */
  lemma SyncExact(st: Storage, snap: File, isam: File)
    requires Ascending(snap) && Ascending(isam) && Fits(st.cols, isam) && Steady(st, Dict(snap), Dict(isam))
    ensures InSync(st, Synced(st, Dict(snap), snap, isam), Dict(isam))
       <==> forall k :: k in Dict(snap) || k in Dict(isam) ==> Repairable(st, Dict(snap), Dict(isam), k)
  {
    hide Dict, Synced, SameRecord;
    var d, e, t := Dict(snap), Dict(isam), Synced(st, Dict(snap), snap, isam);
    if InSync(st, t, e) {
      forall k | k in d || k in e ensures Same(st, d, e, k) || Own(st, d, e, k) {
        if !Own(st, d, e, k) {
          Untouched(st, d, snap, isam, k);
          assert k in t <==> k in t.Keys;
        }
      }
      forall k | k in d || k in e ensures Repairable(st, d, e, k) {
        SyncSettles(st, d, snap, isam, k);
      }
    }
    if forall k :: k in d || k in e ==> Repairable(st, d, e, k) {
      forall k ensures Settled(st, t, d, e, k) {
        SyncSettles(st, d, snap, isam, k);
      }
      assert t.Keys == e.Keys by {
        forall k ensures k in t.Keys <==> k in e.Keys { assert Settled(st, t, d, e, k); }
      }
      forall k | k in e ensures Same(st, t, e, k) {
        assert Settled(st, t, d, e, k) && Repairable(st, d, e, k);
      }
    }
  }

  // ---- The program ----

  class Database {
    var table: Table

    constructor (table: Table)
      ensures this.table == table
    {
      this.table := table;
    }

    method OpWrite(st: Storage, r: seq<byte>)
      modifies this
      ensures table == Inserted(st, old(table), r)
      ensures st.keyOf(st.image(r)) in old(table) ==> table == old(table)
      ensures st.keyOf(st.image(r)) !in old(table) ==>
        table == old(table)[st.keyOf(st.image(r)) := st.image(r)]
    {
      var at := At(st, r);
      if at in table { return; }
      table := table[at := st.image(r)];
    }

    method OpRewrite(st: Storage, r: seq<byte>)
      modifies this
      ensures table == Updated(st, old(table), r)
      ensures table.Keys == old(table).Keys
      ensures st.keyOf(st.image(r)) in old(table) ==>
        var was := old(table)[st.keyOf(st.image(r))];
        table == old(table)[st.keyOf(st.image(r)) := if was == r then was else st.image(r)]
    {
      var at := At(st, r);
      if at !in table { return; }
      if table[at] == r { return; }
      table := table[at := st.image(r)];
    }

    method OpDelete(st: Storage, r: seq<byte>)
      modifies this
      ensures table == Deleted(st, old(table), r)
      ensures table == map k | k in old(table) && k != st.keyOf(st.image(r)) :: old(table)[k]
    {
      var at := At(st, r);
      if at !in table { return; }
      table := table - {at};
    }

    /** The action for the next records: nothing, rewrite, write or delete. */
    method Repair(st: Storage, snap: File, i: nat, isam: File, j: nat, sync: bool) returns (i': nat, j': nat)
      requires i <= |snap| && j <= |isam| && (i < |snap| || j < |isam|)
      requires Fits(st.cols, snap) && Fits(st.cols, isam) && Ascending(snap[i..]) && Ascending(isam[j..])
      modifies this
      ensures i <= i' <= |snap| && j <= j' <= |isam| && i' + j' > i + j
      ensures var low := Low(snap[i..], isam[j..]);
        && (low in Dict(snap[i..]) || low in Dict(isam[j..]))
        && table == if sync then Repaired(st, old(table), Dict(snap[i..]), Dict(isam[j..]), low) else old(table)
      ensures snap[i'..] == Rest(snap[i..], isam[j..]) && isam[j'..] == Rest(isam[j..], snap[i..])
    {
      hide SameRecord;
      ghost var f, g := snap[i..], isam[j..];
      DictsAtLow(f, g);
      i', j' := i, j;
      if i < |snap| && j < |isam| {
        if snap[i].key == isam[j].key {
          var differ := RecordsDiffer(st.cols, snap[i].data, isam[j].data);
          if differ && sync { OpRewrite(st, isam[j].data); }
          i', j' := i + 1, j + 1;
        } else if snap[i].key > isam[j].key {
          if sync { OpWrite(st, isam[j].data); }
          j' := j + 1;
        } else {
          if sync { OpDelete(st, snap[i].data); }
          i' := i + 1;
        }
      } else if i < |snap| {
        if sync { OpDelete(st, snap[i].data); }
        i' := i + 1;
      } else {
        if sync { OpWrite(st, isam[j].data); }
        j' := j + 1;
      }
    }

    /** The loop of cmp_table. */
    method MergeLoop(st: Storage, snap: File, isam: File, sync: bool)
      requires Fits(st.cols, snap) && Fits(st.cols, isam) && Ascending(snap) && Ascending(isam)
      modifies this
      ensures table == if sync then Synced(st, old(table), snap, isam) else old(table)
    {
      hide Repaired, Dict, Fits, Low;
      var i, j := 0, 0;
      assert snap[0..] == snap && isam[0..] == isam;
      while i < |snap| || j < |isam|
        invariant i <= |snap| && j <= |isam| && Ascending(snap[i..]) && Ascending(isam[j..])
        invariant sync ==> Synced(st, table, snap[i..], isam[j..]) == Synced(st, old(table), snap, isam)
        invariant !sync ==> table == old(table)
        decreases |snap| - i + (|isam| - j)
      {
        RestDict(snap[i..], isam[j..]);
        RestDict(isam[j..], snap[i..]);
        i, j := Repair(st, snap, i, isam, j, sync);
      }
      assert snap[i..] == [] && isam[j..] == [];
    }

    /** cmp_table with SYNC, on a table and a cursor over it. */
    method Sync(st: Storage, snap: File, isam: File)
      requires Ascending(snap) && Ascending(isam) && Fits(st.cols, snap) && Fits(st.cols, isam)
      requires Keyed(st, snap) && Keyed(st, isam) && Steady(st, Dict(snap), Dict(isam)) && table == Dict(snap)
      modifies this
      ensures table.Keys == Dict(isam).Keys <==> LoneKeysKept(st, Dict(snap), Dict(isam))
      ensures InSync(st, table, Dict(isam))
         <==> forall k :: k in Dict(snap) || k in Dict(isam) ==> Repairable(st, Dict(snap), Dict(isam), k)
    {
      hide Synced, Dict, Same, Repairable, Steady;
      MergeLoop(st, snap, isam, true);
      KeysExact(st, snap, isam);
      SyncExact(st, snap, isam);
    }
  }

  /** Records are read under the key they contain. */
  ghost predicate Keyed(st: Storage, f: File) {
    forall i :: 0 <= i < |f| ==> f[i].key == st.keyOf(f[i].data)
  }

  /** The lowest key is the next one of either file or of both. */
  lemma DictsAtLow(f: File, g: File)
    requires Ascending(f) && Ascending(g) && (f != [] || g != [])
    ensures var low := Low(f, g);
      && (low in Dict(f) <==> TakesFirst(f, g)) && (TakesFirst(f, g) ==> Dict(f)[low] == f[0].data)
      && (low in Dict(g) <==> TakesFirst(g, f)) && (TakesFirst(g, f) ==> Dict(g)[low] == g[0].data)
  {
    var low := Low(f, g);
    if !TakesFirst(f, g) { DictAbove(f, low); }
    if !TakesFirst(g, f) { DictAbove(g, low); }
  }
}
