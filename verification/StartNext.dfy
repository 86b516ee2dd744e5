/** START and READ NEXT over a cursor (op_start.c, op_next_prev.c). A START that repeats the
    key of the last record read keeps the cursor instead of declaring it again. */
module StartNext {
  import opened Bytes
  import W = Where

  type Rec = seq<byte>
  type Key = seq<byte>

  /** The operators whose cursors the shortcut may keep. */
  type Op = op: W.Op | op == W.Gt || op == W.Ge witness W.Gt

  /** The records by each key, in ascending order; the bytes of a record's key; and the
      place of a key in its order. */
  datatype Table = Table(sorted: nat -> seq<Rec>, key: (nat, Rec) -> Key, rank: (nat, Key) -> int, keyLen: nat -> nat)

  /** Keys are unique, and those by one index are equally long. */
  ghost predicate Ordered(t: Table) {
    && (forall id: nat :: Ascending(t, id, t.sorted(id)))
    && (forall id: nat, r: Rec :: |t.key(id, r)| == t.keyLen(id))
  }

  function Rank(t: Table, id: nat, r: Rec): int {
    t.rank(id, t.key(id, r))
  }

  ghost predicate Ascending(t: Table, id: nat, s: seq<Rec>) {
    forall i, j :: 0 <= i < j < |s| ==> Rank(t, id, s[i]) < Rank(t, id, s[j])
  }

  /** The rows of `s` that a cursor selects. */
  function Filter(t: Table, id: nat, s: seq<Rec>, op: Op, k: int): seq<Rec> {
    if s == [] then []
    else (if W.Compares(Rank(t, id, s[0]), op, k) then [s[0]] else []) + Filter(t, id, s[1..], op, k)
  }

  function Rows(t: Table, id: nat, op: Op, k: int): seq<Rec> {
    Filter(t, id, t.sorted(id), op, k)
  }

  // ---- The program's state ----

  datatype Status = Ok | Eof | NotFound

  /** What a cursor still holds: the rows above, or from, place k. */
  datatype Bound = Bound(op: Op, k: int)

  /** The table's fields and the caller's record, key and status (pqfh.h:26-60). `open` is
      that key_next is not -1; `cursor` holds the rows not yet fetched. Two fields are
      history: the bound of those rows, and whether any row of this cursor was fetched. */
  datatype State = State(open: bool, keyNext: nat, bufNext: Key, recNext: Rec, cursor: seq<Rec>,
                         first: bool, restart: bool, record: Rec, keyId: nat, status: Status,
                         from: Bound, fetched: bool)

  /** op_next_prev.c:52-138, forward. */
  function ReadNext(t: Table, s: State): State {
    if s.first then s.(first := false, status := Ok)
    else if s.restart then s.(record := s.recNext, status := Ok, restart := false)
    else if s.cursor == [] then s.(status := Eof)
    else
      var r := s.cursor[0];
      s.(cursor := s.cursor[1..], record := r, status := Ok, bufNext := t.key(s.keyId, r), recNext := r,
         from := Bound(W.Gt, Rank(t, s.keyId, r)), fetched := true)
  }

  /** The test of the shortcut: the same index, and a key equal to the first bytes of the
      last one read (op_start.c:60-62). */
  predicate SameKey(t: Table, s: State, id: nat, rec: Rec) {
    && s.open && id == s.keyNext
    && |t.key(id, rec)| <= |s.bufNext| && s.bufNext[..|t.key(id, rec)|] == t.key(id, rec)
  }

  /** op_start.c:48-141 for > and >=; without `shortcut` the cursor is always declared. */
  function Start(t: Table, s: State, op: Op, id: nat, rec: Rec, shortcut: bool): State {
    if shortcut && SameKey(t, s, id, rec) then
      s.(record := rec, keyId := id, status := Ok, restart := op == W.Ge || s.restart)
    else Declare(t, s.(record := rec, keyId := id), op)
  }

  /** op_start.c:91-141: a new cursor, and its first row fetched. */
  function Declare(t: Table, s: State, op: Op): State {
    var n := ReadNext(t, Declared(t, s, op));
    if n.status == Eof then n.(first := false, status := NotFound) else n.(first := true)
  }

  function Declared(t: Table, s: State, op: Op): State {
    var k := Rank(t, s.keyId, s.record);
    s.(cursor := Rows(t, s.keyId, op, k), first := false, open := true, keyNext := s.keyId,
       from := Bound(op, k), fetched := false)
  }

  /** The records that READ NEXT calls will return, in order. */
  ghost function Stream(s: State): seq<Rec> {
    Ahead(s) + s.cursor
  }

  /** Those of them that come before the rest of the cursor. */
  ghost function Ahead(s: State): seq<Rec> {
    (if s.first then [s.record] else []) + (if s.restart then [s.recNext] else [])
  }

  /** The open file, whose fields the calls update. */
  class File {
    const table: Table
    const shortcut: bool
    var open: bool
    var keyNext: nat
    var bufNext: Key
    var recNext: Rec
    var cursor: seq<Rec>
    var first: bool
    var restart: bool
    var record: Rec
    var keyId: nat
    var status: Status
    ghost var from: Bound
    ghost var fetched: bool

    ghost function View(): State
      reads this
    {
      State(open, keyNext, bufNext, recNext, cursor, first, restart, record, keyId, status, from, fetched)
    }

    constructor (t: Table, short: bool)
      requires Ordered(t)
      ensures table == t && shortcut == short && View() == Opened() && Inv(table, View())
    {
      table, shortcut := t, short;
      open, keyNext, bufNext, recNext, cursor := false, 0, [], [], [];
      first, restart, record, keyId, status := false, false, [], 0, Ok;
      from, fetched := Bound(W.Gt, 0), false;
    }

    method OpNext()
      requires Ordered(table) && Inv(table, View())
      modifies this
      ensures Inv(table, View())
      ensures View() == ReadNext(table, old(View()))
      ensures var was := Stream(old(View()));
        if was == [] then status == Eof && Stream(View()) == []
        else status == Ok && record == was[0] && Stream(View()) == was[1..]
    {
      hide Ordered, Inv, Filter;
      ReadPops(table, View());
      ReadKeeps(table, View());
      Fetch();
    }

    method Fetch()
      modifies this
      ensures View() == ReadNext(table, old(View()))
    {
      if first {
        first := false;
        status := Ok;
        return;
      }
      if restart {
        record := recNext;
        status := Ok;
        restart := false;
        return;
      }
      if cursor == [] {
        status := Eof;
        return;
      }
      record, cursor := cursor[0], cursor[1..];
      status := Ok;
      bufNext := table.key(keyId, record);
      recNext := record;
      from, fetched := Bound(W.Gt, Rank(table, keyId, record)), true;
    }

    method OpStart(op: Op, id: nat, rec: Rec)
      requires Ordered(table) && Inv(table, View())
      modifies this
      ensures Inv(table, View())
      ensures View() == Start(table, old(View()), op, id, rec, shortcut)
      ensures Stream(View()) == Rows(table, id, op, Rank(table, id, rec))
         <==> Starts(table, old(View()), op, id, rec, shortcut)
      ensures shortcut && old(open) && id == old(keyNext) && table.key(id, rec) == old(bufNext) ==> status == Ok
    {
      hide Ordered, Inv, Stream, Starts, Declare;
      StartRight(table, View(), op, id, rec, shortcut);
      StartKeeps(table, View(), op, id, rec, shortcut);
      record, keyId := rec, id;
      var kbuf := table.key(id, record);
      if shortcut && open && id == keyNext && |kbuf| <= |bufNext| && bufNext[..|kbuf|] == kbuf {
        if op == W.Ge { restart := true; }
        status := Ok;
        return;
      }
      DeclareCursor(op);
    }

    method DeclareCursor(op: Op)
      modifies this
      ensures View() == Declare(table, old(View()), op)
    {
      hide ReadNext, Declared;
      NewCursor(op);
      Fetch();
      first := true;
      if status == Eof {
        first := false;
        status := NotFound;
      }
    }

    method NewCursor(op: Op)
      modifies this
      ensures View() == Declared(table, old(View()), op)
    {
      hide Filter;
      var k := Rank(table, keyId, record);
      cursor := Rows(table, keyId, op, k);
      first := false;
      open, keyNext := true, keyId;
      from, fetched := Bound(op, k), false;
    }
  }

  /** op_open.c:52-71. */
  function Opened(): State {
    State(false, 0, [], [], [], false, false, [], 0, Ok, Bound(W.Gt, 0), false)
  }

  // ---- Cursors ----

  lemma {:induction false} FilterAll(t: Table, id: nat, s: seq<Rec>, op: Op, k: int)
    requires forall i :: 0 <= i < |s| ==> Rank(t, id, s[i]) > k
    ensures Filter(t, id, s, op, k) == s
  {
    if s != [] { FilterAll(t, id, s[1..], op, k); }
  }

  lemma AscendingTail(t: Table, id: nat, s: seq<Rec>)
    requires Ascending(t, id, s) && s != []
    ensures Ascending(t, id, s[1..])
    ensures forall i :: 0 <= i < |s[1..]| ==> Rank(t, id, s[1..][i]) > Rank(t, id, s[0])
  {
  }

  /** A cursor's rows are those that its condition is true of. */
  lemma {:induction false} FilterHas(t: Table, id: nat, s: seq<Rec>, op: Op, k: int, r: Rec)
    ensures r in Filter(t, id, s, op, k) <==> r in s && W.Compares(Rank(t, id, r), op, k)
  {
    if s != [] {
      FilterHas(t, id, s[1..], op, k, r);
      assert r in s <==> r == s[0] || r in s[1..];
    }
  }

  /** What is left after the first row is what lies above it. */
  lemma {:induction false} RestIsAbove(t: Table, id: nat, s: seq<Rec>, op: Op, k: int)
    requires Ascending(t, id, s)
    ensures var f := Filter(t, id, s, op, k);
      f != [] ==> f[0] in s && f[1..] == Filter(t, id, s, W.Gt, Rank(t, id, f[0]))
  {
    hide Ascending;
    if s != [] {
      AscendingTail(t, id, s);
      if W.Compares(Rank(t, id, s[0]), op, k) {
        FilterAll(t, id, s[1..], op, k);
        FilterAll(t, id, s[1..], W.Gt, Rank(t, id, s[0]));
        assert Filter(t, id, s, op, k) == s;
      } else {
        RestIsAbove(t, id, s[1..], op, k);
        var f := Filter(t, id, s[1..], op, k);
        assert Filter(t, id, s, op, k) == f;
        assert f != [] ==> Filter(t, id, s, W.Gt, Rank(t, id, f[0])) == f[1..];
      }
    }
  }

  lemma {:induction false} FromItself(t: Table, id: nat, s: seq<Rec>, r: Rec)
    requires Ascending(t, id, s) && r in s
    ensures Filter(t, id, s, W.Ge, Rank(t, id, r)) == [r] + Filter(t, id, s, W.Gt, Rank(t, id, r))
  {
    hide Ascending;
    AscendingTail(t, id, s);
    if s[0] == r {
      FilterAll(t, id, s[1..], W.Ge, Rank(t, id, r));
      FilterAll(t, id, s[1..], W.Gt, Rank(t, id, r));
    } else {
      FromItself(t, id, s[1..], r);
    }
  }

  // ---- When records that wait join up with a cursor ----

  /** No row of the table tells the two bounds apart. */
  ghost predicate SameBound(t: Table, id: nat, op: Op, k: int, b: Bound) {
    forall r :: r in t.sorted(id) ==> (W.Compares(Rank(t, id, r), op, k) <==> W.Compares(Rank(t, id, r), b.op, b.k))
  }

  /** r is the first row that op and k select. */
  ghost predicate Nearest(t: Table, id: nat, op: Op, k: int, r: Rec) {
    && r in t.sorted(id) && W.Compares(Rank(t, id, r), op, k)
    && forall x :: x in t.sorted(id) && W.Compares(Rank(t, id, x), op, k) ==> Rank(t, id, r) <= Rank(t, id, x)
  }

  /** Each record is the next row of the table after the one before it, and no row lies
      between the last one and the cursor. */
  ghost predicate Joins(t: Table, id: nat, op: Op, k: int, w: seq<Rec>, b: Bound)
    decreases |w|
  {
    if w == [] then SameBound(t, id, op, k, b)
    else Nearest(t, id, op, k, w[0]) && Joins(t, id, W.Gt, Rank(t, id, w[0]), w[1..], b)
  }

  lemma SameBoundExact(t: Table, id: nat, op: Op, k: int, b: Bound)
    requires Ordered(t)
    ensures Rows(t, id, b.op, b.k) == Rows(t, id, op, k) <==> SameBound(t, id, op, k, b)
  {
    hide Filter, W.Compares;
    var s := t.sorted(id);
    if Rows(t, id, b.op, b.k) == Rows(t, id, op, k) {
      forall r | r in s ensures W.Compares(Rank(t, id, r), op, k) <==> W.Compares(Rank(t, id, r), b.op, b.k) {
        FilterHas(t, id, s, op, k, r);
        FilterHas(t, id, s, b.op, b.k, r);
      }
    }
    if SameBound(t, id, op, k, b) { FilterAgrees(t, id, s, op, k, b); }
  }

  lemma {:induction false} FilterAgrees(t: Table, id: nat, s: seq<Rec>, op: Op, k: int, b: Bound)
    requires forall r :: r in s ==> (W.Compares(Rank(t, id, r), op, k) <==> W.Compares(Rank(t, id, r), b.op, b.k))
    ensures Filter(t, id, s, op, k) == Filter(t, id, s, b.op, b.k)
  {
    if s != [] { FilterAgrees(t, id, s[1..], op, k, b); }
  }

  lemma NearestExact(t: Table, id: nat, op: Op, k: int, r: Rec, rest: seq<Rec>)
    requires Ordered(t)
    ensures [r] + rest == Rows(t, id, op, k) <==> Nearest(t, id, op, k, r) && rest == Rows(t, id, W.Gt, Rank(t, id, r))
  {
    hide Filter, Ascending;
    var s, f := t.sorted(id), Rows(t, id, op, k);
    RestIsAbove(t, id, s, op, k);
    if [r] + rest == f {
      assert f[0] == r && f[1..] == rest;
      FilterHas(t, id, s, op, k, r);
      forall x | x in s && W.Compares(Rank(t, id, x), op, k) ensures Rank(t, id, r) <= Rank(t, id, x) {
        FilterHas(t, id, s, op, k, x);
        FilterHas(t, id, s, W.Gt, Rank(t, id, r), x);
        assert x == f[0] || x in f[1..];
      }
    }
    if Nearest(t, id, op, k, r) {
      FilterHas(t, id, s, op, k, r);
      FilterHas(t, id, s, op, k, f[0]);
      FilterHas(t, id, s, W.Gt, Rank(t, id, f[0]), r);
      assert f == [f[0]] + f[1..];
    }
  }

  lemma {:induction false} JoinsExact(t: Table, id: nat, op: Op, k: int, w: seq<Rec>, b: Bound)
    requires Ordered(t)
    ensures w + Rows(t, id, b.op, b.k) == Rows(t, id, op, k) <==> Joins(t, id, op, k, w, b)
    decreases |w|
  {
    hide Ordered, Rows, SameBound, Nearest;
    if w == [] {
      SameBoundExact(t, id, op, k, b);
      assert w + Rows(t, id, b.op, b.k) == Rows(t, id, b.op, b.k);
    } else {
      JoinsExact(t, id, W.Gt, Rank(t, id, w[0]), w[1..], b);
      NearestExact(t, id, op, k, w[0], w[1..] + Rows(t, id, b.op, b.k));
      assert w + Rows(t, id, b.op, b.k) == [w[0]] + (w[1..] + Rows(t, id, b.op, b.k));
    }
  }

  // ---- What every step keeps ----

  /** The cursor holds the rows within its bound. Once a row of it was fetched, the bound
      and the remembered key and record are those of the last row; before that, key and
      record are left over from an earlier cursor. */
  ghost predicate Inv(t: Table, s: State) {
    if !s.open then !s.first && !s.restart && s.cursor == []
    else
      && s.keyId == s.keyNext
      && s.cursor == Rows(t, s.keyNext, s.from.op, s.from.k)
      && (s.fetched ==>
            && s.recNext in t.sorted(s.keyNext) && s.bufNext == t.key(s.keyNext, s.recNext)
            && s.from == Bound(W.Gt, Rank(t, s.keyNext, s.recNext)))
  }

  lemma ReadKeeps(t: Table, s: State)
    requires Ordered(t) && Inv(t, s)
    ensures Inv(t, ReadNext(t, s))
  {
    hide Filter, Ascending;
    if s.open { RestIsAbove(t, s.keyNext, t.sorted(s.keyNext), s.from.op, s.from.k); }
  }

  lemma StartKeeps(t: Table, s: State, op: Op, id: nat, rec: Rec, shortcut: bool)
    requires Ordered(t) && Inv(t, s)
    ensures Inv(t, Start(t, s, op, id, rec, shortcut))
  {
    hide Filter, Ordered;
    if !(shortcut && SameKey(t, s, id, rec)) {
      ReadKeeps(t, Declared(t, s.(record := rec, keyId := id), op));
    }
  }

  /** READ NEXT takes the stream's first record. */
  lemma ReadPops(t: Table, s: State)
    ensures Stream(s) == [] ==> ReadNext(t, s).status == Eof && Stream(ReadNext(t, s)) == []
    ensures Stream(s) != [] ==>
      && ReadNext(t, s).status == Ok && ReadNext(t, s).record == Stream(s)[0]
      && Stream(ReadNext(t, s)) == Stream(s)[1..]
  {
  }

  // ---- When a START is right ----

  /** A new cursor is right unless `restart` answers the fetch inside START. A cursor that
      is kept, and from which a row was fetched, is right unless a record still waits. One
      from which none was fetched is kept because of a key left over from before: then it
      is right only if, by chance, what waits joins up with it. */
  ghost predicate Starts(t: Table, s: State, op: Op, id: nat, rec: Rec, shortcut: bool) {
    if !(shortcut && SameKey(t, s, id, rec)) then !s.restart
    else if s.fetched then !s.first && (op == W.Ge || !s.restart)
    else
      var waiting := (if s.first then [rec] else []) + (if op == W.Ge || s.restart then [s.recNext] else []);
      Joins(t, id, op, Rank(t, id, rec), waiting, s.from)
  }

  /** The exact condition, in every state that any run can reach. */
  lemma StartRight(t: Table, s: State, op: Op, id: nat, rec: Rec, shortcut: bool)
    requires Ordered(t) && Inv(t, s)
    ensures Stream(Start(t, s, op, id, rec, shortcut)) == Rows(t, id, op, Rank(t, id, rec))
       <==> Starts(t, s, op, id, rec, shortcut)
  {
    hide Declare, Rows, Ordered, Joins;
    if !(shortcut && SameKey(t, s, id, rec)) {
      DeclareRight(t, s.(record := rec, keyId := id), op);
    } else if s.fetched {
      KeepRight(t, s, op, rec);
    } else {
      JoinsExact(t, id, op, Rank(t, id, rec), Ahead(Start(t, s, op, id, rec, true)), s.from);
    }
  }

  /** The cursor kept: it lacks only the record just read. */
  lemma KeepRight(t: Table, s: State, op: Op, rec: Rec)
    requires Ordered(t) && Inv(t, s) && s.fetched && SameKey(t, s, s.keyNext, rec)
    ensures Stream(Start(t, s, op, s.keyNext, rec, true)) == Rows(t, s.keyNext, op, Rank(t, s.keyNext, rec))
       <==> !s.first && (op == W.Ge || !s.restart)
  {
    hide Filter, Ascending;
    assert t.key(s.keyNext, rec) == s.bufNext;
    FromItself(t, s.keyNext, t.sorted(s.keyNext), s.recNext);
    assert Rows(t, s.keyNext, W.Ge, Rank(t, s.keyNext, rec)) == [s.recNext] + s.cursor;
  }

  /** A new cursor: right unless the fetch inside START is answered from `restart`. */
  lemma DeclareRight(t: Table, s: State, op: Op)
    requires Ordered(t)
    ensures var n, rows := Declare(t, s, op), Rows(t, s.keyId, op, Rank(t, s.keyId, s.record));
      && (Stream(n) == rows <==> !s.restart)
      && (!s.restart ==> !n.restart && (n.status == Ok <==> rows != []) && (n.fetched <==> rows != []))
  {
    hide Filter, Ascending;
    var rows := Rows(t, s.keyId, op, Rank(t, s.keyId, s.record));
    assert s.restart ==> Stream(Declare(t, s, op)) == [s.recNext] + rows;
    assert !s.restart ==> Stream(Declare(t, s, op)) == rows;
  }

  /** After a START that found nothing, a START on the key of the record last read by the
      same index keeps the empty cursor: right exactly if nothing lies above that key. */
  lemma AfterNotFound(t: Table, s: State, op: Op, rec: Rec)
    requires Ordered(t) && Inv(t, s) && s.open && !s.fetched && !s.first && !s.restart && s.cursor == []
    requires s.recNext in t.sorted(s.keyNext) && s.bufNext == t.key(s.keyNext, s.recNext) == t.key(s.keyNext, rec)
    ensures Stream(Start(t, s, op, s.keyNext, rec, true)) == Rows(t, s.keyNext, op, Rank(t, s.keyNext, rec))
       <==> forall r :: r in t.sorted(s.keyNext) ==> Rank(t, s.keyNext, r) <= Rank(t, s.keyNext, rec)
  {
    hide Filter, Ascending;
    var id, k := s.keyNext, Rank(t, s.keyNext, rec);
    FromItself(t, id, t.sorted(id), s.recNext);
    var above := Rows(t, id, W.Gt, k);
    forall r | r in t.sorted(id) ensures r in above <==> Rank(t, id, r) > k {
      FilterHas(t, id, t.sorted(id), W.Gt, k, r);
    }
    if above != [] { RestIsAbove(t, id, t.sorted(id), W.Gt, k); assert above[0] in above; }
    assert Rows(t, id, W.Ge, k) == [s.recNext] + above;
  }

  /** The cursor is kept exactly if the last START was by the same index and the key agrees,
      over its own length, with the first bytes of the last key read, whichever index that
      one was read by. */
  lemma CursorKept(t: Table, s: State, op: Op, id: nat, rec: Rec)
    ensures var k := t.key(id, rec);
      if s.open && id == s.keyNext && forall i :: 0 <= i < |k| ==> AgreesAt(k, s.bufNext, i)
      then Start(t, s, op, id, rec, true)
           == s.(record := rec, keyId := id, status := Ok, restart := if op == W.Ge then true else s.restart)
      else Start(t, s, op, id, rec, true) == Start(t, s, op, id, rec, false)
  {
    FirstBytes(t.key(id, rec), s.bufNext);
  }

  predicate AgreesAt(k: Key, b: Key, i: nat)
    requires i < |k|
  {
    i < |b| && b[i] == k[i]
  }

  lemma FirstBytes(k: Key, b: Key)
    ensures (forall i :: 0 <= i < |k| ==> AgreesAt(k, b, i)) <==> |k| <= |b| && b[..|k|] == k
  {
    if |k| > |b| {
      assert !AgreesAt(k, b, |b|);
    } else {
      forall i | 0 <= i < |k| ensures AgreesAt(k, b, i) <==> b[..|k|][i] == k[i] {
      }
    }
  }

  /** The status: "00" whenever the cursor is kept, whether or not a row is left; with a new
      cursor "00" exactly if one was found or answered from `restart`, and otherwise "23". */
  lemma StartStatus(t: Table, s: State, op: Op, id: nat, rec: Rec, shortcut: bool)
    ensures var n := Start(t, s, op, id, rec, shortcut);
      if shortcut && SameKey(t, s, id, rec) then n.status == Ok && n.cursor == s.cursor
      else n.status == if s.restart || Rows(t, id, op, Rank(t, id, rec)) != [] then Ok else NotFound
  {
  }

  // ---- Whole runs ----

  datatype Cmd = DoStart(op: Op, id: nat, rec: Rec) | DoNext

  datatype Answer = Record(r: Rec) | AtEnd

  ghost function Step(t: Table, s: State, c: Cmd, shortcut: bool): State {
    if c.DoNext? then ReadNext(t, s) else Start(t, s, c.op, c.id, c.rec, shortcut)
  }

  /** What the READ NEXT calls of a run return. */
  ghost function Answers(t: Table, s: State, cmds: seq<Cmd>, shortcut: bool): seq<Answer>
    decreases |cmds|
  {
    if cmds == [] then []
    else
      var n := Step(t, s, cmds[0], shortcut);
      (if cmds[0].DoNext? then [if n.status == Ok then Record(n.record) else AtEnd] else [])
      + Answers(t, n, cmds[1..], shortcut)
  }

  /** The same by the book: START selects rows, READ NEXT takes the next one. */
  ghost function Expected(t: Table, pending: seq<Rec>, cmds: seq<Cmd>): seq<Answer>
    decreases |cmds|
  {
    if cmds == [] then []
    else match cmds[0]
      case DoStart(op, id, rec) => Expected(t, Rows(t, id, op, Rank(t, id, rec)), cmds[1..])
      case DoNext =>
        if pending == [] then [AtEnd] + Expected(t, [], cmds[1..])
        else [Record(pending[0])] + Expected(t, pending[1..], cmds[1..])
  }

  /** Every START but the first follows directly on a READ NEXT that returned a record. */
  ghost predicate Polite(t: Table, pending: seq<Rec>, mayStart: bool, cmds: seq<Cmd>)
    decreases |cmds|
  {
    cmds == [] || match cmds[0]
      case DoStart(op, id, rec) => mayStart && Polite(t, Rows(t, id, op, Rank(t, id, rec)), false, cmds[1..])
      case DoNext => Polite(t, if pending == [] then [] else pending[1..], pending != [], cmds[1..])
  }

  /** Whatever the calls, every run stays within the invariant. */
  lemma {:induction false} RunKeeps(t: Table, s: State, cmds: seq<Cmd>, shortcut: bool)
    requires Ordered(t) && Inv(t, s)
    ensures Inv(t, After(t, s, cmds, shortcut))
    decreases |cmds|
  {
    hide Inv, Ordered;
    if cmds != [] {
      match cmds[0] {
        case DoStart(op, id, rec) => StartKeeps(t, s, op, id, rec, shortcut);
        case DoNext => ReadKeeps(t, s);
      }
      RunKeeps(t, Step(t, s, cmds[0], shortcut), cmds[1..], shortcut);
    }
  }

  ghost function After(t: Table, s: State, cmds: seq<Cmd>, shortcut: bool): State
    decreases |cmds|
  {
    if cmds == [] then s else After(t, Step(t, s, cmds[0], shortcut), cmds[1..], shortcut)
  }

  /** So the condition is exact for the next START after any run at all. */
  lemma StartRightAlways(t: Table, cmds: seq<Cmd>, op: Op, id: nat, rec: Rec, shortcut: bool)
    requires Ordered(t)
    ensures var s := After(t, Opened(), cmds, shortcut);
      Stream(Start(t, s, op, id, rec, shortcut)) == Rows(t, id, op, Rank(t, id, rec))
      <==> Starts(t, s, op, id, rec, shortcut)
  {
    RunKeeps(t, Opened(), cmds, shortcut);
    StartRight(t, After(t, Opened(), cmds, shortcut), op, id, rec, shortcut);
  }

  /** In a polite run records wait only for a cursor that was fetched from. */
  ghost predicate Reached(t: Table, s: State, pending: seq<Rec>, mayStart: bool) {
    && Inv(t, s) && Stream(s) == pending
    && (s.open && !s.fetched ==> pending == [])
    && (mayStart ==> (s.open ==> s.fetched) && !s.first && !s.restart)
    && !(s.first && s.restart)
  }

  lemma {:induction false} AnswersExpected(t: Table, s: State, pending: seq<Rec>, mayStart: bool, cmds: seq<Cmd>,
                                           shortcut: bool)
    requires Ordered(t) && Reached(t, s, pending, mayStart) && Polite(t, pending, mayStart, cmds)
    ensures Answers(t, s, cmds, shortcut) == Expected(t, pending, cmds)
    decreases |cmds|
  {
    hide Start, ReadNext, Ordered, Inv, Stream, Reached;
    if cmds != [] {
      var n := Step(t, s, cmds[0], shortcut);
      match cmds[0]
      case DoStart(op, id, rec) =>
        MayStart(t, s, pending, op, id, rec, shortcut);
        AnswersExpected(t, n, Rows(t, id, op, Rank(t, id, rec)), false, cmds[1..], shortcut);
      case DoNext =>
        ReadReached(t, s, pending, mayStart);
        AnswersExpected(t, n, if pending == [] then [] else pending[1..], pending != [], cmds[1..], shortcut);
    }
  }

  lemma MayStart(t: Table, s: State, pending: seq<Rec>, op: Op, id: nat, rec: Rec, shortcut: bool)
    requires Ordered(t) && Reached(t, s, pending, true)
    ensures Reached(t, Start(t, s, op, id, rec, shortcut), Rows(t, id, op, Rank(t, id, rec)), false)
  {
    hide Declare, Ordered, Rows;
    StartRight(t, s, op, id, rec, shortcut);
    StartKeeps(t, s, op, id, rec, shortcut);
    DeclareRight(t, s.(record := rec, keyId := id), op);
  }

  lemma ReadReached(t: Table, s: State, pending: seq<Rec>, mayStart: bool)
    requires Ordered(t) && Reached(t, s, pending, mayStart)
    ensures var n := ReadNext(t, s);
      && (n.status == Ok <==> pending != []) && (pending != [] ==> n.record == pending[0])
      && Reached(t, n, if pending == [] then [] else pending[1..], pending != [])
  {
    hide Ordered, Rows;
    ReadPops(t, s);
    ReadKeeps(t, s);
  }

  /** With and without the shortcut a polite program reads the same records. */
  lemma ShortcutUnseen(t: Table, cmds: seq<Cmd>)
    requires Ordered(t) && Polite(t, [], true, cmds)
    ensures Answers(t, Opened(), cmds, true) == Answers(t, Opened(), cmds, false) == Expected(t, [], cmds)
  {
    AnswersExpected(t, Opened(), [], true, cmds, true);
    AnswersExpected(t, Opened(), [], true, cmds, false);
  }

  // ---- Runs that are not polite ----

  /** Two records, by one key. */
  function Sample(): Table {
    Table(_ => [[5], [7]], (_, r: Rec) => if |r| == 1 then r else [0],
          (_, k: Key) => if |k| == 1 then k[0] else 0, _ => 1)
  }

  lemma SampleRows()
    ensures Ordered(Sample())
    ensures var t := Sample();
      && Rows(t, 0, W.Ge, 5) == [[5], [7]] && Rows(t, 0, W.Gt, 5) == [[7]] && Rows(t, 0, W.Gt, 9) == []
  {
    var t := Sample();
    var five, seven: Rec := [5], [7];
    assert Rank(t, 0, five) == 5 && Rank(t, 0, seven) == 7;
    FilterAll(t, 0, [seven], W.Ge, 5);
    FilterAll(t, 0, [seven], W.Gt, 5);
    assert [five, seven][1..] == [seven] && [seven][1..] == [];
    assert Filter(t, 0, [], W.Gt, 9) == [];
    assert Filter(t, 0, [seven], W.Gt, 9) == [];
  }

  lemma AnswersStart(t: Table, s: State, op: Op, rec: Rec, rest: seq<Cmd>, shortcut: bool)
    ensures Answers(t, s, [DoStart(op, 0, rec)] + rest, shortcut)
         == Answers(t, Start(t, s, op, 0, rec, shortcut), rest, shortcut)
  {
    assert ([DoStart(op, 0, rec)] + rest)[1..] == rest;
  }

  lemma AnswersNext(t: Table, s: State, rest: seq<Cmd>, shortcut: bool)
    ensures var n := ReadNext(t, s);
      Answers(t, s, [DoNext] + rest, shortcut)
      == [if n.status == Ok then Record(n.record) else AtEnd] + Answers(t, n, rest, shortcut)
  {
    assert ([DoNext] + rest)[1..] == rest;
  }

  /** START >= 5 and the record read. */
  lemma FiveRead(shortcut: bool, rest: seq<Cmd>)
    ensures var n := State(true, 0, [5], [5], [[7]], false, false, [5], 0, Ok, Bound(W.Gt, 5), true);
      Answers(Sample(), Opened(), [DoStart(W.Ge, 0, [5])] + ([DoNext] + rest), shortcut)
      == [Record([5])] + Answers(Sample(), n, rest, shortcut)
  {
    hide Answers, Rows, Filter;
    SampleRows();
    var t, five: Rec := Sample(), [5];
    var s1 := Start(t, Opened(), W.Ge, 0, five, shortcut);
    assert s1.cursor == [[7]];
    AnswersStart(t, Opened(), W.Ge, five, [DoNext] + rest, shortcut);
    AnswersNext(t, s1, rest, shortcut);
  }

  /** START >= 5, READ NEXT, START >= 5, START > 5, READ NEXT returns 5 again instead of
      what follows it. */
  lemma RepeatedStartDiffers()
    ensures var t := Sample();
      var cmds := [DoStart(W.Ge, 0, [5])]
                  + ([DoNext] + ([DoStart(W.Ge, 0, [5])] + ([DoStart(W.Gt, 0, [5])] + ([DoNext] + []))));
      && Ordered(t)
      && Answers(t, Opened(), cmds, true) == [Record([5]), Record([5])]
      && Answers(t, Opened(), cmds, false) == [Record([5]), Record([7])]
  {
    hide Answers, Rows, Filter;
    SampleRows();
    var t, five: Rec := Sample(), [5];
    var s := State(true, 0, [5], [5], [[7]], false, false, [5], 0, Ok, Bound(W.Gt, 5), true);
    forall short: bool ensures Answers(t, Opened(), [DoStart(W.Ge, 0, [5])]
      + ([DoNext] + ([DoStart(W.Ge, 0, [5])] + ([DoStart(W.Gt, 0, [5])] + ([DoNext] + [])))), short)
      == [Record([5]), Record(if short then [5] else [7])]
    {
      FiveRead(short, [DoStart(W.Ge, 0, [5])] + ([DoStart(W.Gt, 0, [5])] + ([DoNext] + [])));
      AnswersStart(t, s, W.Ge, five, [DoStart(W.Gt, 0, [5])] + ([DoNext] + []), short);
      var s3 := Start(t, s, W.Ge, 0, five, short);
      AnswersStart(t, s3, W.Gt, five, [DoNext] + [], short);
      AnswersNext(t, Start(t, s3, W.Gt, 0, five, short), [], short);
      NoAnswers(t, ReadNext(t, Start(t, s3, W.Gt, 0, five, short)), short);
    }
  }

  lemma NoAnswers(t: Table, s: State, shortcut: bool)
    ensures Answers(t, s, [], shortcut) == []
  {
  }

  /** On the last key, START > answers "00" where a new cursor answers "23". */
  lemma LastKeyStatus()
    ensures var t := Sample();
      var s := State(true, 0, [7], [7], [], false, false, [7], 0, Ok, Bound(W.Gt, 7), true);
      Inv(t, s) && Start(t, s, W.Gt, 0, [7], true).status == Ok && Start(t, s, W.Gt, 0, [7], false).status == NotFound
  {
    hide Rows, Filter;
    var t, seven: Rec := Sample(), [7];
    var s := State(true, 0, [7], [7], [], false, false, [7], 0, Ok, Bound(W.Gt, 7), true);
    SampleRows();
    NothingAboveSeven();
    assert Rank(t, 0, seven) == 7;
    StartStatus(t, s, W.Gt, 0, seven, true);
    StartStatus(t, s, W.Gt, 0, seven, false);
  }

  lemma NothingAboveSeven()
    ensures Rows(Sample(), 0, W.Gt, 7) == []
  {
    var t := Sample();
    var five, seven: Rec := [5], [7];
    assert Rank(t, 0, five) == 5 && Rank(t, 0, seven) == 7;
    assert [five, seven][1..] == [seven] && [seven][1..] == [];
    assert Filter(t, 0, [], W.Gt, 7) == [];
    assert Filter(t, 0, [seven], W.Gt, 7) == [];
  }

  /** START >= 5, READ NEXT, START > 9 finds nothing; then START >= 5 matches the key left
      over, and the reads give 5 and the end instead of 5 and 7. No record was waiting. */
  lemma StaleKeyDiffers()
    ensures var t := Sample();
      var cmds := [DoStart(W.Ge, 0, [5])]
                  + ([DoNext] + ([DoStart(W.Gt, 0, [9])] + ([DoStart(W.Ge, 0, [5])] + ([DoNext] + ([DoNext] + [])))));
      && Ordered(t)
      && Answers(t, Opened(), cmds, true) == [Record([5]), Record([5]), AtEnd]
      && Answers(t, Opened(), cmds, false) == [Record([5]), Record([5]), Record([7])]
  {
    hide Answers, Rows, Filter;
    SampleRows();
    var t, five: Rec, nine: Rec := Sample(), [5], [9];
    var s := State(true, 0, [5], [5], [[7]], false, false, [5], 0, Ok, Bound(W.Gt, 5), true);
    forall short: bool ensures Answers(t, Opened(), [DoStart(W.Ge, 0, [5])]
      + ([DoNext] + ([DoStart(W.Gt, 0, [9])] + ([DoStart(W.Ge, 0, [5])] + ([DoNext] + ([DoNext] + []))))), short)
      == [Record([5]), Record([5]), if short then AtEnd else Record([7])]
    {
      FiveRead(short, [DoStart(W.Gt, 0, [9])] + ([DoStart(W.Ge, 0, [5])] + ([DoNext] + ([DoNext] + []))));
      AnswersStart(t, s, W.Gt, nine, [DoStart(W.Ge, 0, [5])] + ([DoNext] + ([DoNext] + [])), short);
      var s3 := Start(t, s, W.Gt, 0, nine, short);
      assert Rank(t, 0, nine) == 9 && s3.cursor == [];
      AnswersStart(t, s3, W.Ge, five, [DoNext] + ([DoNext] + []), short);
      var s4 := Start(t, s3, W.Ge, 0, five, short);
      AnswersNext(t, s4, [DoNext] + [], short);
      AnswersNext(t, ReadNext(t, s4), [], short);
      NoAnswers(t, ReadNext(t, ReadNext(t, s4)), short);
    }
  }
}
