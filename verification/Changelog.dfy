/** The changelog: a trigger logs every change of a table, and a follower replays the
    pending entries, in id order, on the ISAM file (changelog/sync_execute.c). A pass runs
    in one database transaction, so a crash forgets which entries were replayed but not
    what they did to the file. */
module Changelog {
  import opened Bytes
  import opened Zoned

  type Text = seq<byte>
  type Store = map<Text, Text>

  datatype Option<T> = None | Some(value: T)

  datatype Change = Insert(key: Text, value: Text) | Update(key: Text, value: Text) | Remove(key: Text)

  // ---- The table ----

  predicate Legal(t: Store, c: Change) {
    c.Insert? <==> c.key !in t
  }

  function Changed(t: Store, c: Change): Store {
    if c.Remove? then t - {c.key} else t[c.key := c.value]
  }

  /** Every entry was a legal change when it was made. */
  ghost predicate Valid(t: Store, log: seq<Change>)
    decreases log
  {
    log == [] || (Legal(t, log[0]) && Valid(Changed(t, log[0]), log[1..]))
  }

  ghost function TableAfter(t: Store, log: seq<Change>): Store
    decreases log
  {
    if log == [] then t else TableAfter(Changed(t, log[0]), log[1..])
  }

  // ---- The file ----

  /** WRITE fails on a present key, REWRITE and DELETE on an absent one; then nothing changes. */
  predicate Applies(isam: Store, c: Change) {
    if c.Insert? then c.key !in isam else c.key in isam
  }

  function Applied(isam: Store, c: Change): Store {
    match c
    case Insert(k, v) => if k in isam then isam else isam[k := v]
    case Update(k, v) => if k in isam then isam[k := v] else isam
    case Remove(k) => if k in isam then isam - {k} else isam
  }

  /** What does not apply has no effect, and what applies does to the file what the change
      did to the table. */
  lemma FailsWithoutEffect(isam: Store, c: Change)
    ensures Applies(isam, c) <==> (c.Insert? && c.key !in isam) || (!c.Insert? && c.key in isam)
    ensures !Applies(isam, c) ==> Applied(isam, c) == isam
    ensures Applies(isam, c) && c.Remove? ==> Applied(isam, c) == isam - {c.key}
    ensures Applies(isam, c) && !c.Remove? ==> Applied(isam, c) == isam[c.key := c.value]
  {
  }

  ghost function Replay(isam: Store, log: seq<Change>): Store
    decreases log
  {
    if log == [] then isam else Replay(Applied(isam, log[0]), log[1..])
  }

  lemma {:induction false} ReplayAppend(isam: Store, log: seq<Change>, c: Change)
    ensures Replay(isam, log + [c]) == Applied(Replay(isam, log), c)
    decreases log
  {
    if log == [] { assert log + [c] == [c]; } else {
      ReplayAppend(Applied(isam, log[0]), log[1..], c);
      assert (log + [c])[1..] == log[1..] + [c];
    }
  }

  // ---- Partly applied files ----

  function Look(m: Store, k: Text): Option<Text> {
    if k in m then Some(m[k]) else None
  }

  /** v is what the table held under k at some moment of the log. */
  ghost predicate Once(t: Store, log: seq<Change>, k: Text, v: Option<Text>)
    decreases log
  {
    v == Look(t, k) || (log != [] && Once(Changed(t, log[0]), log[1..], k, v))
  }

  /** Each key of the file is at some moment of the log, not necessarily the same one. */
  ghost predicate PartlyApplied(t: Store, log: seq<Change>, isam: Store) {
    forall k :: Once(t, log, k, Look(isam, k))
  }

  /** One replayed entry, failing or not, moves every key past that entry. */
  lemma StepCatchesUp(t: Store, log: seq<Change>, isam: Store)
    requires log != [] && Valid(t, log) && PartlyApplied(t, log, isam)
    ensures PartlyApplied(Changed(t, log[0]), log[1..], Applied(isam, log[0]))
  {
    var c := log[0];
    forall k ensures Once(Changed(t, c), log[1..], k, Look(Applied(isam, c), k)) {
      assert Once(t, log, k, Look(isam, k));
    }
  }

  lemma {:induction false} ReplayCatchesUp(t: Store, log: seq<Change>, isam: Store, m: nat)
    requires m <= |log| && Valid(t, log) && PartlyApplied(t, log, isam)
    ensures Valid(TableAfter(t, log[..m]), log[m..])
    ensures TableAfter(TableAfter(t, log[..m]), log[m..]) == TableAfter(t, log)
    ensures PartlyApplied(TableAfter(t, log[..m]), log[m..], Replay(isam, log[..m]))
    decreases log
  {
    if m == 0 { assert log[..m] == [] && log[m..] == log; } else {
      StepCatchesUp(t, log, isam);
      ReplayCatchesUp(Changed(t, log[0]), log[1..], Applied(isam, log[0]), m - 1);
      assert log[..m][1..] == log[1..][..m - 1] && log[m..] == log[1..][m - 1..];
    }
  }

  /** Replaying the whole log from any partly applied file gives the table. */
  lemma Converges(t: Store, log: seq<Change>, isam: Store)
    requires Valid(t, log) && PartlyApplied(t, log, isam)
    ensures Replay(isam, log) == TableAfter(t, log)
  {
    var m := |log|;
    ReplayCatchesUp(t, log, isam, m);
    assert log[..m] == log && log[m..] == [];
    SameEverywhere(Replay(isam, log), TableAfter(t, log));
  }

  lemma SameEverywhere(a: Store, b: Store)
    requires forall k :: Look(a, k) == Look(b, k)
    ensures a == b
  {
    forall k ensures (k in a <==> k in b) && (k in a ==> a[k] == b[k]) {
      assert Look(a, k) == Look(b, k);
    }
  }

  lemma {:induction false} EarlierMoment(t: Store, log: seq<Change>, m: nat, k: Text, v: Option<Text>)
    requires m <= |log| && Once(TableAfter(t, log[..m]), log[m..], k, v)
    ensures Once(t, log, k, v)
    decreases log
  {
    if m == 0 { assert log[..m] == [] && log[m..] == log; } else {
      assert log[..m][1..] == log[1..][..m - 1] && log[m..] == log[1..][m - 1..];
      EarlierMoment(Changed(t, log[0]), log[1..], m - 1, k, v);
    }
  }

  lemma {:induction false} LaterEntry(t: Store, log: seq<Change>, c: Change, k: Text, v: Option<Text>)
    requires Once(t, log, k, v)
    ensures Once(t, log + [c], k, v)
    decreases log
  {
    if v != Look(t, k) {
      LaterEntry(Changed(t, log[0]), log[1..], c, k, v);
      assert (log + [c])[1..] == log[1..] + [c];
    }
  }

  lemma {:induction false} ValidAppend(t: Store, log: seq<Change>, c: Change)
    requires Valid(t, log) && Legal(TableAfter(t, log), c)
    ensures Valid(t, log + [c]) && TableAfter(t, log + [c]) == Changed(TableAfter(t, log), c)
    decreases log
  {
    if log == [] { assert log + [c] == [c]; } else {
      ValidAppend(Changed(t, log[0]), log[1..], c);
      assert (log + [c])[1..] == log[1..] + [c];
    }
  }

  // ---- Whole runs ----

  /** `base` is the table as of the last entry no longer pending. */
  datatype State = State(base: Store, table: Store, pending: seq<Change>, isam: Store)

  /** A change of the table; a pass that dies after `done` entries; a pass that commits
      after the `seen` entries its cursor saw. */
  datatype Event = Change(c: Change) | Crash(done: nat) | Commit(seen: nat)

  ghost predicate Possible(s: State, e: Event) {
    match e
    case Change(c) => Legal(s.table, c)
    case Crash(m) => m <= |s.pending|
    case Commit(n) => n <= |s.pending|
  }

  ghost function Next(s: State, e: Event): State
    requires Possible(s, e)
  {
    match e
    case Change(c) => s.(table := Changed(s.table, c), pending := s.pending + [c])
    case Crash(m) => s.(isam := Replay(s.isam, s.pending[..m]))
    case Commit(n) => s.(isam := Replay(s.isam, s.pending[..n]), pending := s.pending[n..],
                         base := TableAfter(s.base, s.pending[..n]))
  }

  ghost predicate Inv(s: State) {
    && Valid(s.base, s.pending) && TableAfter(s.base, s.pending) == s.table
    && PartlyApplied(s.base, s.pending, s.isam)
  }

  lemma InvKept(s: State, e: Event)
    requires Inv(s) && Possible(s, e)
    ensures Inv(Next(s, e))
  {
    hide Once, Valid, TableAfter, Replay;
    match e
    case Change(c) =>
      ValidAppend(s.base, s.pending, c);
      forall k ensures Once(s.base, s.pending + [c], k, Look(s.isam, k)) {
        LaterEntry(s.base, s.pending, c, k, Look(s.isam, k));
      }
    case Crash(m) =>
      ReplayCatchesUp(s.base, s.pending, s.isam, m);
      var isam := Replay(s.isam, s.pending[..m]);
      forall k ensures Once(s.base, s.pending, k, Look(isam, k)) {
        EarlierMoment(s.base, s.pending, m, k, Look(isam, k));
      }
    case Commit(n) =>
      ReplayCatchesUp(s.base, s.pending, s.isam, n);
  }

  ghost predicate PossibleRun(s: State, events: seq<Event>)
    decreases events
  {
    events == [] || (Possible(s, events[0]) && PossibleRun(Next(s, events[0]), events[1..]))
  }

  ghost function Run(s: State, events: seq<Event>): State
    requires PossibleRun(s, events)
    decreases events
  {
    if events == [] then s else Run(Next(s, events[0]), events[1..])
  }

  lemma {:induction false} InvAlong(s: State, events: seq<Event>)
    requires Inv(s) && PossibleRun(s, events)
    ensures Inv(Run(s, events))
    decreases events
  {
    if events != [] {
      InvKept(s, events[0]);
      InvAlong(Next(s, events[0]), events[1..]);
    }
  }

  /** However the run went, with any number of crashes, one pass over what is pending then
      makes the file equal to the table. */
  lemma CaughtUp(t: Store, events: seq<Event>)
    requires PossibleRun(State(t, t, [], t), events)
    ensures var s := Run(State(t, t, [], t), events);
            Replay(s.isam, s.pending) == s.table
  {
    var s0 := State(t, t, [], t);
    assert Inv(s0);
    InvAlong(s0, events);
    var s := Run(s0, events);
    Converges(s.base, s.pending, s.isam);
  }

  /** Without crashes no entry is ever marked as an error. */
  lemma {:induction false} NoErrors(t: Store, log: seq<Change>, i: nat)
    requires Valid(t, log) && i < |log|
    ensures Applies(Replay(t, log[..i]), log[i])
    decreases log
  {
    if i > 0 {
      assert Applied(t, log[0]) == Changed(t, log[0]);
      NoErrors(Changed(t, log[0]), log[1..], i - 1);
      assert log[..i][1..] == log[1..][..i - 1];
    }
  }

  // ---- What the trigger logs ----

  const BAR: byte := 124

  type Row = seq<Text>

  datatype RowChange = RowInsert(after: Row) | RowUpdate(before: Row, after: Row) | RowDelete(before: Row)

  datatype Action = ActInsert | ActUpdate | ActDelete

  datatype Entry = Entry(action: Action, oldData: Text, newData: Text)

  /** Column values with a bar between two of them (create_changelog_function.c:22-50). */
  function Joined(row: Row): Text {
    if row == [] then [] else if |row| == 1 then row[0] else row[0] + [BAR] + Joined(row[1..])
  }

  /** The trigger (create_changelog_function.c:72-86). */
  function Logged(c: RowChange): Entry {
    match c
    case RowInsert(n) => Entry(ActInsert, [], Joined(n))
    case RowUpdate(o, n) => Entry(ActUpdate, Joined(o), Joined(n))
    case RowDelete(o) => Entry(ActDelete, Joined(o), [])
  }

  /** The row that the follower works from. */
  function Carried(c: RowChange): Row {
    if c.RowDelete? then c.before else c.after
  }

  ghost predicate NoBar(v: Text) {
    forall i :: 0 <= i < |v| ==> v[i] != BAR
  }

  /** strchr: p is the first bar from `from` on, or the end. */
  ghost predicate IsBar(data: Text, from: nat, p: nat) {
    && from <= p <= |data| && (forall i :: from <= i < p ==> data[i] != BAR)
    && (p < |data| ==> data[p] == BAR)
  }

  method FindBar(data: Text, from: nat) returns (p: nat)
    requires from <= |data|
    ensures IsBar(data, from, p)
  {
    p := from;
    while p < |data| && data[p] != BAR
      invariant from <= p <= |data| && forall i :: from <= i < p ==> data[i] != BAR
    {
      p := p + 1;
    }
  }

  /** Cutting at the first bar takes off the first column. */
  lemma JoinedCut(data: Text, from: nat, p: nat, row: Row)
    requires IsBar(data, from, p)
    requires row != [] && data[from..] == Joined(row) && NoBar(row[0])
    ensures data[from..p] == row[0]
    ensures |row| > 1 ==> p < |data| && data[p + 1..] == Joined(row[1..])
  {
    hide Joined;
    var s := data[from..];
    var n := |row[0]|;
    JoinedFront(row);
    assert forall i :: from <= i < from + n ==> data[i] == s[i - from] == row[0][i - from];
    assert n < |s| ==> data[from + n] == s[n] == BAR;
    assert p == from + n;
    assert s[..n] == data[from..p];
    assert n < |s| ==> s[n + 1..] == data[p + 1..];
  }

  lemma JoinedFront(row: Row)
    requires row != []
    ensures var s, n := Joined(row), |row[0]|;
      && |s| >= n && s[..n] == row[0] && (|row| == 1 <==> |s| == n)
      && (|s| > n ==> s[n] == BAR && s[n + 1..] == Joined(row[1..]))
  {
  }

  /** A row of the table changes; a pass dies after `done` entries; a pass commits after the
      `seen` entries its cursor saw. */
  datatype RowEvent = RowChanged(c: RowChange) | PassDied(done: nat) | PassCommitted(seen: nat)

  /** The table of rows, the changes whose entries are pending, and the file. `base` is the
      table's image as of the last entry no longer pending. */
  datatype RowState = RowState(base: Store, rows: map<Text, Row>, pending: seq<RowChange>, isam: Store)

  /** The text: 124 between two columns, and only there. */
  lemma TextOfRow(a: Text, b: Text)
    ensures Joined([a]) == a && Joined([a, b]) == a + [124] + b
  {
    assert [a, b][1..] == [b];
  }

  ghost predicate Plain(row: Row, n: nat) {
    |row| == n && forall i :: 0 <= i < n ==> NoBar(row[i])
  }

  /** The text gives back the row. */
  lemma {:induction false} JoinedOnce(a: Row, b: Row, n: nat)
    requires Plain(a, n) && Plain(b, n) && Joined(a) == Joined(b)
    ensures a == b
    decreases n
  {
    hide Joined, NoBar;
    if n > 0 {
      var s, x, y := Joined(a), |a[0]|, |b[0]|;
      JoinedFront(a);
      JoinedFront(b);
      FirstBar(a[0], b[0], s, n == 1);
      assert a[0] == s[..x] && b[0] == s[..y];
      if n > 1 { JoinedOnce(a[1..], b[1..], n - 1); }
      assert a == [a[0]] + a[1..] && b == [b[0]] + b[1..];
      if n == 1 { assert a[1..] == b[1..]; }
    }
  }

  lemma FirstBar(u: Text, v: Text, s: Text, last: bool)
    requires NoBar(u) && NoBar(v) && |u| <= |s| && |v| <= |s| && s[..|u|] == u && s[..|v|] == v
    requires if last then |s| == |u| == |v| else |u| < |s| && |v| < |s| && s[|u|] == BAR == s[|v|]
    ensures |u| == |v|
  {
    assert forall i :: 0 <= i < |u| ==> s[i] == u[i];
    assert forall i :: 0 <= i < |v| ==> s[i] == v[i];
  }

  /** And the entry gives back the change, with the row as it was and as it became. */
  lemma LoggedOnce(c: RowChange, e: RowChange, n: nat)
    requires (c.RowInsert? || Plain(c.before, n)) && (c.RowDelete? || Plain(c.after, n))
    requires (e.RowInsert? || Plain(e.before, n)) && (e.RowDelete? || Plain(e.after, n))
    requires Logged(c) == Logged(e)
    ensures c == e
  {
    hide Joined;
    if !c.RowInsert? { JoinedOnce(c.before, e.before, n); }
    if !c.RowDelete? { JoinedOnce(c.after, e.after, n); }
  }

  // ---- The follower ----

  class Follower {
    const cols: seq<Column>
    const keyOf: Text -> Text
    const record: array<byte>
    var isam: Store

    constructor (columns: seq<Column>, key: Text -> Text, reclen: nat, file: Store)
      requires Width(columns) <= reclen && forall i :: 0 <= i < |columns| ==> columns[i].len >= 1
      ensures Ready() && fresh(record) && record.Length == reclen
      ensures cols == columns && keyOf == key && isam == file
    {
      cols, keyOf, isam := columns, key, file;
      record := new byte[reclen];
    }

    ghost predicate Ready() {
      Width(cols) <= record.Length && forall i :: 0 <= i < |cols| ==> cols[i].len >= 1
    }

    ghost predicate RowOk(row: Row) {
      |row| == |cols| && forall i :: 0 <= i < |row| ==> Fits(cols[i], row[i]) && NoBar(row[i])
    }

    /** The record a row stands for. */
    ghost function Image(row: Row): Text
      requires Ready() && RowOk(row)
    {
      Patched(Repeat(0, record.Length), 0, Shares(cols, row))
    }

    /** The columns one after the other, and NULs behind them. */
    lemma ImageForm(row: Row)
      requires Ready() && RowOk(row)
      ensures |Image(row)| == record.Length && Image(row)[..Width(cols)] == Shares(cols, row)
      ensures forall i :: Width(cols) <= i < record.Length ==> Image(row)[i] == 0
    {
    }

    ghost function Key(row: Row): Text
      requires Ready() && RowOk(row)
    {
      keyOf(Image(row))
    }

    ghost predicate ChangeOk(c: RowChange) {
      && Ready()
      && (!c.RowInsert? ==> RowOk(c.before)) && (!c.RowDelete? ==> RowOk(c.after))
    }

    ghost function Meaning(c: RowChange): Change
      requires ChangeOk(c)
    {
      match c
      case RowInsert(n) => Insert(Key(n), Image(n))
      case RowUpdate(_, n) => Update(Key(n), Image(n))
      case RowDelete(o) => Remove(Key(o))
    }

    ghost function Meanings(changes: seq<RowChange>): (ms: seq<Change>)
      requires forall i :: 0 <= i < |changes| ==> ChangeOk(changes[i])
      ensures |ms| == |changes|
    {
      seq(|changes|, i requires 0 <= i < |changes| => Meaning(changes[i]))
    }

    // The table itself holds rows under their keys.

    ghost predicate Rows(t: map<Text, Row>) {
      Ready() && forall k :: k in t ==> RowOk(t[k]) && Key(t[k]) == k
    }

    ghost function Images(t: map<Text, Row>): Store
      requires Rows(t)
    {
      map k | k in t :: Image(t[k])
    }

    /** The row exists, and an update leaves its key alone. */
    ghost predicate RowLegal(t: map<Text, Row>, c: RowChange)
      requires Rows(t) && ChangeOk(c)
    {
      match c
      case RowInsert(n) => Key(n) !in t
      case RowUpdate(o, n) => Key(o) in t && t[Key(o)] == o && Key(n) == Key(o)
      case RowDelete(o) => Key(o) in t && t[Key(o)] == o
    }

    ghost function RowAfter(t: map<Text, Row>, c: RowChange): map<Text, Row>
      requires Rows(t) && ChangeOk(c)
    {
      match c
      case RowInsert(n) => t[Key(n) := n]
      case RowUpdate(o, n) => (t - {Key(o)})[Key(n) := n]
      case RowDelete(o) => t - {Key(o)}
    }

    /** A row change of the table is the change of its image that the entry describes. */
    lemma MeaningIsRight(t: map<Text, Row>, c: RowChange)
      requires Rows(t) && ChangeOk(c) && RowLegal(t, c)
      ensures Rows(RowAfter(t, c)) && Legal(Images(t), Meaning(c))
      ensures Images(RowAfter(t, c)) == Changed(Images(t), Meaning(c))
    {
      hide Image, RowOk;
    }

    /** Each change is legal when it is made. */
    ghost predicate RowsLegal(t: map<Text, Row>, changes: seq<RowChange>)
      decreases |changes|
    {
      && Rows(t)
      && (changes == [] ||
          (&& ChangeOk(changes[0]) && RowLegal(t, changes[0])
           && RowsLegal(RowAfter(t, changes[0]), changes[1..])))
    }

    ghost function RowsAfter(t: map<Text, Row>, changes: seq<RowChange>): (u: map<Text, Row>)
      requires RowsLegal(t, changes)
      ensures Rows(u)
      decreases |changes|
    {
      if changes == [] then t else RowsAfter(RowAfter(t, changes[0]), changes[1..])
    }

    lemma {:induction false} RowsLegalOk(t: map<Text, Row>, changes: seq<RowChange>)
      requires RowsLegal(t, changes)
      ensures forall i :: 0 <= i < |changes| ==> ChangeOk(changes[i])
      decreases |changes|
    {
      if changes != [] {
        RowsLegalOk(RowAfter(t, changes[0]), changes[1..]);
        forall i | 0 < i < |changes| ensures ChangeOk(changes[i]) {
          assert changes[i] == changes[1..][i - 1];
        }
      }
    }

    /** The log of any legal history of the table is a valid log of its image, and leads to
        the image of the table as it then is. */
    lemma {:induction false} MeaningsAreRight(t: map<Text, Row>, changes: seq<RowChange>)
      requires RowsLegal(t, changes) && forall i :: 0 <= i < |changes| ==> ChangeOk(changes[i])
      ensures Valid(Images(t), Meanings(changes))
      ensures TableAfter(Images(t), Meanings(changes)) == Images(RowsAfter(t, changes))
      decreases |changes|
    {
      hide Images, Meaning, RowAfter, RowLegal, Rows, ChangeOk;
      if changes != [] {
        var rest := changes[1..];
        forall i | 0 <= i < |rest| ensures ChangeOk(rest[i]) { assert rest[i] == changes[i + 1]; }
        MeaningIsRight(t, changes[0]);
        MeaningsAreRight(RowAfter(t, changes[0]), rest);
        assert Meanings(changes)[1..] == Meanings(rest);
      }
    }

    // Whole runs of row changes and passes.

    ghost predicate RowPossible(s: RowState, e: RowEvent) {
      && Rows(s.rows) && (forall i :: 0 <= i < |s.pending| ==> ChangeOk(s.pending[i]))
      && match e
         case RowChanged(c) => ChangeOk(c) && RowLegal(s.rows, c)
         case PassDied(m) => m <= |s.pending|
         case PassCommitted(n) => n <= |s.pending|
    }

    ghost function RowNext(s: RowState, e: RowEvent): RowState
      requires RowPossible(s, e)
    {
      match e
      case RowChanged(c) => s.(rows := RowAfter(s.rows, c), pending := s.pending + [c])
      case PassDied(m) => s.(isam := Replay(s.isam, Meanings(s.pending[..m])))
      case PassCommitted(n) => s.(isam := Replay(s.isam, Meanings(s.pending[..n])), pending := s.pending[n..],
                                  base := TableAfter(s.base, Meanings(s.pending[..n])))
    }

    /** The same run seen through the images of the rows. */
    ghost function Seen(s: RowState): State
      requires Rows(s.rows) && forall i :: 0 <= i < |s.pending| ==> ChangeOk(s.pending[i])
    {
      State(s.base, Images(s.rows), Meanings(s.pending), s.isam)
    }

    ghost function SeenEvent(e: RowEvent): Event
      requires e.RowChanged? ==> ChangeOk(e.c)
    {
      match e
      case RowChanged(c) => Change(Meaning(c))
      case PassDied(m) => Crash(m)
      case PassCommitted(n) => Commit(n)
    }

    lemma RowStepSeen(s: RowState, e: RowEvent)
      requires RowPossible(s, e)
      ensures var t := RowNext(s, e);
        && Rows(t.rows) && (forall i :: 0 <= i < |t.pending| ==> ChangeOk(t.pending[i]))
        && Possible(Seen(s), SeenEvent(e)) && Seen(t) == Next(Seen(s), SeenEvent(e))
    {
      hide Images, Meaning, Rows, ChangeOk, RowLegal, RowAfter, Replay, TableAfter, Legal, Changed;
      match e
      case RowChanged(c) =>
        MeaningIsRight(s.rows, c);
        assert Meanings(s.pending + [c]) == Meanings(s.pending) + [Meaning(c)];
      case PassDied(m) =>
        assert Meanings(s.pending[..m]) == Meanings(s.pending)[..m];
      case PassCommitted(n) =>
        assert Meanings(s.pending[..n]) == Meanings(s.pending)[..n];
        assert Meanings(s.pending[n..]) == Meanings(s.pending)[n..];
    }

    ghost predicate RowRunPossible(s: RowState, events: seq<RowEvent>)
      decreases |events|
    {
      && Rows(s.rows) && (forall i :: 0 <= i < |s.pending| ==> ChangeOk(s.pending[i]))
      && (events == [] || (RowPossible(s, events[0]) && RowRunPossible(RowNext(s, events[0]), events[1..])))
    }

    ghost function RowRun(s: RowState, events: seq<RowEvent>): (t: RowState)
      requires RowRunPossible(s, events)
      ensures Rows(t.rows) && forall i :: 0 <= i < |t.pending| ==> ChangeOk(t.pending[i])
      decreases |events|
    {
      if events == [] then s else RowRun(RowNext(s, events[0]), events[1..])
    }

    lemma {:induction false} RowInvAlong(s: RowState, events: seq<RowEvent>)
      requires RowRunPossible(s, events) && Inv(Seen(s))
      ensures Inv(Seen(RowRun(s, events)))
      decreases |events|
    {
      hide Inv, Seen, RowNext;
      if events != [] {
        RowStepSeen(s, events[0]);
        InvKept(Seen(s), SeenEvent(events[0]));
        RowInvAlong(RowNext(s, events[0]), events[1..]);
      }
    }

    /** The table and the file at the start: equal, with nothing pending. */
    ghost function InStep(t: map<Text, Row>): RowState
      requires Rows(t)
    {
      RowState(Images(t), t, [], Images(t))
    }

    /** After any run of row changes, crashed passes and committed passes, replaying what is
        pending gives the image of the table. */
    lemma RowsCaughtUp(t: map<Text, Row>, events: seq<RowEvent>)
      requires Rows(t) && RowRunPossible(InStep(t), events)
      ensures var s := RowRun(InStep(t), events);
        Replay(s.isam, Meanings(s.pending)) == Images(s.rows)
    {
      hide Images, RowRunPossible, RowRun;
      var s := RowRun(InStep(t), events);
      assert Meanings([]) == [];
      assert Inv(Seen(InStep(t)));
      RowInvAlong(InStep(t), events);
      Converges(s.base, Meanings(s.pending), s.isam);
    }

    /** Rebuild the record from the entry's text (sync_execute.c:77-142). */
    method Fill(data: Text, ghost row: Row)
      requires Ready() && RowOk(row) && data == Joined(row)
      modifies record
      ensures record[..] == Image(row)
    {
      hide Patched, Shares, Share, Fits, Joined;
      Memset(record, 0, 0, record.Length);
      ghost var clear := Repeat(0, record.Length);
      PatchAll(record.Length, old(record[..]), clear);
      var p1, offset := 0, 0;
      for c := 0 to |cols|
        invariant offset == Width(cols[..c]) && offset + Width(cols[c..]) == Width(cols)
        invariant c < |cols| ==> p1 <= |data| && data[p1..] == Joined(row[c..])
        invariant record[..] == Patched(clear, 0, Shares(cols[..c], row[..c]))
      {
        var p2 := FindBar(data, p1);
        var aux := data[p1..p2];
        JoinedCut(data, p1, p2, row[c..]);
        if p2 < |data| { p1 := p2 + 1; }
        ghost var done := Shares(cols[..c], row[..c]);
        assert cols[c..][1..] == cols[c + 1..] && row[c..][1..] == row[c + 1..];
        PutField(record, offset, aux, cols[c]);
        PatchOn(clear, 0, done, Share(cols[c], row[c]));
        SharesAppend(cols[..c], row[..c], cols[c], row[c]);
        WidthAppend(cols[..c], cols[c]);
        assert cols[..c + 1] == cols[..c] + [cols[c]] && row[..c + 1] == row[..c] + [row[c]];
        offset := offset + cols[c].len;
      }
      assert cols[..|cols|] == cols && row[..|cols|] == row;
    }

    lemma PatchAll(n: nat, was: Text, clear: Text)
      requires |was| == n == |clear|
      ensures Patched(was, 0, clear) == clear && Patched(clear, 0, []) == clear && Shares([], []) == []
    {
    }

    /** EXTFH on the record: it takes effect, or fails and changes nothing. */
    method Extfh(action: Action) returns (ok: bool)
      modifies this
      ensures var k := keyOf(record[..]);
        var c := match action
          case ActInsert => Insert(k, record[..])
          case ActUpdate => Update(k, record[..])
          case ActDelete => Remove(k);
        ok == Applies(old(isam), c) && isam == Applied(old(isam), c)
    {
      var k := keyOf(record[..]);
      match action
      case ActInsert =>
        ok := k !in isam;
        if ok { isam := isam[k := record[..]]; }
      case ActUpdate =>
        ok := k in isam;
        if ok { isam := isam[k := record[..]]; }
      case ActDelete =>
        ok := k in isam;
        isam := isam - {k};
    }

    /** One pass over the pending entries, or the part of it before a crash
        (sync_execute.c:42-172): entry i becomes SUCCESS exactly when it applied, and from a
        partly applied file the pass ends with the image of the table. */
    method Execute(entries: seq<Entry>, ghost changes: seq<RowChange>) returns (success: seq<bool>)
      requires |entries| == |changes|
      requires forall i :: 0 <= i < |changes| ==> ChangeOk(changes[i]) && entries[i] == Logged(changes[i])
      modifies this, record
      ensures isam == Replay(old(isam), Meanings(changes))
      ensures |success| == |changes|
      ensures forall i :: 0 <= i < |changes| ==>
        success[i] == Applies(Replay(old(isam), Meanings(changes)[..i]), Meanings(changes)[i])
      ensures forall t :: RowsLegal(t, changes) && PartlyApplied(Images(t), Meanings(changes), old(isam))
                ==> isam == Images(RowsAfter(t, changes))
    {
      success := ReplayEntries(entries, changes);
      forall t | RowsLegal(t, changes) && PartlyApplied(Images(t), Meanings(changes), old(isam))
        ensures isam == Images(RowsAfter(t, changes))
      {
        MeaningsAreRight(t, changes);
        Converges(Images(t), Meanings(changes), old(isam));
      }
    }

    /** So a pass after any such run, over the entries the trigger logged, leaves the file
        equal to the image of the table. */
    method Follow(entries: seq<Entry>, ghost t: map<Text, Row>, ghost events: seq<RowEvent>)
      requires Rows(t) && RowRunPossible(InStep(t), events)
      requires isam == RowRun(InStep(t), events).isam
      requires |entries| == |RowRun(InStep(t), events).pending|
      requires forall i :: 0 <= i < |entries| ==> entries[i] == Logged(RowRun(InStep(t), events).pending[i])
      modifies this, record
      ensures isam == Images(RowRun(InStep(t), events).rows)
    {
      RowsCaughtUp(t, events);
      var success := ReplayEntries(entries, RowRun(InStep(t), events).pending);
    }

    method ReplayEntries(entries: seq<Entry>, ghost changes: seq<RowChange>) returns (success: seq<bool>)
      requires |entries| == |changes|
      requires forall i :: 0 <= i < |changes| ==> ChangeOk(changes[i]) && entries[i] == Logged(changes[i])
      modifies this, record
      ensures isam == Replay(old(isam), Meanings(changes))
      ensures |success| == |changes|
      ensures forall i :: 0 <= i < |changes| ==>
        success[i] == Applies(Replay(old(isam), Meanings(changes)[..i]), Meanings(changes)[i])
    {
      hide Image, RowOk, Replay, Joined, Ready;
      success := [];
      ghost var ms := Meanings(changes);
      ReplayNothing(isam);
      for i := 0 to |entries|
        invariant isam == Replay(old(isam), ms[..i])
        invariant |success| == i
        invariant forall j :: 0 <= j < i ==> success[j] == Applies(Replay(old(isam), ms[..j]), ms[j])
      {
        var data := if entries[i].action == ActDelete then entries[i].oldData else entries[i].newData;
        Fill(data, Carried(changes[i]));
        var ok := Extfh(entries[i].action);
        assert ms[..i + 1] == ms[..i] + [ms[i]];
        ReplayAppend(old(isam), ms[..i], ms[i]);
        success := success + [ok];
      }
      assert ms[..|ms|] == ms;
    }

    lemma ReplayNothing(m: Store)
      ensures Replay(m, []) == m
    {
    }
  }
}
