/** Which records SYNC can repair: what op_write sends for a record and pq2cob makes of the
    answer, compared with the record by reccmp. */
module SyncImage {
  import opened Bytes
  import opened Memory
  import opened Zoned
  import C = Compare
  import S = SyncTable

  /** A text parameter is a C string: it ends at the first NUL. */
  ghost function CString(f: seq<byte>): (t: seq<byte>)
    ensures |t| <= |f|
  {
    if f == [] || f[0] == S.NUL then [] else [f[0]] + CString(f[1..])
  }

  lemma {:induction false} CStringIs(f: seq<byte>)
    ensures var n := |CString(f)|;
      && CString(f) == f[..n] && (forall i :: 0 <= i < n ==> f[i] != S.NUL)
      && (n < |f| ==> f[n] == S.NUL)
  {
    if f != [] && f[0] != S.NUL {
      CStringIs(f[1..]);
      var n := |CString(f[1..])|;
      assert f[..n + 1] == [f[0]] + f[1..][..n];
    }
  }

  /** A column whose numbers are digits. */
  ghost predicate Sound(c: Column, f: seq<byte>) {
    |f| == c.len && c.dec < c.len && (c.numeric ==> IsField(f))
  }

  /** What PostgreSQL gives back for field `f`. */
  ghost function Answer(c: Column, f: seq<byte>): (t: seq<byte>)
    requires Sound(c, f)
    ensures Zoned.Fits(c, t)
  {
    if c.numeric then SentFits(f, c.dec); Canonical(NumericValue(Encoded(f, c.dec), c.dec), c.dec) else CString(f)
  }

  ghost predicate Storable(cols: seq<Column>, rec: seq<byte>) {
    && Layout(cols, 0) && Width(cols) <= |rec|
    && forall i :: 0 <= i < |cols| ==> cols[i].offset + cols[i].len <= |rec| && Sound(cols[i], Slice(cols[i], rec))
  }

  ghost function AnswersOf(cols: seq<Column>, rec: seq<byte>): (ts: seq<seq<byte>>)
    requires forall i :: 0 <= i < |cols| ==>
      cols[i].offset + cols[i].len <= |rec| && Sound(cols[i], Slice(cols[i], rec))
    ensures |ts| == |cols| && forall i :: 0 <= i < |cols| ==> Zoned.Fits(cols[i], ts[i])
  {
    seq(|cols|, i requires 0 <= i < |cols| => Answer(cols[i], Slice(cols[i], rec)))
  }

  /** The record as it is read back. */
  ghost function ImageOf(cols: seq<Column>, rec: seq<byte>): (r: seq<byte>)
    requires Storable(cols, rec)
    ensures |r| == |rec|
  {
    Patched(rec, 0, Shares(cols, AnswersOf(cols, rec)))
  }

  lemma {:induction false} LayoutAt(cols: seq<Column>, start: nat, i: nat)
    requires Layout(cols, start) && i < |cols|
    ensures start <= cols[i].offset && cols[i].offset + cols[i].len <= start + Width(cols)
  {
    if i > 0 { LayoutAt(cols[1..], start + cols[0].len, i - 1); }
  }

  lemma SliceOfSecond(x: seq<byte>, y: seq<byte>, a: nat, n: nat)
    requires a + n <= |y|
    ensures (x + y)[|x| + a..|x| + a + n] == y[a..a + n]
  {
  }

  /** Column i's share lies where the column lies. */
  lemma {:induction false} ShareAt(cols: seq<Column>, start: nat, texts: seq<seq<byte>>, i: nat)
    requires Layout(cols, start) && |texts| == |cols| && forall j :: 0 <= j < |cols| ==> Zoned.Fits(cols[j], texts[j])
    requires i < |cols| && start <= cols[i].offset && cols[i].offset + cols[i].len <= start + Width(cols)
    ensures Shares(cols, texts)[cols[i].offset - start..cols[i].offset - start + cols[i].len]
         == Share(cols[i], texts[i])
    decreases i
  {
    hide Zoned.Fits, Share, Shares, Width;
    var c, first, more := cols[0], Share(cols[0], texts[0]), Shares(cols[1..], texts[1..]);
    SharesFirst(c, cols[1..], texts[0], texts[1..]);
    assert cols == [c] + cols[1..] && texts == [texts[0]] + texts[1..];
    if i == 0 {
      assert (first + more)[0..c.len] == first;
    } else {
      LayoutAt(cols[1..], start + c.len, i - 1);
      ShareAt(cols[1..], start + c.len, texts[1..], i - 1);
      SliceOfSecond(first, more, cols[i].offset - start - c.len, cols[i].len);
    }
  }

  lemma PatchSlice(rec: seq<byte>, part: seq<byte>, a: nat, b: nat)
    requires |part| <= |rec| && a <= b <= |part|
    ensures Patched(rec, 0, part)[a..b] == part[a..b]
  {
  }

  lemma ImageSlice(cols: seq<Column>, rec: seq<byte>, i: nat)
    requires Storable(cols, rec) && i < |cols|
    ensures Slice(cols[i], ImageOf(cols, rec)) == Share(cols[i], Answer(cols[i], Slice(cols[i], rec)))
  {
    hide Share, Shares, Sound, Patched, Layout, Answer;
    var texts := AnswersOf(cols, rec);
    assert texts[i] == Answer(cols[i], Slice(cols[i], rec));
    var shares, c := Shares(cols, texts), cols[i];
    LayoutAt(cols, 0, i);
    ShareAt(cols, 0, texts, i);
    PatchSlice(rec, shares, c.offset, c.offset + c.len);
  }

  // ---- When a column compares equal afterwards ----

  /** A number that keeps its digits and its bytes; a text with nothing but NULs and blanks
      behind its first NUL. */
  ghost predicate ColumnSurvives(c: Column, f: seq<byte>)
    requires Sound(c, f)
  {
    if c.numeric then Survives(f)
    else forall i :: |CString(f)| <= i < |f| ==> f[i] == S.NUL || f[i] == SPACE
  }

  lemma NumberSame(f: seq<byte>, dec: nat)
    requires IsField(f) && dec < |f|
    ensures S.SameField(false, Returned(f, dec), f) <==> Survives(f)
  {
    hide Returned, Survives;
    ReturnedSame(f, dec);
    var r := Returned(f, dec);
    assert forall i :: 0 <= i < |f| ==> S.Normal(false, f[i]) == f[i];
    if forall i :: 0 <= i < |f| ==> S.Normal(false, f[i]) == r[i] {
      assert r == f;
    }
  }

  lemma TextSame(f: seq<byte>)
    ensures S.SameField(true, CString(f) + Repeat(SPACE, |f| - |CString(f)|), f)
       <==> forall i :: |CString(f)| <= i < |f| ==> f[i] == S.NUL || f[i] == SPACE
  {
    hide CString;
    CStringIs(f);
    var n := |CString(f)|;
    var t := CString(f) + Repeat(SPACE, |f| - n);
    assert forall i :: 0 <= i < n ==> t[i] == f[i];
    assert forall i :: n <= i < |f| ==> t[i] == SPACE;
  }

  lemma ColumnSame(c: Column, f: seq<byte>)
    requires Sound(c, f)
    ensures S.SameField(!c.numeric, Share(c, Answer(c, f)), f) <==> ColumnSurvives(c, f)
  {
    hide S.SameField, Survives, IsField, Canonical, NumericValue, Encoded, Decoded;
    if c.numeric {
      NumberSame(f, c.dec);
    } else {
      TextSame(f);
    }
  }

  /** Storing a record and reading it back gives a record that reccmp calls equal, exactly
      when every column survives. */
  lemma ImageSame(cols: seq<Column>, rec: seq<byte>)
    requires Storable(cols, rec)
    ensures S.Inside(cols, |rec|)
    ensures S.SameRecord(cols, ImageOf(cols, rec), rec)
       <==> forall i :: 0 <= i < |cols| ==> ColumnSurvives(cols[i], Slice(cols[i], rec))
  {
    hide ImageOf, S.SameField, ColumnSurvives, Share, Answer, Sound;
    forall i | 0 <= i < |cols|
      ensures S.SameField(!cols[i].numeric, Slice(cols[i], ImageOf(cols, rec)), Slice(cols[i], rec))
         <==> ColumnSurvives(cols[i], Slice(cols[i], rec))
    {
      ImageSlice(cols, rec, i);
      ColumnSame(cols[i], Slice(cols[i], rec));
    }
  }

  // ---- When a key is kept ----

  /** The key of a record: the bytes of its key columns, one after the other. */
  ghost function KeyBytes(keys: seq<Column>, rec: seq<byte>): (k: seq<byte>)
    requires forall j :: 0 <= j < |keys| ==> keys[j].offset + keys[j].len <= |rec|
    ensures |k| == Width(keys)
  {
    if keys == [] then [] else Slice(keys[0], rec) + KeyBytes(keys[1..], rec)
  }

  ghost predicate KeyColumns(keys: seq<Column>, cols: seq<Column>) {
    forall j :: 0 <= j < |keys| ==> keys[j] in cols
  }

  lemma KeyColumn(keys: seq<Column>, cols: seq<Column>, rec: seq<byte>, j: nat)
    requires Storable(cols, rec) && KeyColumns(keys, cols) && j < |keys|
    ensures keys[j].offset + keys[j].len <= |rec| && Sound(keys[j], Slice(keys[j], rec))
  {
    hide Sound, Layout;
    assert keys[j] in cols;
    var i :| 0 <= i < |cols| && cols[i] == keys[j];
    assert Sound(cols[i], Slice(cols[i], rec));
  }

  /** Two records have the same key exactly when they agree in every key column. */
  lemma {:induction false} KeyByColumns(keys: seq<Column>, a: seq<byte>, b: seq<byte>)
    requires forall j :: 0 <= j < |keys| ==> keys[j].offset + keys[j].len <= |a|
    requires forall j :: 0 <= j < |keys| ==> keys[j].offset + keys[j].len <= |b|
    ensures KeyBytes(keys, a) == KeyBytes(keys, b)
       <==> forall j :: 0 <= j < |keys| ==> Slice(keys[j], a) == Slice(keys[j], b)
    decreases |keys|
  {
    hide Slice;
    if keys != [] {
      var x, y := Slice(keys[0], a), Slice(keys[0], b);
      var u, v := KeyBytes(keys[1..], a), KeyBytes(keys[1..], b);
      KeyByColumns(keys[1..], a, b);
      assert x == (x + u)[..|x|] && y == (y + v)[..|y|] && u == (x + u)[|x|..] && v == (y + v)[|y|..];
      if forall j :: 0 <= j < |keys[1..]| ==> Slice(keys[1..][j], a) == Slice(keys[1..][j], b) {
        forall j | 0 < j < |keys| ensures Slice(keys[j], a) == Slice(keys[j], b) {
          assert keys[j] == keys[1..][j - 1];
        }
      }
    }
  }

  /** The bytes of a key column come back: a number that survives, a text without NUL. */
  ghost predicate BytesReturn(c: Column, f: seq<byte>)
    requires Sound(c, f)
  {
    if c.numeric then Survives(f) else forall i :: 0 <= i < |f| ==> f[i] != S.NUL
  }

  lemma ShareSame(c: Column, f: seq<byte>)
    requires Sound(c, f)
    ensures Share(c, Answer(c, f)) == f <==> BytesReturn(c, f)
  {
    hide Survives, IsField, Canonical, NumericValue, Encoded, Decoded, CString;
    if c.numeric {
      ReturnedSame(f, c.dec);
    } else {
      CStringIs(f);
      var n := |CString(f)|;
      var t := CString(f) + Repeat(SPACE, |f| - n);
      assert n < |f| ==> t[n] == SPACE && f[n] == S.NUL;
    }
  }

  /** What has come back once comes back again. */
  lemma ShareReturns(c: Column, f: seq<byte>)
    requires Sound(c, f)
    ensures var g := Share(c, Answer(c, f));
      Sound(c, g) && BytesReturn(c, g)
  {
    hide Survives, IsField, Canonical, NumericValue, Encoded, Decoded, CString;
    if c.numeric {
      SurvivesOnce(f, c.dec);
    } else {
      CStringIs(f);
    }
  }

  /** The key of the stored record is that of the record exactly when the bytes of every
      key column come back. */
  lemma KeyKept(cols: seq<Column>, keys: seq<Column>, rec: seq<byte>)
    requires Storable(cols, rec) && KeyColumns(keys, cols)
    ensures forall j :: 0 <= j < |keys| ==>
      keys[j].offset + keys[j].len <= |rec| && Sound(keys[j], Slice(keys[j], rec))
    ensures Key(keys, ImageOf(cols, rec)) == Key(keys, rec)
       <==> forall j :: 0 <= j < |keys| ==> BytesReturn(keys[j], Slice(keys[j], rec))
  {
    hide ImageOf, Share, Answer, Sound, BytesReturn, Layout, Slice;
    forall j | 0 <= j < |keys|
      ensures keys[j].offset + keys[j].len <= |rec| && Sound(keys[j], Slice(keys[j], rec))
      ensures Slice(keys[j], ImageOf(cols, rec)) == Slice(keys[j], rec) <==> BytesReturn(keys[j], Slice(keys[j], rec))
    {
      KeyColumn(keys, cols, rec, j);
      assert keys[j] in cols;
      var i :| 0 <= i < |cols| && cols[i] == keys[j];
      ImageSlice(cols, rec, i);
      ShareSame(keys[j], Slice(keys[j], rec));
    }
    KeyByColumns(keys, ImageOf(cols, rec), rec);
    CompareIsValueOrder(KeyBytes(keys, ImageOf(cols, rec)), KeyBytes(keys, rec));
  }

  /** memcmp compares keys by this number. */
  ghost function Key(keys: seq<Column>, rec: seq<byte>): int
    requires forall j :: 0 <= j < |keys| ==> keys[j].offset + keys[j].len <= |rec|
  {
    Value(KeyBytes(keys, rec))
  }

  /** A key under which some record is filed is kept when a record with that key is stored. */
  lemma KeySteady(cols: seq<Column>, keys: seq<Column>, r: seq<byte>, s: seq<byte>)
    requires Storable(cols, r) && Storable(cols, s) && KeyColumns(keys, cols)
    requires forall j :: 0 <= j < |keys| ==> keys[j].offset + keys[j].len <= |r|
    requires forall j :: 0 <= j < |keys| ==> keys[j].offset + keys[j].len <= |s|
    requires Key(keys, ImageOf(cols, s)) == Key(keys, r)
    ensures Key(keys, ImageOf(cols, r)) == Key(keys, r)
  {
    hide ImageOf, Share, Answer, Sound, BytesReturn, Layout, Slice;
    CompareIsValueOrder(KeyBytes(keys, ImageOf(cols, s)), KeyBytes(keys, r));
    KeyByColumns(keys, ImageOf(cols, s), r);
    KeyKept(cols, keys, r);
    forall j | 0 <= j < |keys| ensures BytesReturn(keys[j], Slice(keys[j], r)) {
      KeyColumn(keys, cols, s, j);
      assert keys[j] in cols;
      var i :| 0 <= i < |cols| && cols[i] == keys[j];
      ImageSlice(cols, s, i);
      ShareReturns(keys[j], Slice(keys[j], s));
    }
  }

  // ---- What SYNC achieves ----

  /** For record r, `st` does what op_write and pq2cob do, and reads the key columns. */
  ghost predicate Stores(st: S.Storage, keys: seq<Column>, r: seq<byte>) {
    && KeyColumns(keys, st.cols) && Storable(st.cols, r) && st.image(r) == ImageOf(st.cols, r)
    && (forall j :: 0 <= j < |keys| ==> keys[j].offset + keys[j].len <= |r|)
    && st.keyOf(r) == Key(keys, r) && st.keyOf(st.image(r)) == Key(keys, ImageOf(st.cols, r))
  }

  /** All records concerned are such, under the keys they contain. */
  ghost predicate Concrete(st: S.Storage, keys: seq<Column>, d: S.Table, e: S.Table) {
    forall k :: k in d || k in e ==> Stores(st, keys, S.Actor(d, e, k)) && st.keyOf(S.Actor(d, e, k)) == k
  }

  lemma ConcreteIsSteady(st: S.Storage, keys: seq<Column>, d: S.Table, e: S.Table)
    requires Concrete(st, keys, d, e)
    ensures S.Steady(st, d, e)
  {
    hide Storable, ImageOf, Key, KeyColumns;
    forall j, k | (j in d || j in e) && (k in d || k in e) && S.At(st, S.Actor(d, e, j)) == k
      ensures S.Own(st, d, e, k)
    {
      var r, s := S.Actor(d, e, k), S.Actor(d, e, j);
      assert Stores(st, keys, r) && Stores(st, keys, s);
      KeySteady(st.cols, keys, r, s);
    }
  }

  /** The bytes of the record's key columns come back. */
  ghost predicate KeyReturns(keys: seq<Column>, r: seq<byte>) {
    forall j :: 0 <= j < |keys| ==>
      && keys[j].offset + keys[j].len <= |r| && Sound(keys[j], Slice(keys[j], r))
      && BytesReturn(keys[j], Slice(keys[j], r))
  }

  /** All columns compare equal after being stored. */
  ghost predicate RecordSurvives(cols: seq<Column>, r: seq<byte>) {
    forall i :: 0 <= i < |cols| ==>
      && cols[i].offset + cols[i].len <= |r| && Sound(cols[i], Slice(cols[i], r))
      && ColumnSurvives(cols[i], Slice(cols[i], r))
  }

  lemma OwnExact(st: S.Storage, keys: seq<Column>, r: seq<byte>)
    requires Stores(st, keys, r)
    ensures S.At(st, r) == st.keyOf(r) <==> KeyReturns(keys, r)
  {
    hide Storable, ImageOf, Key, KeyColumns, Sound, BytesReturn;
    KeyKept(st.cols, keys, r);
  }

  lemma SurvivesExact(st: S.Storage, keys: seq<Column>, r: seq<byte>)
    requires Stores(st, keys, r)
    ensures S.Inside(st.cols, |r|) && |st.image(r)| == |r|
    ensures S.SameRecord(st.cols, st.image(r), r) <==> RecordSurvives(st.cols, r)
  {
    hide ImageOf, Key, KeyColumns, Sound, ColumnSurvives, S.SameRecord, Slice, Layout;
    ImageSame(st.cols, r);
  }

  /** A key needs no statement, or can be brought in line: the bytes of its key columns come
      back and, if the file has it, all columns of its record survive. */
  ghost predicate CanBeRepaired(st: S.Storage, keys: seq<Column>, d: S.Table, e: S.Table, k: int)
    requires k in d || k in e
  {
    || S.Same(st, d, e, k)
    || (KeyReturns(keys, S.Actor(d, e, k)) && (k in e ==> RecordSurvives(st.cols, e[k])))
  }

  /** The keys come out equal exactly when storing gives back the key bytes of every record
      that only the table or only the file has. */
  lemma SyncKeys(st: S.Storage, keys: seq<Column>, snap: S.File, isam: S.File)
    requires C.Ascending(snap) && C.Ascending(isam) && Concrete(st, keys, C.Dict(snap), C.Dict(isam))
    ensures var d, e := C.Dict(snap), C.Dict(isam);
      S.Synced(st, d, snap, isam).Keys == e.Keys
      <==> forall k :: (k in d) != (k in e) ==> KeyReturns(keys, S.Actor(d, e, k))
  {
    hide C.Dict, S.Synced, S.Steady, KeyReturns, Stores;
    var d, e := C.Dict(snap), C.Dict(isam);
    ConcreteIsSteady(st, keys, d, e);
    S.KeysExact(st, snap, isam);
    forall k | k in d || k in e ensures S.Own(st, d, e, k) <==> KeyReturns(keys, S.Actor(d, e, k)) {
      OwnExact(st, keys, S.Actor(d, e, k));
    }
  }

  /** SYNC brings the table in line with the file exactly when every key can be. */
  lemma SyncReaches(st: S.Storage, keys: seq<Column>, snap: S.File, isam: S.File)
    requires C.Ascending(snap) && C.Ascending(isam) && S.Fits(st.cols, isam)
    requires Concrete(st, keys, C.Dict(snap), C.Dict(isam))
    ensures var d, e := C.Dict(snap), C.Dict(isam);
      S.InSync(st, S.Synced(st, d, snap, isam), e)
      <==> forall k :: k in d || k in e ==> CanBeRepaired(st, keys, d, e, k)
  {
    hide C.Dict, S.Synced, S.Steady, S.Same, S.InSync, KeyReturns, RecordSurvives, Stores, S.SameRecord, S.Fits;
    var d, e := C.Dict(snap), C.Dict(isam);
    ConcreteIsSteady(st, keys, d, e);
    S.SyncExact(st, snap, isam);
    forall k | k in d || k in e ensures S.Repairable(st, d, e, k) <==> CanBeRepaired(st, keys, d, e, k) {
      OwnExact(st, keys, S.Actor(d, e, k));
      if k in e { SurvivesExact(st, keys, e[k]); }
    }
  }

  // ---- Records that SYNC loses or cannot repair ----

  lemma OneColumn(c: Column, start: nat)
    requires c.offset == start && c.dec < c.len
    ensures Layout([c], start) && Width([c]) == c.len
  {
    assert [c][1..] == [];
  }

  lemma NulStrings(a: seq<byte>, b: seq<byte>)
    requires a == [65, 0, 0] && b == [65, 32, 32]
    ensures CString(a) == [65] && CString(b) == b && Value(a) < Value(b)
  {
    hide Value, Memcmp;
    CStringIs(a);
    CStringIs(b);
    MemcmpStep(a, b);
    MemcmpStep(a[1..], b[1..]);
    CompareIsValueOrder(a, b);
  }

  lemma MemcmpStep(a: seq<byte>, b: seq<byte>)
    requires |a| == |b| > 0
    ensures a[0] < b[0] ==> Memcmp(a, b) < 0
    ensures a[0] == b[0] ==> Memcmp(a, b) == Memcmp(a[1..], b[1..])
  {
  }

  lemma OneTextImage(c: Column, r: seq<byte>)
    requires !c.numeric && c.offset == 0 && c.dec < c.len == |r|
    ensures Storable([c], r) && ImageOf([c], r) == CString(r) + Repeat(SPACE, |r| - |CString(r)|)
    ensures Key([c], r) == Value(r)
  {
    hide CString, Value;
    OneColumn(c, 0);
    assert Slice(c, r) == r;
    assert Storable([c], r);
    ImageSlice([c], r, 0);
    var i := ImageOf([c], r);
    assert Slice(c, i) == i;
    assert [c][1..] == [] && KeyBytes([c], r) == r + [] && r + [] == r;
  }

  /** A text key that ends in NULs is stored with blanks, although reccmp sees no difference. */
  lemma NulKey(cols: seq<Column>, a: seq<byte>, b: seq<byte>)
    requires cols == [Column(false, 0, 3, 0)] && a == [65, 0, 0] && b == [65, 32, 32]
    ensures Storable(cols, a) && Storable(cols, b) && ImageOf(cols, a) == b && ImageOf(cols, b) == b
    ensures Key(cols, a) < Key(cols, b) && RecordSurvives(cols, a)
  {
    hide CString, Value, ImageOf, Key, Storable;
    NulStrings(a, b);
    OneTextImage(cols[0], a);
    OneTextImage(cols[0], b);
    assert [65] + Repeat(SPACE, 2) == b && b + Repeat(SPACE, 0) == b;
    assert Slice(cols[0], a) == a;
  }

  /** A first SYNC of a file with such a record stores it under the key with blanks, and a
      second SYNC of the same file deletes it: the INSERT finds the row already there, and
      the row's own key is not in the file. */
  lemma NulKeyLosesRecord(st: S.Storage, a: seq<byte>, b: seq<byte>)
    requires st.cols == [Column(false, 0, 3, 0)] && a == [65, 0, 0] && b == [65, 32, 32]
    requires Stores(st, st.cols, a) && Stores(st, st.cols, b)
    ensures var isam := [C.Rec(st.keyOf(a), a)];
      var stored := [C.Rec(st.keyOf(b), b)];
      && S.Synced(st, map[], [], isam) == C.Dict(stored) == map[st.keyOf(b) := b]
      && S.Synced(st, C.Dict(stored), stored, isam) == map[]
  {
    hide ImageOf, Storable, Key, KeyColumns, RecordSurvives;
    NulKey(st.cols, a, b);
    FiledElsewhere(st, a, b);
  }

  lemma FiledElsewhere(st: S.Storage, a: seq<byte>, b: seq<byte>)
    requires st.image(a) == b == st.image(b) && st.keyOf(a) < st.keyOf(b)
    ensures var isam := [C.Rec(st.keyOf(a), a)];
      var stored := [C.Rec(st.keyOf(b), b)];
      && S.Synced(st, map[], [], isam) == C.Dict(stored) == map[st.keyOf(b) := b]
      && S.Synced(st, C.Dict(stored), stored, isam) == map[]
  {
    var isam, stored := [C.Rec(st.keyOf(a), a)], [C.Rec(st.keyOf(b), b)];
    var none: S.File := [];
    assert isam[1..] == none && stored[1..] == none;
    assert C.Dict(none) == map[];
    assert C.Dict(isam) == map[st.keyOf(a) := a] && C.Dict(stored) == map[st.keyOf(b) := b];
    assert S.Synced(st, C.Dict(stored), none, none) == C.Dict(stored);
    assert S.Synced(st, map[], none, none) == map[];
    assert S.Synced(st, C.Dict(stored), stored, none) == map[];
  }

  /** A record with -121 in a three-digit column. */
  lemma NegativeDoesNotSurvive(cols: seq<Column>, r: seq<byte>)
    requires cols == [Column(false, 0, 1, 0), Column(true, 1, 3, 0)] && r == [75] + Field(-121, 3)
    ensures Storable(cols, r) && KeyReturns([cols[0]], r) && !RecordSurvives(cols, r)
  {
    hide Field, CString, Survives, DigitsValue, FieldValue, Returned, IsField;
    FirstDigitLost();
    FieldsDiffer();
    ReturnedSame(Field(-121, 3), 0);
    assert Slice(cols[0], r) == [75] && Slice(cols[1], r) == Field(-121, 3);
    OneColumn(cols[1], 1);
    assert cols[1..] == [cols[1]];
    assert Sound(cols[0], Slice(cols[0], r)) && Sound(cols[1], Slice(cols[1], r));
  }

  lemma FieldsDiffer()
    ensures Field(-121, 3) != Field(-21, 3)
  {
    PowThree();
    ValueOfField(-121, 3);
    ValueOfField(-21, 3);
  }

  /** SYNC stores it in an empty table, but the two records still compare different. */
  lemma NegativeNotRepaired(st: S.Storage, r: seq<byte>)
    requires st.cols == [Column(false, 0, 1, 0), Column(true, 1, 3, 0)] && r == [75] + Field(-121, 3)
    requires Stores(st, [st.cols[0]], r)
    ensures var isam := [C.Rec(st.keyOf(r), r)];
      !S.InSync(st, S.Synced(st, map[], [], isam), C.Dict(isam))
  {
    hide Field, S.Synced, S.InSync, RecordSurvives, KeyReturns, Stores;
    var isam, none: S.File := [C.Rec(st.keyOf(r), r)], [];
    NegativeDoesNotSurvive(st.cols, r);
    assert isam[1..] == none && C.Dict(none) == map[] && C.Dict(isam) == map[st.keyOf(r) := r];
    SurvivesExact(st, [st.cols[0]], r);
    SyncReaches(st, [st.cols[0]], none, isam);
    assert !CanBeRepaired(st, [st.cols[0]], C.Dict(none), C.Dict(isam), st.keyOf(r));
  }
}
