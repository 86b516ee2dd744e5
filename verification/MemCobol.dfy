/** Key descriptors of an in-memory file (memfh_cbl.c). */
module MemCobol {
  import opened Bytes
  import opened Memory
  import opened MemIndex
  import opened MemFile
  import PageGraph

  /** memfh_cbl_open_output: every secondary key gets the first component of the primary
      key appended. */
  method Descriptors(comps: seq<seq<Part>>) returns (keys: seq<seq<Part>>)
    requires comps != [] && comps[0] != []
    ensures |keys| == |comps| && keys[0] == comps[0]
    ensures forall k :: 0 < k < |keys| ==> keys[k] == comps[k] + [comps[0][0]]
  {
    keys := [];
    for k := 0 to |comps|
      invariant |keys| == k
      invariant forall j :: 0 <= j < k ==> keys[j] == if j == 0 then comps[0] else comps[j] + [comps[0][0]]
    {
      var key := new Part[if k == 0 then |comps[k]| else |comps[k]| + 1](_ => Part(0, 0));
      for c := 0 to |comps[k]|
        invariant key[..c] == comps[k][..c]
      {
        key[c] := comps[k][c];
        assert key[..c + 1] == key[..c] + [comps[k][c]];
      }
      if k > 0 {
        key[|comps[k]|] := keys[0][0];
        assert key[..] == key[..|comps[k]|] + [comps[0][0]];
      } else {
        assert key[..] == key[..|comps[k]|];
      }
      keys := keys + [key[..]];
    }
  }

  /** With a one-component primary key, building a secondary index never stops: the index
      holds every record of the file once, by secondary key and then by primary key. */
  method CreateSecondary(f: File, comps: seq<seq<Part>>, k: nat, ptrSize: nat) returns (ix: Index)
    requires f.Valid() && comps != [] && f.parts == comps[0] && |comps[0]| == 1
    requires 0 < k < |comps| && Inside(comps[k], f.reclen)
    requires 1 <= KeyLen(comps[k] + comps[0]) <= 256 && (ptrSize == 4 || ptrSize == 8)
    modifies f.primary`path, f.primary`pos
    ensures f.Valid() && ix.Valid() && fresh(ix) && fresh(ix.Repr)
    ensures Mirrors(comps[k] + comps[0], f.records, f.primary.Contents, ix.Contents)
    ensures forall a, b :: Inside(comps[k] + comps[0], |a|) && Inside(comps[k] + comps[0], |b|) ==>
      (Value(KeyOf(comps[k] + comps[0], a)) < Value(KeyOf(comps[k] + comps[0], b)) <==>
       Follows(comps[k], comps[0], a, b))
  {
    hide Mirrors, Separated, Matches;
    var keys := Descriptors(comps);
    var sec := keys[k];
    assert sec == comps[k] + comps[0] && comps[0] == [comps[0][0]];
    f.IndexFacts(sec);
    PrimaryKeySeparates(comps[k], comps[0][0], f.records, f.primary.Contents, f.Table);
    var ok;
    ok, ix := f.CreateIndex(sec, ptrSize);
    forall a, b | Inside(sec, |a|) && Inside(sec, |b|)
      ensures Value(KeyOf(sec, a)) < Value(KeyOf(sec, b)) <==> Follows(comps[k], comps[0], a, b)
    {
      SecondaryOrder(comps[k], comps[0][0], a, b);
    }
  }

  /** b comes after a by secondary key, or by primary key under the same secondary key. */
  ghost predicate Follows(sec: seq<Part>, pri: seq<Part>, a: Record, b: Record) {
    && Inside(sec, |a|) && Inside(sec, |b|) && Inside(pri, |a|) && Inside(pri, |b|)
    && (|| Memcmp(KeyOf(sec, a), KeyOf(sec, b)) < 0
        || (KeyOf(sec, a) == KeyOf(sec, b) && Memcmp(KeyOf(pri, a), KeyOf(pri, b)) < 0))
  }

  /** An entry of the new index is a record of the file, under its composite key. */
  lemma EntryIsRecord(f: File, sec: seq<Part>, x: map<int, int>, w: int)
    requires f.Valid() && Mirrors(sec, f.records, f.primary.Contents, x) && w in x
    ensures 0 <= x[w] < |f.records|
    ensures var r := f.records[x[w]];
      && Inside(sec, |r|) && Value(KeyOf(sec, r)) == w
      && Inside(f.parts, |r|) && KeyOf(f.parts, r) in f.Table && f.Table[KeyOf(f.parts, r)] == r
  {
    var m := f.primary.Contents;
    var v :| v in m && SecValue(sec, f.records, m, v) == w && x[w] == m[v];
    assert Backed(f.parts, f.records, m, f.Table, v);
    Lookup(f.parts, f.records, m, f.Table, KeyOf(f.parts, f.records[m[v]]));
  }

  /** And every record of the file has its entry. */
  lemma RecordHasEntry(f: File, sec: seq<Part>, x: map<int, int>, key: seq<byte>) returns (w: int)
    requires f.Valid() && Mirrors(sec, f.records, f.primary.Contents, x) && key in f.Table
    ensures w in x && 0 <= x[w] < |f.records| && f.records[x[w]] == f.Table[key]
  {
    var m := f.primary.Contents;
    assert Indexed(f.parts, f.records, m, f.Table, key);
    w := SecValue(sec, f.records, m, Value(key));
  }

  /** `recs` are the records of the table, each once, by secondary and then primary key. */
  ghost predicate Lists(sec: seq<Part>, pri: seq<Part>, t: Keyed, recs: seq<Record>) {
    && (forall i, j :: 0 <= i < j < |recs| ==> Follows(sec, pri, recs[i], recs[j]))
    && (forall key :: key in t ==> t[key] in recs)
    && (forall i :: 0 <= i < |recs| ==>
          Inside(pri, |recs[i]|) && KeyOf(pri, recs[i]) in t && t[KeyOf(pri, recs[i])] == recs[i])
  }

  lemma ScanLists(f: File, sec: seq<Part>, p: Part, x: map<int, int>, ks: seq<int>, rs: seq<int>, recs: seq<Record>)
    requires f.Valid() && f.parts == [p] && Mirrors(sec + [p], f.records, f.primary.Contents, x)
    requires PageGraph.Ascending(ks) && (forall w :: w in ks <==> w in x)
    requires |rs| == |ks| == |recs| && forall i :: 0 <= i < |ks| ==> ks[i] in x && rs[i] == x[ks[i]]
    requires forall i :: 0 <= i < |ks| ==> 0 <= rs[i] < |f.records| && recs[i] == f.records[rs[i]]
    ensures Lists(sec, [p], f.Table, recs)
  {
    hide Mirrors;
    forall i, j | 0 <= i < j < |recs| ensures Follows(sec, [p], recs[i], recs[j]) {
      EntryIsRecord(f, sec + [p], x, ks[i]);
      EntryIsRecord(f, sec + [p], x, ks[j]);
      SecondaryOrder(sec, p, recs[i], recs[j]);
    }
    forall key | key in f.Table ensures f.Table[key] in recs {
      var w := RecordHasEntry(f, sec + [p], x, key);
      var i :| 0 <= i < |ks| && ks[i] == w;
      assert recs[i] == f.Table[key];
    }
    forall i | 0 <= i < |recs|
      ensures Inside([p], |recs[i]|) && KeyOf([p], recs[i]) in f.Table && f.Table[KeyOf([p], recs[i])] == recs[i]
    {
      EntryIsRecord(f, sec + [p], x, ks[i]);
    }
  }

  /** A scan of a new secondary index lists every record of the file exactly once, by
      secondary key and then by primary key. */
  method ListSecondary(f: File, comps: seq<seq<Part>>, k: nat, ptrSize: nat) returns (recs: seq<Record>)
    requires f.Valid() && comps != [] && f.parts == comps[0] && |comps[0]| == 1
    requires 0 < k < |comps| && Inside(comps[k], f.reclen)
    requires 1 <= KeyLen(comps[k] + comps[0]) <= 256 && (ptrSize == 4 || ptrSize == 8)
    modifies f.primary`path, f.primary`pos
    ensures f.Valid() && f.Table == old(f.Table)
    ensures Lists(comps[k], comps[0], f.Table, recs)
  {
    hide Mirrors, Follows, Matches, Lists, PageGraph.Ok, PageGraph.Filled, PageGraph.Represents, PageGraph.Ascending;
    var ix := CreateSecondary(f, comps, k, ptrSize);
    var ks, rs := ix.ScanAll();
    assert comps[0] == [comps[0][0]];
    forall i | 0 <= i < |ks| ensures 0 <= rs[i] < |f.records| {
      EntryIsRecord(f, comps[k] + comps[0], ix.Contents, ks[i]);
    }
    recs := seq(|rs|, i requires 0 <= i < |rs| && 0 <= rs[i] < |f.records| reads f => f.records[rs[i]]);
    ScanLists(f, comps[k], comps[0][0], ix.Contents, ks, rs, recs);
  }

  // ---- More components ----

  /** Two records agree in the secondary key and in the primary key's first component. */
  ghost predicate Clash(sec: seq<Part>, first: Part, a: Record, b: Record)
    requires Inside(sec + [first], |a|) && Inside(sec + [first], |b|)
  {
    KeyOf(sec + [first], a) == KeyOf(sec + [first], b)
  }

  /** With any primary key, the composite keys all differ exactly when no two records of the
      file clash. */
  lemma SeparatedUnlessClash(f: File, sec: seq<Part>, first: Part)
    requires f.Valid() && AllIn(sec + [first], f.records, f.primary.Contents)
    ensures Separated(sec + [first], f.records, f.primary.Contents)
       <==> forall v, w :: v in f.primary.Contents && w in f.primary.Contents && v != w ==>
              !Clash(sec, first, f.records[f.primary.Contents[v]], f.records[f.primary.Contents[w]])
  {
    var m := f.primary.Contents;
    forall v, w | v in m && w in m
      ensures SecValue(sec + [first], f.records, m, v) == SecValue(sec + [first], f.records, m, w)
         <==> Clash(sec, first, f.records[m[v]], f.records[m[w]])
    {
      CompareIsValueOrder(KeyOf(sec + [first], f.records[m[v]]), KeyOf(sec + [first], f.records[m[w]]));
    }
  }

  lemma TwoComponents(a: Record, b: Record)
    requires a == [1, 1, 9] && b == [1, 2, 9]
    ensures var pri, sec := [Part(0, 1), Part(1, 1)], [Part(2, 1)];
      && Inside(pri, 3) && Inside(sec + [pri[0]], 3) && KeyLen(pri) == 2 && KeyLen(sec + [pri[0]]) == 2
      && KeyOf(pri, a) == [1, 1] && KeyOf(pri, b) == [1, 2]
      && KeyOf(sec + [pri[0]], a) == [9, 1] == KeyOf(sec + [pri[0]], b)
  {
    var pri, sec := [Part(0, 1), Part(1, 1)], [Part(2, 1)];
    KeyOfSnoc([Part(0, 1)], Part(1, 1), a);
    KeyOfSnoc([Part(0, 1)], Part(1, 1), b);
    assert [Part(0, 1)] + [Part(1, 1)] == pri;
    KeyOfSnoc(sec, pri[0], a);
    KeyOfSnoc(sec, pri[0], b);
    SingleKey(sec[0], a);
    SingleKey(sec[0], b);
    SingleKey(pri[0], a);
    SingleKey(pri[0], b);
  }

  /** A primary key of two components gives no guarantee: two records that agree in the
      first one and in the secondary key can both be written, and then building the index
      stops the program. */
  method TwoComponentsStop(ptrSize: nat) returns (written: bool, built: bool)
    requires ptrSize == 4 || ptrSize == 8
    ensures written && !built
  {
    hide Matches, Separated;
    var a: Record, b: Record := [1, 1, 9], [1, 2, 9];
    var pri, sec := [Part(0, 1), Part(1, 1)], [Part(2, 1)];
    TwoComponents(a, b);
    var keys := Descriptors([pri, sec]);
    var f := new File(3, pri, ptrSize);
    var first := f.Write(a);
    var second := f.Write(b);
    written := first && second;
    f.IndexFacts(keys[1]);
    var ix;
    NotSeparated(f, keys[1], [1, 1], [1, 2]);
    built, ix := f.CreateIndex(keys[1], ptrSize);
  }

  lemma NotSeparated(f: File, sec: seq<Part>, k: seq<byte>, l: seq<byte>)
    requires f.Valid() && AllIn(sec, f.records, f.primary.Contents)
    requires k in f.Table && l in f.Table && k != l && |k| == |l|
    requires Inside(sec, |f.Table[k]|) && Inside(sec, |f.Table[l]|) && KeyOf(sec, f.Table[k]) == KeyOf(sec, f.Table[l])
    ensures !Separated(sec, f.records, f.primary.Contents)
  {
    var m := f.primary.Contents;
    assert Indexed(f.parts, f.records, m, f.Table, k) && Indexed(f.parts, f.records, m, f.Table, l);
    CompareIsValueOrder(k, l);
    assert SecValue(sec, f.records, m, Value(k)) == SecValue(sec, f.records, m, Value(l));
  }
}
