/** The merge that compares two ISAM files and logs their differences (cmp_isam.c). A
    record is its key, represented by the key's place in memcmp order, and the rest. */
module Compare {

  datatype Rec<V> = Rec(key: int, data: V)

  /** One line of the log: a mark and a record. */
  datatype Line<V> = Line(mark: char, rec: Rec<V>)

  /** What a reader delivers from a file with unique keys. */
  ghost predicate Ascending<V>(f: seq<Rec<V>>) {
    forall i, j :: 0 <= i < j < |f| ==> f[i].key < f[j].key
  }

  /** The file as a map. */
  ghost function Dict<V>(f: seq<Rec<V>>): map<int, V> {
    if f == [] then map[] else Dict(f[1..])[f[0].key := f[0].data]
  }

  /** All keys of a file from its second record on are above its first key. */
  lemma {:induction false} DictAbove<V>(f: seq<Rec<V>>, k: int)
    requires Ascending(f) && (f != [] ==> k < f[0].key)
    ensures forall x :: x in Dict(f) ==> k < x
  {
    if f != [] { DictAbove(f[1..], f[0].key); }
  }

  /** The lines of a log that are about key `k`. */
  ghost function About<V>(log: seq<Line<V>>, k: int): seq<Line<V>> {
    if log == [] then []
    else (if log[0].rec.key == k then [log[0]] else []) + About(log[1..], k)
  }

  /** What the log should say about key `k`: '+' if only the first file has it, '-' if
      only the second has it, and both records if they differ. */
  ghost function Difference<V>(a: map<int, V>, b: map<int, V>, k: int): seq<Line<V>> {
    if k in a && k in b then
      if a[k] == b[k] then [] else [Line('<', Rec(k, b[k])), Line('>', Rec(k, a[k]))]
    else if k in a then [Line('+', Rec(k, a[k]))]
    else if k in b then [Line('-', Rec(k, b[k]))]
    else []
  }

  ghost predicate InKeyOrder<V>(log: seq<Line<V>>) {
    forall i, j :: 0 <= i < j < |log| ==> log[i].rec.key <= log[j].rec.key
  }

  // ---- One step of the merge ----

  /** The lower of the next keys, whether each file has it, and the lines for it. */
  predicate TakesFirst<V>(f: seq<Rec<V>>, g: seq<Rec<V>>) {
    f != [] && (g == [] || f[0].key <= g[0].key)
  }

  function StepLines<V(==)>(f: seq<Rec<V>>, g: seq<Rec<V>>): seq<Line<V>>
    requires f != [] || g != []
  {
    if TakesFirst(f, g) && TakesFirst(g, f) then
      if f[0] == g[0] then [] else [Line('<', g[0]), Line('>', f[0])]
    else if TakesFirst(f, g) then [Line('+', f[0])]
    else [Line('-', g[0])]
  }

  function Rest<V>(f: seq<Rec<V>>, g: seq<Rec<V>>): seq<Rec<V>> {
    if TakesFirst(f, g) then f[1..] else f
  }

  function Merge<V(==)>(f: seq<Rec<V>>, g: seq<Rec<V>>): seq<Line<V>>
    decreases |f| + |g|
  {
    if f == [] && g == [] then [] else StepLines(f, g) + Merge(Rest(f, g), Rest(g, f))
  }

  // ---- What the merge computes ----

  ghost function Low<V>(f: seq<Rec<V>>, g: seq<Rec<V>>): int
    requires f != [] || g != []
  {
    if TakesFirst(f, g) then f[0].key else g[0].key
  }

  /** The step's lines are the difference at the lowest key, which is then gone from both
      files; other keys are not affected. */
  lemma StepDifference<V>(f: seq<Rec<V>>, g: seq<Rec<V>>, k: int)
    requires Ascending(f) && Ascending(g) && (f != [] || g != [])
    ensures var low := Low(f, g);
            && StepLines(f, g) == Difference(Dict(f), Dict(g), low)
            && low !in Dict(Rest(f, g)) && low !in Dict(Rest(g, f))
            && (k != low ==> Difference(Dict(Rest(f, g)), Dict(Rest(g, f)), k) == Difference(Dict(f), Dict(g), k))
  {
    var low := Low(f, g);
    DictAbove(Rest(f, g), low);
    DictAbove(Rest(g, f), low);
    if TakesFirst(f, g) { assert Dict(f) == Dict(f[1..])[low := f[0].data]; } else { DictAbove(f, low); }
    if TakesFirst(g, f) { assert Dict(g) == Dict(g[1..])[low := g[0].data]; } else { DictAbove(g, low); }
  }

  lemma {:induction false} AboutConcat<V>(a: seq<Line<V>>, b: seq<Line<V>>, k: int)
    ensures About(a + b, k) == About(a, k) + About(b, k)
  {
    if a == [] {
      assert a + b == b;
    } else {
      var head := if a[0].rec.key == k then [a[0]] else [];
      calc {
        About(a + b, k);
        { assert (a + b)[1..] == a[1..] + b; }
        head + About(a[1..] + b, k);
        { AboutConcat(a[1..], b, k); }
        head + (About(a[1..], k) + About(b, k));
        (head + About(a[1..], k)) + About(b, k);
      }
    }
  }

  lemma DifferenceAbout<V>(a: map<int, V>, b: map<int, V>, low: int, k: int)
    ensures About(Difference(a, b, low), k) == if k == low then Difference(a, b, low) else []
  {
    var d := Difference(a, b, low);
    if |d| == 2 {
      AboutConcat([d[0]], [d[1]], k);
      AboutOne(d[0], k);
      AboutOne(d[1], k);
      assert d == [d[0]] + [d[1]];
    } else if |d| == 1 {
      AboutOne(d[0], k);
      assert d == [d[0]];
    }
  }

  lemma AboutOne<V>(l: Line<V>, k: int)
    ensures About([l], k) == if l.rec.key == k then [l] else []
  {
    assert [l][1..] == [];
  }

  /** About every key, the log says exactly what it should. */
  lemma {:induction false} MergeDifference<V>(f: seq<Rec<V>>, g: seq<Rec<V>>, k: int)
    requires Ascending(f) && Ascending(g)
    ensures About(Merge(f, g), k) == Difference(Dict(f), Dict(g), k)
    decreases |f| + |g|
  {
    if f != [] || g != [] {
      StepDifference(f, g, k);
      MergeDifference(Rest(f, g), Rest(g, f), k);
      AboutConcat(StepLines(f, g), Merge(Rest(f, g), Rest(g, f)), k);
      DifferenceAbout(Dict(f), Dict(g), Low(f, g), k);
    }
  }

  lemma {:induction false} MergeInOrder<V>(f: seq<Rec<V>>, g: seq<Rec<V>>, k: int)
    requires Ascending(f) && Ascending(g)
    requires (f != [] ==> k < f[0].key) && (g != [] ==> k < g[0].key)
    ensures InKeyOrder(Merge(f, g)) && forall i :: 0 <= i < |Merge(f, g)| ==> k < Merge(f, g)[i].rec.key
    decreases |f| + |g|
  {
    if f != [] || g != [] {
      var low := Low(f, g);
      MergeInOrder(Rest(f, g), Rest(g, f), low);
      OrderConcat(StepLines(f, g), Merge(Rest(f, g), Rest(g, f)), low);
      assert k < low;
    }
  }

  lemma OrderConcat<V>(a: seq<Line<V>>, b: seq<Line<V>>, low: int)
    requires forall i :: 0 <= i < |a| ==> a[i].rec.key == low
    requires InKeyOrder(b) && forall i :: 0 <= i < |b| ==> low < b[i].rec.key
    ensures InKeyOrder(a + b) && forall i :: 0 <= i < |a + b| ==> low <= (a + b)[i].rec.key
  {
  }

  /** An example: 1 differs, 2 is only in the first file, 3 only in the second. */
  lemma LogOfExample()
    ensures Merge([Rec(1, 10), Rec(2, 20)], [Rec(1, 11), Rec(3, 30)])
         == [Line('<', Rec(1, 11)), Line('>', Rec(1, 10)), Line('+', Rec(2, 20)), Line('-', Rec(3, 30))]
  {
    var f, g := [Rec(1, 10), Rec(2, 20)], [Rec(1, 11), Rec(3, 30)];
    assert f[1..] == [Rec(2, 20)] && g[1..] == [Rec(3, 30)];
    assert Merge(f[1..], g[1..]) == [Line('+', Rec(2, 20))] + Merge(f[1..][1..], g[1..]);
    assert Merge(f[1..][1..], g[1..]) == [Line('-', Rec(3, 30))] + Merge([], g[1..][1..]);
  }

  /** One pass of the loop: what is logged for the next keys, and how far to move. */
  method Step<V(==)>(f: seq<Rec<V>>, i: nat, g: seq<Rec<V>>, j: nat) returns (lines: seq<Line<V>>, i': nat, j': nat)
    requires i <= |f| && j <= |g| && (i < |f| || j < |g|)
    ensures i <= i' <= |f| && j <= j' <= |g| && i' + j' > i + j
    ensures Merge(f[i..], g[j..]) == lines + Merge(f[i'..], g[j'..])
  {
    lines, i', j' := [], i, j;
    ghost var a, b := f[i..], g[j..];
    if i < |f| && j < |g| {
      if f[i].key == g[j].key {
        if f[i] != g[j] {
          lines := [Line('<', g[j]), Line('>', f[i])];
        }
        i', j' := i + 1, j + 1;
      } else if f[i].key > g[j].key {
        lines, j' := [Line('-', g[j])], j + 1;
      } else {
        lines, i' := [Line('+', f[i])], i + 1;
      }
    } else if i < |f| {
      lines, i' := [Line('+', f[i])], i + 1;
    } else {
      lines, j' := [Line('-', g[j])], j + 1;
    }
    assert lines == StepLines(a, b) && f[i'..] == Rest(a, b) && g[j'..] == Rest(b, a);
  }

  /** The loop of cmp_isam. */
  method MergeFiles<V(==)>(f: seq<Rec<V>>, g: seq<Rec<V>>) returns (log: seq<Line<V>>)
    ensures log == Merge(f, g)
  {
    hide Merge;
    log := [];
    var i, j := 0, 0;
    assert f[0..] == f && g[0..] == g;
    while i < |f| || j < |g|
      invariant i <= |f| && j <= |g| && log + Merge(f[i..], g[j..]) == Merge(f, g)
      decreases |f| - i + (|g| - j)
    {
      ghost var was, a, b := log, f[i..], g[j..];
      var lines;
      lines, i, j := Step(f, i, g, j);
      log := log + lines;
      assert was + (lines + Merge(f[i..], g[j..])) == log + Merge(f[i..], g[j..]);
    }
    MergeNothing<V>();
    assert f[i..] == [] && g[j..] == [];
  }

  lemma MergeNothing<V>()
    ensures Merge<V>([], []) == []
  {
  }

  /** cmp_isam: the log is in key order and says about every key what it should. */
  method CompareFiles<V(==, !new)>(f: seq<Rec<V>>, g: seq<Rec<V>>) returns (log: seq<Line<V>>)
    requires Ascending(f) && Ascending(g)
    ensures InKeyOrder(log)
    ensures forall k :: About(log, k) == Difference(Dict(f), Dict(g), k)
  {
    hide Merge, About, Difference, Dict;
    log := MergeFiles(f, g);
    forall k ensures About(log, k) == Difference(Dict(f), Dict(g), k) {
      MergeDifference(f, g, k);
    }
    MergeInOrder(f, g, if f == [] && g == [] then 0 else Low(f, g) - 1);
  }
}
