/** The paged index of an in-memory file (memfh_idx.c): search, insertion with leaf,
    branch and root splits, and the forward scan. */
module MemIndex {
  import opened PageGraph
  import opened PageBuffers
  import opened Trails

  lemma HalvesContents(pages: seq<Page>, g: int, m: map<int, int>)
    requires Represents(pages, m) && 0 <= g < |pages| && !pages[g].leaf && |pages[g].keys| <= |pages[g].ptrs|
    ensures Represents(pages[g := LowerHalf(pages[g], |pages|)] + [UpperHalf(pages[g])], m)
  {
    ContentsKept(pages, pages[g := LowerHalf(pages[g], |pages|)] + [UpperHalf(pages[g])], m);
  }

  lemma BranchHalves(s: Shape, g: int)
    requires Closed(s) && 0 <= g < |s.pages| && !s.pages[g].leaf && |s.pages[g].keys| > 1
    ensures BranchSplit(s, g, |s.pages[g].keys| / 2).pages
            == s.pages[g := LowerHalf(s.pages[g], |s.pages|)] + [UpperHalf(s.pages[g])]
  {
  }

  lemma HalvesFilled(pages: seq<Page>, root: int, g: int, max: nat)
    requires max >= 14 && 0 <= g < |pages| && Filled(pages, root, max, g) && |pages[g].keys| == max
    requires |pages[g].keys| <= |pages[g].ptrs|
    ensures Filled(pages[g := LowerHalf(pages[g], |pages|)] + [UpperHalf(pages[g])],
                   if g == root then NULL else root, max, NULL)
  {
  }

  /** Splitting the full branch `g` of a valid index. */
  lemma SplitSound(s: Shape, root: int, g: int, max: nat, m: map<int, int>)
    requires Ok(s, root) && Represents(s.pages, m) && max >= 14
    requires 0 <= g < |s.pages| && !s.pages[g].leaf && |s.pages[g].keys| == max && Filled(s.pages, root, max, g)
    ensures var t := BranchSplit(s, g, max / 2);
            && Ok(t, root) && Represents(t.pages, m)
            && Filled(t.pages, if g == root then NULL else root, max, NULL)
  {
    BranchSplits(s, root, g, max / 2);
    BranchHalves(s, g);
    HalvesContents(s.pages, g, m);
    HalvesFilled(s.pages, root, g, max);
  }

  /** Splitting the full root of a valid index and putting a new root above. */
  lemma GrowSound(s: Shape, root: int, max: nat, m: map<int, int>)
    requires Ok(s, root) && Represents(s.pages, m) && max >= 14
    requires !s.pages[root].leaf && |s.pages[root].keys| == max && Filled(s.pages, root, max, root)
    ensures var t := BranchSplit(s, root, max / 2);
            && |t.pages| == |s.pages| + 1 && Closed(t) && |t.pages[|s.pages|].keys| > 0
            && var u := Grown(t, root, |s.pages|, t.pages[|s.pages|].keys[0]);
            Ok(u, |t.pages|) && Represents(u.pages, m) && Filled(u.pages, |t.pages|, max, NULL)
  {
    var t := BranchSplit(s, root, max / 2);
    SplitSound(s, root, root, max, m);
    BranchSplitPages(s, root, max / 2);
    RootGrows(t, root, |s.pages|, t.pages[|s.pages|].keys[0]);
    ContentsKept(t.pages, Grown(t, root, |s.pages|, t.pages[|s.pages|].keys[0]).pages, m);
  }

  ghost function WithEntry(p: Page, i: nat, key: int, rec: int): Page
    requires i <= |p.keys| && i <= |p.ptrs|
  {
    Page(true, Inserted(p.keys, i, key), Inserted(p.ptrs, i, rec))
  }

  /** Adding an absent key to the leaf that owns it. */
  lemma EntrySound(s: Shape, root: int, path: seq<int>, pos: seq<int>, d: nat, key: int, c: int,
                   rec: int, max: nat, m: map<int, int>)
    requires Ok(s, root) && Represents(s.pages, m) && Filled(s.pages, root, max, NULL)
    requires Found(s, path, pos, d, key, c, m) && c != 0
    ensures var p := WithEntry(s.pages[path[d]], pos[d], key, rec);
            && Ok(s.(pages := s.pages[path[d] := p]), root)
            && Represents(s.pages[path[d] := p], m[key := rec])
            && Filled(s.pages[path[d] := p], root, max, path[d])
            && |p.keys| == |p.ptrs| == |s.pages[path[d]].keys| + 1 && Ascending(p.keys)
            && (forall j :: 0 <= j < |p.keys| ==> s.meta[path[d]].low <= p.keys[j] < s.meta[path[d]].high)
  {
    var a, i := path[d], pos[d];
    var p, q := s.pages[a], WithEntry(s.pages[a], i, key, rec);
    CoveringLeafDecides(s, root, a, key, m);
    assert PageOk(s, a);
    InsertedAscending(p.keys, key, i);
    LeafChanges(s, root, a, q);
    forall k, r ensures At(q, k, r) <==> At(p, k, r) || (k == key && r == rec) {
      InsertedAt(p, i, key, rec, k, r);
    }
    ContentsGrow(s.pages, a, q, key, rec, m);
  }

  /** Moving half of a full leaf to a new leaf. */
  lemma LeafHalves(pages: seq<Page>, root: int, a: int, max: nat, m: map<int, int>)
    requires 0 <= a < |pages| && pages[a].leaf && |pages[a].keys| == |pages[a].ptrs| == max >= 14
    requires Represents(pages, m) && Filled(pages, root, max, a)
    ensures var q := pages[a := LowerHalf(pages[a], |pages|)] + [UpperHalf(pages[a])];
            Represents(q, m) && Filled(q, if a == root then NULL else root, max, NULL)
  {
    var l, r := LowerHalf(pages[a], |pages|), UpperHalf(pages[a]);
    forall k, v ensures At(pages[a], k, v) <==> At(l, k, v) || At(r, k, v) {
      SplitAt(pages[a], max / 2, k, v);
    }
    ContentsMove(pages, a, l, r, m);
    HalvesFilled(pages, root, a, max);
  }

  /** Splitting the full leaf at the end of a path, which becomes `p` in graph `s`. */
  lemma LeafSplitSound(s: Shape, root: int, path: seq<int>, pos: seq<int>, d: nat, p: Page, max: nat,
                       m: map<int, int>, key: int)
    requires Ok(s, root) && 0 < d < |path| == |pos| && path[0] == root && Trail(s, path, pos, d, key)
    requires s.pages[path[d]].leaf && p.leaf && |p.keys| == |p.ptrs| == max >= 14 && Ascending(p.keys)
    requires forall i :: 0 <= i < |p.keys| ==> s.meta[path[d]].low <= p.keys[i] < s.meta[path[d]].high
    requires Filled(s.pages[path[d] := p], root, max, path[d]) && Represents(s.pages[path[d] := p], m)
    ensures 0 <= path[d - 1] < |s.pages|
    ensures var t, v := LeafSplitAlone(s, path[d], path[d - 1], p, max / 2), s.pages[path[d] := p];
            && LinkReady(t, root, path, pos, d - 1, |s.pages|, key)
            && t.pages == v[path[d] := LowerHalf(p, |v|)] + [UpperHalf(p)]
            && Represents(t.pages, m) && Filled(t.pages, root, max, NULL)
  {
    var t, v := LeafSplitAlone(s, path[d], path[d - 1], p, max / 2), s.pages[path[d] := p];
    TrailRanked(s, root, path, pos, d, key);
    ClimbFromLeaf(s, root, path, pos, d, p, max / 2, key);
    LeafHalves(v, root, path[d], max, m);
    assert t.pages == v[path[d] := LowerHalf(p, |v|)] + [UpperHalf(p)];
  }

  lemma EmptyRoot(s: Shape, root: int, m: map<int, int>)
    requires Ok(s, root) && Represents(s.pages, m) && |s.pages[root].keys| == 0
    ensures m == map[]
  {
    assert PageOk(s, root);
    forall k ensures k !in m {
      if k in m {
        var b := LeafOf(s, root, k, m);
      }
    }
  }

  /** `k'` is the stored key right after `k`. */
  ghost predicate Succeeds(m: map<int, int>, k: int, k': int) {
    k' in m && k < k' && forall x :: x in m && x > k ==> x >= k'
  }

  ghost predicate IsLast(m: map<int, int>, k: int) {
    forall x :: x in m ==> x <= k
  }

  /** Inside a leaf the entries are consecutive in the whole index. */
  lemma NextInLeaf(s: Shape, root: int, a: int, i: nat, m: map<int, int>)
    requires Ok(s, root) && Represents(s.pages, m) && 0 <= a < |s.pages| && s.pages[a].leaf
    requires i + 1 < |s.pages[a].keys|
    ensures Succeeds(m, s.pages[a].keys[i], s.pages[a].keys[i + 1])
  {
    assert PageOk(s, a);
    CoveringLeafDecides(s, root, a, s.pages[a].keys[i + 1], m);
    forall k | k in m && s.pages[a].keys[i] < k < s.pages[a].keys[i + 1] ensures false {
      CoveringLeafDecides(s, root, a, k, m);
    }
  }

  /** The last entry of a leaf is followed by the first entry of the leaf reached by
      first links from the parent's next child, or by none. */
  lemma NextAcross(s: Shape, root: int, a: int, g: int, i: nat, max: nat, m: map<int, int>)
    requires Ok(s, root) && Represents(s.pages, m) && Filled(s.pages, root, max, NULL) && max >= 14
    requires 0 <= a < |s.pages| && 0 <= g < |s.pages| && s.pages[a].leaf && !s.pages[g].leaf
    requires i < |s.pages[g].ptrs| && s.pages[g].ptrs[i] == a && |s.pages[a].keys| > 0
    ensures i < |s.pages[g].keys| ==>
              var b := s.meta[s.pages[g].ptrs[i + 1]].lm;
              && s.pages[b].leaf && |s.pages[b].keys| == |s.pages[b].ptrs| > 0
              && Succeeds(m, s.pages[a].keys[|s.pages[a].keys| - 1], s.pages[b].keys[0])
    ensures i == |s.pages[g].keys| ==> IsLast(m, s.pages[a].keys[|s.pages[a].keys| - 1])
  {
    NextLeaf(s, root, a, g, i);
    if i < |s.pages[g].keys| {
      var b := s.meta[s.pages[g].ptrs[i + 1]].lm;
      assert b != root;
      NothingBetween(s, root, a, b, m);
      assert PageOk(s, b);
      CoveringLeafDecides(s, root, b, s.pages[b].keys[0], m);
    } else {
      NothingAbove(s, root, a, m);
    }
  }

  /** A search from at or below all stored keys stops at the lowest entry. */
  lemma StartSound(s: Shape, root: int, path: seq<int>, pos: seq<int>, d: nat, key: int, c: int, max: nat,
                   m: map<int, int>)
    requires Ok(s, root) && Represents(s.pages, m) && Filled(s.pages, root, max, NULL) && max >= 14
    requires Found(s, path, pos, d, key, c, m) && forall k :: k in m ==> key <= k
    ensures c <= 0 <==> m != map[]
    ensures c <= 0 ==> var p := s.pages[path[d]];
                       && pos[d] == 0 && |p.keys| > 0 && p.keys[0] in m && m[p.keys[0]] == p.ptrs[0]
                       && forall k :: k in m ==> p.keys[0] <= k
  {
    var a := path[d];
    var p := s.pages[a];
    assert PageOk(s, a);
    CoveringLeafDecides(s, root, a, key, m);
    if |p.keys| == 0 {
      assert a == root;
      EmptyRoot(s, root, m);
    } else {
      assert p.keys[0] in m;
      assert pos[d] == 0;
      forall k | k in m ensures p.keys[0] <= k {
        var b := LeafOf(s, root, k, m);
        assert a != b ==> Disjoint(s, a, b);
      }
    }
  }

  /** Wherever a search ends, the entry it stops at is the nearest stored key from `key`
      upward; past the end of a leaf, all such keys lie beyond the leaf. */
  lemma StopsAtNearest(s: Shape, root: int, path: seq<int>, pos: seq<int>, d: nat, key: int, c: int, m: map<int, int>)
    requires Ok(s, root) && Represents(s.pages, m) && Found(s, path, pos, d, key, c, m)
    ensures var p, a := s.pages[path[d]], path[d];
      && (c <= 0 ==> pos[d] < |p.keys| && p.keys[pos[d]] in m && key <= p.keys[pos[d]]
                     && forall k :: k in m && key <= k ==> p.keys[pos[d]] <= k)
      && (c > 0 ==> forall k :: k in m && key <= k ==> s.meta[a].high <= k)
      && (|p.keys| > 0 ==> p.keys[0] in m && m[p.keys[0]] == p.ptrs[0])
  {
    var a := path[d];
    var p := s.pages[a];
    assert PageOk(s, a);
    CoveringLeafDecides(s, root, a, key, m);
    if |p.keys| > 0 { CoveringLeafDecides(s, root, a, p.keys[0], m); }
    if c <= 0 { CoveringLeafDecides(s, root, a, p.keys[pos[d]], m); }
    forall k | k in m && key <= k && k < s.meta[a].high
      ensures pos[d] < |p.keys| && p.keys[pos[d]] <= k
    {
      CoveringLeafDecides(s, root, a, k, m);
    }
  }

  /** The leaf that owns `key`. */
  ghost predicate Owns(s: Shape, a: int, key: int) {
    0 <= a < |s.pages| == |s.meta| && s.pages[a].leaf && s.meta[a].low <= key < s.meta[a].high
  }

  /** The search finds an entry from `key` upward exactly when the leaf that owns the key
      has one, and stops at the leaf's first entry exactly when the leaf has none below. */
  lemma StopsExactly(s: Shape, root: int, path: seq<int>, pos: seq<int>, d: nat, key: int, c: int,
                     m: map<int, int>, a: int)
    requires Ok(s, root) && Represents(s.pages, m) && Found(s, path, pos, d, key, c, m) && Owns(s, a, key)
    ensures a == path[d]
    ensures c <= 0 <==> exists k :: k in m && key <= k < s.meta[a].high
    ensures c <= 0 ==> (pos[d] == 0 <==> !exists k :: k in m && s.meta[a].low <= k < key)
  {
    var b := path[d];
    var p := s.pages[b];
    if a != b { assert Disjoint(s, a, b); }
    assert PageOk(s, b);
    StopsAtNearest(s, root, path, pos, d, key, c, m);
    if c <= 0 {
      assert p.keys[pos[d]] in m && key <= p.keys[pos[d]] < s.meta[b].high;
      if pos[d] > 0 { assert p.keys[0] in m && s.meta[b].low <= p.keys[0] < key; }
      forall k | k in m && s.meta[b].low <= k < key ensures pos[d] > 0 {
        CoveringLeafDecides(s, root, b, k, m);
      }
    }
  }

  lemma AscendingFirst(keys: seq<int>, i: int)
    requires Ascending(keys)
    ensures 0 <= i < |keys| ==> (keys[0] == keys[i] <==> i == 0)
  {
  }

  /** A leaf below the root has at least seven entries, so an index with fewer is one leaf. */
  lemma SmallIsOneLeaf(s: Shape, root: int, max: nat, m: map<int, int>, a: int, x: int, y: int)
    requires Ok(s, root) && Represents(s.pages, m) && Filled(s.pages, root, max, NULL) && max >= 14
    requires 0 <= a < |s.pages| && s.pages[a].leaf && forall k :: k in m ==> k == x || k == y
    ensures a == root && s.meta[a].low == 0 && s.meta[a].high == s.bound
  {
    assert PageOk(s, a);
    var p := s.pages[a];
    if a != root {
      assert p.keys[0] < p.keys[1] < p.keys[2];
      CoveringLeafDecides(s, root, a, p.keys[0], m);
    }
  }

  /** The first split of an index keeps its entries. */
  lemma FirstSplitEntries(s: Shape, p: Page, n: nat, m: map<int, int>)
    requires p.leaf && n < |p.keys| == |p.ptrs| && Represents([p], m)
    ensures Represents(FirstSplit(s, p, n).pages, m)
  {
    var l, r := Page(true, p.keys[..n], p.ptrs[..n]), Page(true, p.keys[n..], p.ptrs[n..]);
    forall k, v ensures At([p][0], k, v) <==> At(l, k, v) || At(r, k, v) {
      SplitAt(p, n, k, v);
    }
    ContentsMove([p], 0, l, r, m);
    ContentsKept([p][0 := l] + [r], FirstSplit(s, p, n).pages, m);
  }

  /** Splitting the only page of a valid index under a new root. */
  lemma FirstSplitSound(s: Shape, root: int, max: nat, m: map<int, int>)
    requires Ok(s, root) && Represents(s.pages, m) && s.pages[root].leaf && max >= 14
    requires |s.pages[root].keys| == |s.pages[root].ptrs| == max
    ensures root == 0 && |s.pages| == 1 && |UpperHalf(s.pages[0]).keys| > 0
    ensures var p := s.pages[0];
      var t := FirstSplit(s, p, max / 2);
      && t.pages == s.pages[0 := LowerHalf(p, 1)] + [UpperHalf(p)] + [Page(false, [UpperHalf(p).keys[0]], [0, 1])]
      && t.bound == s.bound && Ok(t, 2) && Represents(t.pages, m) && Filled(t.pages, 2, max, NULL)
  {
    var p := s.pages[0];
    assert PageOk(s, root);
    RootLeafSplits(s, p, max / 2);
    assert s.pages == [p];
    FirstSplitEntries(s, p, max / 2, m);
  }

  /** After the first split, a search for any key between the two leaves fails although the
      right leaf has entries from that key upward. */
  lemma EndOfLeafFails(s: Shape, p: Page, n: nat, m: map<int, int>, key: int,
                       path: seq<int>, pos: seq<int>, d: nat, c: int)
    requires p.leaf && 0 < n < |p.keys| == |p.ptrs| && Ascending(p.keys) && Represents([p], m)
    requires (forall i :: 0 <= i < |p.keys| ==> 0 <= p.keys[i] < s.bound) && p.keys[n - 1] < key < p.keys[n]
    requires Found(FirstSplit(s, p, n), path, pos, d, key, c, m)
    ensures Ok(FirstSplit(s, p, n), 2) && Represents(FirstSplit(s, p, n).pages, m)
    ensures c > 0 && p.keys[n] in m
  {
    hide Ok, Represents, Found, Filled;
    var t := FirstSplit(s, p, n);
    RootLeafSplits(s, p, n);
    FirstSplitEntries(s, p, n, m);
    assert Owns(t, 0, key);
    StopsExactly(t, 2, path, pos, d, key, c, m, 0);
    NothingInGap(t, p, n, m, key);
  }

  lemma NothingInGap(t: Shape, p: Page, n: nat, m: map<int, int>, key: int)
    requires 0 < n < |p.keys| == |p.ptrs| && Ascending(p.keys) && p.leaf && Represents([p], m)
    requires p.keys[n - 1] < key < p.keys[n]
    ensures p.keys[n] in m && forall k :: k in m && key <= k ==> p.keys[n] <= k
  {
    assert At([p][0], p.keys[n], p.ptrs[n]);
    assert Has([p], p.keys[n], p.ptrs[n]);
    forall k | k in m && key <= k ensures p.keys[n] <= k {
      assert Has([p], k, m[k]);
      var i :| 0 <= i < |p.keys| && p.keys[i] == k;
    }
  }

  /** Fourteen keys, 2 to 28, which is when the first split comes if MAX is 14: 15 lies
      between the leaves, and the search for it fails although 16 is stored. */
  lemma FifteenFails(s: Shape, p: Page, m: map<int, int>)
    requires s.bound == 256 && p.leaf && |p.keys| == |p.ptrs| == 14
    requires forall i :: 0 <= i < 14 ==> p.keys[i] == 2 * i + 2 && p.ptrs[i] == i
    requires m == map k | 0 < k < 30 && k % 2 == 0 :: k / 2 - 1
    ensures Ok(FirstSplit(s, p, 7), 2) && Filled(FirstSplit(s, p, 7).pages, 2, 14, NULL)
    ensures Represents(FirstSplit(s, p, 7).pages, m) && 16 in m
    ensures Found(FirstSplit(s, p, 7), [2, 0], [0, 7], 1, 15, 1, m)
  {
    hide Ok, Represents;
    assert p.keys[7] == 16;
    RootLeafSplits(s, p, 7);
    Evens(p, m);
    FirstSplitEntries(s, p, 7, m);
    var t := FirstSplit(s, p, 7);
    assert Closed(t) && Trail(t, [2, 0], [0, 7], 0, 15);
    assert Step(t, 2, 0, 0, 15);
  }

  lemma Evens(p: Page, m: map<int, int>)
    requires p.leaf && |p.keys| == |p.ptrs| == 14
    requires forall i :: 0 <= i < 14 ==> p.keys[i] == 2 * i + 2 && p.ptrs[i] == i
    requires m == map k | 0 < k < 30 && k % 2 == 0 :: k / 2 - 1
    ensures Represents([p], m)
  {
    forall k, r ensures Has([p], k, r) <==> k in m && m[k] == r {
      if k in m && m[k] == r {
        assert p.keys[r] == k && p.ptrs[r] == r;
        assert At([p][0], k, r);
      }
    }
  }

  /** `ks` and `rs` are entries of `m` in ascending order. */
  ghost predicate Scanned(ks: seq<int>, rs: seq<int>, m: map<int, int>) {
    && Ascending(ks) && |rs| == |ks|
    && forall i :: 0 <= i < |ks| ==> ks[i] in m && rs[i] == m[ks[i]]
  }

  /** The keys of `m` below `k` are exactly those in `ks`. */
  ghost predicate Ahead(ks: seq<int>, k: int, m: map<int, int>) {
    forall x :: x in ks <==> x in m && x < k
  }

  lemma ScanFirst(k: int, m: map<int, int>)
    requires k in m && forall x :: x in m ==> k <= x
    ensures Ahead([], k, m) && Scanned([], [], m)
  {
  }

  lemma ScanStep(ks: seq<int>, rs: seq<int>, k: int, m: map<int, int>)
    requires Scanned(ks, rs, m) && Ahead(ks, k, m) && k in m
    ensures Scanned(ks + [k], rs + [m[k]], m) && k !in ks
    ensures forall k' :: Succeeds(m, k, k') ==> Ahead(ks + [k], k', m)
    ensures IsLast(m, k) ==> forall x :: x in m ==> x in ks + [k]
  {
    forall i | 0 <= i < |ks| ensures ks[i] < k {
      assert ks[i] in ks;
    }
  }

  lemma ScanEnd(ks: seq<int>, rs: seq<int>, m: map<int, int>)
    requires Scanned(ks, rs, m) && forall x :: x in m ==> x in ks
    ensures Ascending(ks) && (forall k :: k in ks <==> k in m)
    ensures |rs| == |ks| && forall i :: 0 <= i < |ks| ==> ks[i] in m && rs[i] == m[ks[i]]
  {
  }

  class Index {
    const keylen: nat
    const ptrSize: nat
    const bound: int
    const max: nat
    var pages: seq<PageBuf>
    var root: int
    var path: seq<int>
    var pos: seq<int>

    /** Every page as a value, the ghost part of the graph, and the stored entries. */
    ghost var view: seq<Page>
    ghost var meta: seq<Meta>
    ghost var Contents: map<int, int>

    /** The pages and their buffers. */
    ghost var Repr: set<object>

    ghost function Graph(): Shape
      reads this`view, this`meta
    {
      Shape(view, meta, bound)
    }

    /** The pages are separate objects and `view` is what they hold. */
    ghost predicate HeapOk()
      reads this`pages, this`view, this`Repr, Repr
    {
      && 1 <= keylen <= 256 && (ptrSize == 4 || ptrSize == 8) && bound > 0
      && max == MaxItems(keylen, ptrSize)
      && |view| == |pages|
      && this !in Repr
      && (forall i {:trigger pages[i]} :: 0 <= i < |pages| ==>
            && pages[i] in Repr && pages[i].buf in Repr
            && pages[i].n <= pages[i].buf.Length == Capacity(keylen, ptrSize)
            && pages[i].View() == view[i])
      && (forall i, j :: 0 <= i < j < |pages| ==> pages[i] != pages[j] && pages[i].buf != pages[j].buf)
    }

    ghost predicate Valid()
      reads this`pages, this`view, this`meta, this`root, this`Contents, this`Repr, Repr
    {
      && HeapOk()
      && Ok(Graph(), root)
      && Filled(view, root, max, NULL)
      && Represents(view, Contents)
    }

    constructor (keylen: nat, ptrSize: nat, bound: int)
      requires 1 <= keylen <= 256 && (ptrSize == 4 || ptrSize == 8) && bound > 0
      ensures Valid() && Contents == map[] && fresh(Repr)
      ensures this.keylen == keylen && this.ptrSize == ptrSize && this.bound == bound
    {
      FullPageFits(keylen, ptrSize);
      this.keylen, this.ptrSize, this.bound := keylen, ptrSize, bound;
      max := MaxItems(keylen, ptrSize);
      var p := new PageBuf(true, Capacity(keylen, ptrSize));
      pages, root, path, pos, Repr := [p], 0, [], [], {p, p.buf};
      view, meta, Contents := [Page(true, [], [])], [Meta(0, bound, 0, 0, NULL)], map[];
      new;
      assert PageOk(Graph(), 0);
    }

    // ---- Search ----

    /** A search under way: `path` is the trail of `key` from the root. */
    ghost predicate Searching(key: int)
      reads this`view, this`meta, this`root, this`path, this`pos
    {
      |path| == |pos| > 0 && path[0] == root && Trail(Graph(), path, pos, |path| - 1, key)
    }

    ghost predicate Located(key: int, c: int)
      reads this`view, this`meta, this`root, this`path, this`pos, this`Contents
    {
      |path| == |pos| > 0 && path[0] == root && Found(Graph(), path, pos, |path| - 1, key, c, Contents)
    }

    /** The loop of memfh_idx_search_page: the first slot above `key`, or in a leaf not
        below it, and how the key compares with it. */
    method Probe(a: int, key: int) returns (leaf: bool, i: nat, c: int, next: int)
      requires HeapOk() && 0 <= a < |pages|
      ensures leaf == view[a].leaf && Probed(view[a], key, i, c)
      ensures !leaf ==> i < |view[a].ptrs| && next == view[a].ptrs[i]
    {
      var page := pages[a];
      ghost var p := view[a];
      leaf, c, i, next := page.leaf, 1, 0, page.next;
      while i < page.n
        invariant 0 <= i <= page.n
        invariant forall j :: 0 <= j < i ==> p.keys[j] <= key && (p.leaf ==> p.keys[j] < key)
        invariant p.leaf ==> c > 0
        invariant c >= 0
      {
        assert page.buf[i].key == p.keys[i];
        c := if key < page.buf[i].key then -1 else if key == page.buf[i].key then 0 else 1;
        if c < 0 || (c == 0 && page.leaf) {
          next := page.buf[i].ptr;
          return;
        }
        i := i + 1;
      }
    }

    /** memfh_idx_search_page: looks up the page at the end of `path` and goes down from
        a branch, by a slot or by `next`, until a leaf is reached. */
    method SearchPage(key: int) returns (c: int)
      requires Valid() && 0 <= key < bound && Searching(key)
      modifies this`path, this`pos
      ensures Located(key, c)
      decreases meta[path[|path| - 1]].h
    {
      var d := |path| - 1;
      ghost var s := Graph();
      var leaf, i, next;
      leaf, i, c, next := Probe(path[d], key);
      if leaf {
        LeafAnswers(s, root, path, pos, d, key, Contents, i, c);
        pos := pos[d := i];
      } else {
        TrailGrows(s, root, path, pos, d, key, i);
        path, pos := path + [next], pos[d := i] + [0];
        c := SearchPage(key);
      }
    }

    /** memfh_idx_search. */
    method Search(key: int) returns (c: int)
      requires Valid() && 0 <= key < bound
      modifies this`path, this`pos
      ensures Located(key, c) && (c == 0 <==> key in Contents)
      ensures |path| == |pos| > 0 && path[0] == root && 0 <= path[|path| - 1] < |pages|
    {
      path, pos := [root], [0];
      assert PageOk(Graph(), root);
      c := SearchPage(key);
    }

    /** The record pointer at the entry where a search stopped. */
    method FoundPtr(ghost key: int, c: int) returns (rec: int)
      requires Valid() && Located(key, c) && c == 0
      ensures key in Contents && rec == Contents[key]
    {
      var d := |path| - 1;
      assert pages[path[d]].View() == view[path[d]];
      rec := pages[path[d]].buf[pos[d]].ptr;
    }

    // ---- Changes to single pages ----

    /** Adds an entry to leaf `a` at position `i` (memfh_idx.c:409-420). */
    method PutEntry(a: int, i: nat, key: int, rec: int)
      requires HeapOk() && 0 <= a < |pages| && view[a].leaf && i <= |view[a].keys| < Capacity(keylen, ptrSize)
      modifies this`view, pages[a], pages[a].buf
      ensures HeapOk()
      ensures var p := old(view)[a];
              view == old(view)[a := Page(true, Inserted(p.keys, i, key), Inserted(p.ptrs, i, rec))]
    {
      ghost var p, was := view[a], pages[a].buf[..pages[a].n];
      pages[a].InsertAt(i, Slot(key, rec));
      ghost var q := Page(true, Inserted(p.keys, i, key), Inserted(p.ptrs, i, rec));
      assert pages[a].View() == q by {
        assert pages[a].View().keys == q.keys;
        assert pages[a].View().ptrs == q.ptrs;
      }
      view := view[a := q];
    }

    /** Links page `b` into branch `g` beside its child `a` (memfh_idx.c:316-349). */
    method PutLink(g: int, a: int, b: int, ghost i: nat)
      requires HeapOk() && 0 <= g < |pages| && 0 <= b < |pages| && g != b
      requires !view[g].leaf && |view[g].keys| < Capacity(keylen, ptrSize) && |view[b].keys| > 0
      requires i < |view[g].ptrs| && view[g].ptrs[i] == a && Distinct(view[g].ptrs)
      modifies this`view, pages[g], pages[g].buf
      ensures HeapOk()
      ensures |old(view)[g].ptrs| == |old(view)[g].keys| + 1
      ensures view == old(view)[g := Linked(old(view)[g], i, old(view)[b].keys[0], b)]
    {
      assert pages[b].View() == view[b] && pages[g].View() == view[g];
      var m := pages[b].buf[0].key;
      assert m == view[b].keys[0];
      pages[g].AddLink(a, b, m, i);
      view := view[g := Linked(view[g], i, m, b)];
    }

    /** Adds a newly allocated page to the list. */
    method Append(q: PageBuf)
      requires HeapOk() && q !in Repr && q.buf !in Repr && this !in {q as object, q.buf}
      requires q.n <= q.buf.Length == Capacity(keylen, ptrSize)
      modifies this`view, this`pages, this`Repr
      ensures HeapOk() && pages == old(pages) + [q] && Repr == old(Repr) + {q, q.buf}
      ensures view == old(view) + [q.View()]
    {
      pages, view, Repr := pages + [q], view + [q.View()], Repr + {q, q.buf};
    }

    /** Moves the upper half of page `a` to a new page; a branch is linked to it through
        `next` (memfh_idx.c:353-372 and 427-444). */
    method SplitPage(a: int)
      requires HeapOk() && 0 <= a < |pages| && |view[a].keys| > 0
      modifies this`view, this`pages, this`Repr, pages[a]
      ensures HeapOk() && |pages| == |old(pages)| + 1 && fresh(Repr - old(Repr))
      ensures |old(view)[a].keys| <= |old(view)[a].ptrs|
      ensures view == old(view)[a := LowerHalf(old(view)[a], |old(view)|)] + [UpperHalf(old(view)[a])]
    {
      assert pages[a].View() == view[a];
      ghost var l := LowerHalf(view[a], |view|);
      var q := pages[a].Split(|pages|);
      view := view[a := l];
      Append(q);
    }

    /** Makes a new root with links to `a` and `b` (memfh_idx.c:377-386 and 449-458). */
    method PutRoot(a: int, b: int)
      requires HeapOk() && 0 <= b < |pages| && |view[b].keys| > 0
      modifies this`view, this`pages, this`Repr, this`root
      ensures HeapOk() && |pages| == |old(pages)| + 1 && fresh(Repr - old(Repr))
      ensures root == |old(view)| && view == old(view) + [Page(false, [old(view)[b].keys[0]], [a, b])]
    {
      assert pages[b].View() == view[b];
      FullPageFits(keylen, ptrSize);
      var m := pages[b].buf[0].key;
      assert m == view[b].keys[0];
      var r := new PageBuf(false, Capacity(keylen, ptrSize));
      r.SetRoot(m, a, b);
      root := |pages|;
      Append(r);
    }

    // ---- Insertion ----

    /** Links page `b` into branch `path[d]`; the branch may be full afterwards. */
    method LinkStep(d: nat, b: int, ghost key: int)
      requires HeapOk() && max >= 14 && d + 1 < |path| == |pos| && path[0] == root && 0 <= path[d] < |pages|
      requires LinkReady(Graph(), root, path, pos, d, b, key)
      requires Filled(view, root, max, NULL) && Represents(view, Contents)
      modifies this`view, pages[path[d]], pages[path[d]].buf
      ensures HeapOk() && Closed(Graph()) && Ok(Graph(), root) && Represents(view, Contents)
      ensures Trail(Graph(), path, pos, d, key) && Ranked(meta, path, d)
      ensures 0 <= path[d] < |pages| && !view[path[d]].leaf && Filled(view, root, max, path[d])
      ensures d > 0 ==> path[d] != root && 0 <= path[d - 1] < |pages|
    {
      var g := path[d];
      ghost var s := Graph();
      LinkedTrail(s, root, path, pos, d, b, key);
      PutLink(g, path[d + 1], b, pos[d]);
      assert Graph() == LinkIn(s, g, pos[d], b);
      ContentsKept(s.pages, view, Contents);
    }

    /** Splits branch `g`. */
    method SplitBranch(g: int)
      requires HeapOk() && Closed(Graph()) && 0 <= g < |pages| && !view[g].leaf && |view[g].keys| > 1
      modifies this`pages, this`view, this`meta, this`Repr, pages[g]
      ensures HeapOk() && |pages| == |old(pages)| + 1 && fresh(Repr - old(Repr))
      ensures Graph() == BranchSplit(old(Graph()), g, |old(view)[g].keys| / 2)
    {
      ghost var s := Graph();
      BranchHalves(s, g);
      SplitPage(g);
      meta := BranchSplit(s, g, |s.pages[g].keys| / 2).meta;
    }

    /** Makes a new root above branch `g`, the old root, and `b`. */
    method GrowRoot(g: int, b: int)
      requires HeapOk() && Closed(Graph()) && 0 <= g < |pages| && 0 <= b < |pages| && |view[b].keys| > 0
      modifies this`pages, this`view, this`meta, this`Repr, this`root
      ensures HeapOk() && |pages| == |old(pages)| + 1 && fresh(Repr - old(Repr))
      ensures root == |old(view)| && Graph() == Grown(old(Graph()), g, b, old(view)[b].keys[0])
    {
      ghost var s := Graph();
      PutRoot(g, b);
      meta := Grown(s, g, b, s.pages[b].keys[0]).meta;
    }

    /** Splits the full root and puts a new root above the halves. */
    method SplitRoot()
      requires HeapOk() && max >= 14 && 0 <= root < |pages| && Closed(Graph())
      requires Ok(Graph(), root) && Represents(view, Contents)
      requires !view[root].leaf && Filled(view, root, max, root) && |view[root].keys| == max
      modifies this`pages, this`view, this`meta, this`Repr, this`root, pages[root]
      ensures Valid() && fresh(Repr - old(Repr))
    {
      hide Ok, Represents, Filled, BranchSplit, Grown, Closed;
      GrowSound(Graph(), root, max, Contents);
      SplitBranch(root);
      GrowRoot(root, |pages| - 1);
    }

    /** Splits the full branch `path[d]` below the root; its parent is to be told. */
    method SplitInner(d: nat, ghost key: int)
      requires HeapOk() && max >= 14 && 0 < d < |path| == |pos| && path[0] == root
      requires Closed(Graph()) && Ok(Graph(), root) && Represents(view, Contents)
      requires Trail(Graph(), path, pos, d, key) && Ranked(meta, path, d)
      requires 0 <= path[d] < |pages| && !view[path[d]].leaf && path[d] != root && 0 <= path[d - 1] < |pages|
      requires Filled(view, root, max, path[d]) && |view[path[d]].keys| == max
      modifies this`pages, this`view, this`meta, this`Repr, pages[path[d]]
      ensures HeapOk() && fresh(Repr - old(Repr))
      ensures |pages| > |old(pages)| && LinkReady(Graph(), root, path, pos, d - 1, |pages| - 1, key)
      ensures Filled(view, root, max, NULL) && Represents(view, Contents)
    {
      hide LinkReady, Ok, Represents, Ranked, Trail, Filled, Closed, BranchSplit;
      ghost var s := Graph();
      SplitSound(s, root, path[d], max, Contents);
      ClimbOn(s, root, path, pos, d, max / 2, key);
      SplitBranch(path[d]);
    }

    /** memfh_idx_insert_parent: links page `b` into the branch `path[d]` and, when that
        branch is full, splits it and climbs on. */
    method InsertParent(d: nat, b: int, ghost key: int)
      requires HeapOk() && max >= 14 && d + 1 < |path| == |pos| && path[0] == root && 0 <= path[d] < |pages|
      requires LinkReady(Graph(), root, path, pos, d, b, key)
      requires Filled(view, root, max, NULL) && Represents(view, Contents)
      modifies this`pages, this`view, this`meta, this`Repr, this`root, Repr
      ensures Valid() && fresh(Repr - old(Repr))
      decreases d
    {
      hide LinkReady, Ok, Represents, Ranked, Trail;
      LinkStep(d, b, key);
      var g := path[d];
      assert pages[g].View() == view[g];
      if pages[g].n >= max {
        if d == 0 {
          SplitRoot();
        } else {
          SplitInner(d, key);
          InsertParent(d - 1, |pages| - 1, key);
        }
      }
    }

    /** The only page, a leaf, is full: it is split under a new root. */
    method SplitFirst()
      requires HeapOk() && max >= 14 && Ok(Graph(), root) && view[root].leaf
      requires |view[root].keys| == |view[root].ptrs| == max && Filled(view, root, max, root)
      requires Represents(view, Contents)
      modifies this`pages, this`view, this`meta, this`Repr, this`root, pages[root]
      ensures Valid() && fresh(Repr - old(Repr))
    {
      hide Ok, Represents, Filled, LowerHalf, UpperHalf, FirstSplit;
      ghost var s := Graph();
      FirstSplitSound(s, root, max, Contents);
      ghost var p := view[0];
      SplitPage(root);
      PutRoot(root, |pages| - 1);
      meta := FirstSplit(s, p, max / 2).meta;
    }

    /** The full leaf `path[d]`, whose graph without the newest entry is `s`, is split. */
    method SplitLeaf(d: nat, ghost s: Shape, ghost p: Page, ghost key: int)
      requires HeapOk() && max >= 14 && 0 < d < |path| == |pos| && path[0] == root && 0 <= path[d] < |pages|
      requires Full(s, p, d, key) && |p.keys| == |p.ptrs| == max && p.leaf && view[path[d]] == p
      requires |s.pages| == |s.meta| == |pages|
      requires Filled(view, root, max, path[d]) && Represents(view, Contents)
      modifies this`pages, this`view, this`meta, this`Repr, pages[path[d]]
      ensures HeapOk() && fresh(Repr - old(Repr)) && |pages| > |old(pages)|
      ensures 0 <= path[d - 1] < |pages| && LinkReady(Graph(), root, path, pos, d - 1, |pages| - 1, key)
      ensures Filled(view, root, max, NULL) && Represents(view, Contents)
    {
      hide Ok, Represents, Trail, LinkReady, Filled, Ascending, LowerHalf, UpperHalf;
      ghost var t := LeafSplitAlone(s, path[d], path[d - 1], p, max / 2);
      LeafSplitSound(s, root, path, pos, d, p, max, Contents, key);
      SplitPage(path[d]);
      meta := t.meta;
    }

    /** Adds an absent key to the leaf where the search stopped; the leaf may be full
        afterwards. Returns the graph before and the leaf after. */
    method AddEntry(key: int, c: int, rec: int) returns (ghost s: Shape, ghost p: Page)
      requires Valid() && |path| > 0 && 0 <= path[|path| - 1] < |pages| && Located(key, c) && c != 0 && max >= 14
      modifies this`view, this`Contents, pages[path[|path| - 1]], pages[path[|path| - 1]].buf
      ensures Contents == old(Contents)[key := rec]
      ensures HeapOk() && Ok(Graph(), root) && Represents(view, Contents)
      ensures Full(s, p, |path| - 1, key) && Filled(view, root, max, path[|path| - 1])
      ensures 0 <= path[|path| - 1] < |pages| && view[path[|path| - 1]] == p && p.leaf
      ensures |p.keys| < max ==> Filled(view, root, max, NULL)
      ensures |p.keys| == |p.ptrs| == pages[path[|path| - 1]].n <= max && |s.pages| == |s.meta| == |pages|
    {
      hide Represents, Ascending, Trail, At;
      var d := |path| - 1;
      s := Graph();
      p := WithEntry(view[path[d]], pos[d], key, rec);
      EntrySound(s, root, path, pos, d, key, c, rec, max, Contents);
      PutEntry(path[d], pos[d], key, rec);
      Contents := Contents[key := rec];
      assert pages[path[d]].View() == view[path[d]];
    }

    /** Leaf `path[d]` has become `p`; without its newest entry the graph is `s`. */
    ghost predicate Full(s: Shape, p: Page, d: nat, key: int)
      reads this`pages, this`view, this`meta, this`root, this`path, this`pos
    {
      && d < |path| == |pos| && path[0] == root && 0 <= path[d] < |pages| == |view|
      && Ok(s, root) && Trail(s, path, pos, d, key) && s.pages[path[d]].leaf
      && s.meta == meta && s.bound == bound && view == s.pages[path[d] := p]
      && p.leaf && |p.keys| == |p.ptrs| && Ascending(p.keys)
      && (forall i :: 0 <= i < |p.keys| ==> s.meta[path[d]].low <= p.keys[i] < s.meta[path[d]].high)
    }

    /** memfh_idx_write: adds a record under a new key. The program stops when the key is
        already there; here that is reported and nothing changes. */
    method Write(key: int, rec: int) returns (ok: bool)
      requires Valid() && 0 <= key < bound
      modifies this`pages, this`view, this`meta, this`Repr, this`root, this`path, this`pos, this`Contents, Repr
      ensures Valid() && fresh(Repr - old(Repr))
      ensures ok <==> key !in old(Contents)
      ensures Contents == if ok then old(Contents)[key := rec] else old(Contents)
    {
      hide Ok, Represents, Trail, Found, Ascending, LinkReady, Full, Located, Filled;
      FullPageFits(keylen, ptrSize);
      var c := Search(key);
      if c == 0 {
        return false;
      }
      ok := true;
      var d := |path| - 1;
      ghost var s, p := AddEntry(key, c, rec);
      if pages[path[d]].n >= max {
        if d == 0 {
          SplitFirst();
        } else {
          SplitLeaf(d, s, p, key);
          InsertParent(d - 1, |pages| - 1, key);
        }
      }
    }

    // ---- Scan ----

    /** The first `d` levels of the path lead to page `a`: the last of them is a branch
        that refers to it, or there is none and it is the root. */
    ghost predicate Leads(d: nat, a: int)
      reads this`view, this`root, this`path, this`pos
    {
      && d <= |path| == |pos|
      && (d == 0 ==> a == root)
      && (d > 0 ==>
            var g, i := path[d - 1], pos[d - 1];
            0 <= g < |view| && !view[g].leaf && 0 <= i < |view[g].ptrs| && view[g].ptrs[i] == a)
    }

    /** The scan stands at an entry of a leaf, with the leaf's parent before it. */
    ghost predicate AtEntry()
      reads this`view, this`root, this`path, this`pos
    {
      && |path| == |pos| > 0
      && var d := |path| - 1;
         && 0 <= path[d] < |view| && view[path[d]].leaf && 0 <= pos[d] < |view[path[d]].keys|
         && |view[path[d]].ptrs| == |view[path[d]].keys|
         && Leads(d, path[d])
    }

    ghost function CurrentKey(): int
      requires AtEntry()
      reads this`view, this`root, this`path, this`pos
    {
      view[path[|path| - 1]].keys[pos[|path| - 1]]
    }

    /** Extends the path by first links from page `a` to a leaf (memfh_idx.c:32-39, 77-90). */
    method DescendFirst(a: int)
      requires Valid() && 0 <= a < |view| && Leads(|path|, a)
      modifies this`path, this`pos
      ensures |path| == |pos| > 0 && path[|path| - 1] == meta[a].lm && pos[|pos| - 1] == 0
      ensures Leads(|path| - 1, meta[a].lm)
      decreases meta[a].h
    {
      hide Represents, Filled;
      assert PageOk(Graph(), a);
      path, pos := path + [a], pos + [0];
      if !pages[a].leaf {
        assert EdgeOk(Graph(), a, 0);
        assert pages[a].View() == view[a];
        DescendFirst(pages[a].buf[0].ptr);
      }
    }

    /** memfh_idx_first: goes to the lowest stored key, if any. */
    method First() returns (ok: bool)
      requires Valid()
      modifies this`path, this`pos
      ensures ok <==> Contents != map[]
      ensures ok ==> AtEntry() && CurrentKey() in Contents && forall k :: k in Contents ==> CurrentKey() <= k
    {
      hide Represents, Ascending;
      FullPageFits(keylen, ptrSize);
      ghost var s := Graph();
      assert PageOk(s, root);
      assert pages[root].View() == view[root];
      if pages[root].n == 0 {
        EmptyRoot(s, root, Contents);
        return false;
      }
      path, pos := [], [];
      DescendFirst(root);
      ghost var a := meta[root].lm;
      assert PageOk(s, a);
      NothingBelow(s, root, a, Contents);
      CoveringLeafDecides(s, root, a, view[a].keys[0], Contents);
      ok := true;
    }

    /** memfh_idx_next: goes to the next stored key, if any. At the end of a leaf only the
        leaf's parent is consulted; the path never goes further up. */
    method Next() returns (ok: bool)
      requires Valid() && AtEntry()
      modifies this`path, this`pos
      ensures ok ==> AtEntry() && Succeeds(Contents, old(CurrentKey()), CurrentKey())
      ensures !ok ==> IsLast(Contents, old(CurrentKey()))
    {
      hide Represents, Filled;
      FullPageFits(keylen, ptrSize);
      ghost var s := Graph();
      var d := |path| - 1;
      var a := path[d];
      assert pages[a].View() == view[a];
      if pos[d] < pages[a].n - 1 {
        NextInLeaf(s, root, a, pos[d], Contents);
        pos := pos[d := pos[d] + 1];
        return true;
      }
      if d == 0 {
        NothingAbove(s, root, a, Contents);
        return false;
      }
      NextAcross(s, root, a, path[d - 1], pos[d - 1], max, Contents);
      ok := AdvanceParent();
    }

    /** Leaves the leaf at the end of the path for the next child of its parent. */
    method AdvanceParent() returns (ok: bool)
      requires Valid() && |path| > 1 && AtEntry()
      modifies this`path, this`pos
      ensures var d := |old(path)| - 2;
              var g, i := view[old(path)[d]], old(pos)[d];
              && (ok <==> i < |g.keys|)
              && (ok ==>
                    && 0 <= i + 1 < |g.ptrs| && 0 <= g.ptrs[i + 1] < |meta| && |path| == |pos| > 0
                    && path[|path| - 1] == meta[g.ptrs[i + 1]].lm && pos[|path| - 1] == 0
                    && Leads(|path| - 1, path[|path| - 1]))
    {
      hide Represents, Filled;
      var d := |path| - 2;
      var g := path[d];
      assert pages[g].View() == view[g];
      path, pos := path[..d + 1], pos[..d + 1];
      if pos[d] < pages[g].n {
        var i := pos[d] + 1;
        var child := if i == pages[g].n then pages[g].next else pages[g].buf[i].ptr;
        pos := pos[d := i];
        assert child == view[g].ptrs[i];
        DescendFirst(child);
        return true;
      } else {
        return false;
      }
    }

    /** The key and the record of the entry the scan stands at. */
    method Current() returns (key: int, rec: int)
      requires Valid() && AtEntry()
      ensures key == CurrentKey() && key in Contents && rec == Contents[key]
    {
      var d := |path| - 1;
      assert pages[path[d]].View() == view[path[d]];
      var slot := pages[path[d]].buf[pos[d]];
      key, rec := slot.key, slot.ptr;
      assert PageOk(Graph(), path[d]);
      CoveringLeafDecides(Graph(), root, path[d], CurrentKey(), Contents);
    }

    /** A search, and where it leaves the scan. */
    method SearchLeaf(key: int) returns (c: int)
      requires Valid() && 0 <= key < bound
      modifies this`path, this`pos
      ensures Located(key, c) && |path| == |pos| > 0 && Owns(Graph(), path[|path| - 1], key)
      ensures Ascending(view[path[|path| - 1]].keys)
      ensures c <= 0 ==> AtEntry()
    {
      hide Represents, Filled, Ascending, Disjoint;
      c := Search(key);
      assert PageOk(Graph(), path[|path| - 1]);
    }

    /** The search of memfh_start and the record it then takes. It succeeds exactly when the
        leaf that owns the key has an entry from the key upward, even if later leaves have
        one. The scan then stands at the nearest such entry; but the record is that of the
        leaf's first slot, which is the same entry exactly when the leaf has none below. */
    method Start(key: int) returns (ok: bool, rec: int)
      requires Valid() && 0 <= key < bound
      modifies this`path, this`pos
      ensures |path| == |pos| > 0 && Owns(Graph(), path[|path| - 1], key)
      ensures ok ==> AtEntry() && CurrentKey() in Contents && key <= CurrentKey()
                     && forall k :: k in Contents && key <= k ==> CurrentKey() <= k
      ensures forall a :: Owns(Graph(), a, key) ==>
                && (ok <==> exists k :: k in Contents && key <= k < meta[a].high)
                && (ok ==> |view[a].keys| > 0 && view[a].keys[0] in Contents && rec == Contents[view[a].keys[0]]
                           && (view[a].keys[0] == CurrentKey() <==>
                               !exists k :: k in Contents && meta[a].low <= k < key))
      ensures (forall k :: k in Contents ==> key <= k) ==>
                && (ok <==> Contents != map[])
                && (ok ==> AtEntry() && CurrentKey() in Contents && rec == Contents[CurrentKey()]
                           && forall k :: k in Contents ==> CurrentKey() <= k)
    {
      hide Represents, Filled, Ascending, Disjoint, Ok, Found, Leads;
      FullPageFits(keylen, ptrSize);
      var c := SearchLeaf(key);
      var d := |path| - 1;
      var a := path[d];
      ok, rec := c <= 0, NULL;
      ghost var s := Graph();
      StopsAtNearest(s, root, path, pos, d, key, c, Contents);
      assert pages[a].View() == view[a];
      AscendingFirst(view[a].keys, pos[d]);
      forall b | Owns(s, b, key)
        ensures b == a && (ok <==> exists k :: k in Contents && key <= k < meta[b].high)
        ensures ok ==> (pos[d] == 0 <==> !exists k :: k in Contents && meta[b].low <= k < key)
      {
        StopsExactly(s, root, path, pos, d, key, c, Contents, b);
      }
      if c <= 0 {
        rec := pages[a].buf[0].ptr;
      }
      if forall k :: k in Contents ==> key <= k {
        StartSound(s, root, path, pos, d, key, c, max, Contents);
      }
    }

    /** memfh_idx_list_k: a full scan visits every entry exactly once, in ascending order. */
    method ScanAll() returns (ks: seq<int>, rs: seq<int>)
      requires Valid()
      modifies this`path, this`pos
      ensures Ascending(ks) && (forall k :: k in ks <==> k in Contents)
      ensures |rs| == |ks| && forall i :: 0 <= i < |ks| ==> ks[i] in Contents && rs[i] == Contents[ks[i]]
    {
      hide Ok, Filled, Represents, Scanned, Ahead;
      ks, rs := [], [];
      var more := First();
      if !more {
        return;
      }
      ScanFirst(CurrentKey(), Contents);
      while more
        invariant Valid()
        invariant more ==> AtEntry() && CurrentKey() in Contents && Ahead(ks, CurrentKey(), Contents)
        invariant Scanned(ks, rs, Contents)
        invariant !more ==> forall k :: k in Contents ==> k in ks
        decreases if more then Contents.Keys - (set k | k in ks) else {}, more
      {
        var key, rec := Current();
        ScanStep(ks, rs, key, Contents);
        ks, rs := ks + [key], rs + [rec];
        more := Next();
      }
      ScanEnd(ks, rs, Contents);
    }
  }

  /** An index with the keys 1 and 3: START from 3 stands at 3 but returns the record of 1. */
  method StartReturnsAnother(ptrSize: nat) returns (ok: bool, rec: int, ghost at: int)
    requires ptrSize == 4 || ptrSize == 8
    ensures ok && rec == 10 && at == 3
  {
    hide Ok, Represents, Filled;
    var x := new Index(1, ptrSize, 256);
    var first := x.Write(1, 10);
    var second := x.Write(3, 30);
    ok, rec := x.Start(3);
    FullPageFits(1, ptrSize);
    ghost var a := x.path[|x.path| - 1];
    SmallIsOneLeaf(x.Graph(), x.root, x.max, x.Contents, a, 1, 3);
    assert 3 in x.Contents && 1 in x.Contents && x.meta[a].low <= 1 < 3 < x.meta[a].high;
    at := x.CurrentKey();
  }
}
