/** The path of a search: which pages were visited and by which links, and why that path
    is still right for the pages above a page that has just been split. */
module Trails {
  import opened PageGraph

  /** `path[..d + 1]` leads from its first page, by the links the search takes for `key`,
      to `path[d]`; `pos` holds the link taken at each level. */
  ghost predicate Trail(s: Shape, path: seq<int>, pos: seq<int>, d: nat, key: int) {
    && d < |path| && d < |pos| && Closed(s) && Covers(s, path[d], key)
    && (d > 0 ==> Trail(s, path, pos, d - 1, key) && Step(s, path[d - 1], pos[d - 1], path[d], key))
  }

  ghost predicate Step(s: Shape, a: int, i: int, b: int, key: int) {
    && 0 <= a < |s.pages| && !s.pages[a].leaf && 0 <= i < |s.pages[a].ptrs|
    && Routes(s.pages[a], key, i) && s.pages[a].ptrs[i] == b
  }

  /** The trail only depends on the pages along it, and of the last only on what it covers. */
  lemma {:induction false} TrailKept(s: Shape, t: Shape, path: seq<int>, pos: seq<int>,
                                     path': seq<int>, pos': seq<int>, d: nat, key: int)
    requires Trail(s, path, pos, d, key) && Closed(t) && |s.pages| <= |t.pages|
    requires d < |path'| && d < |pos'| && path'[..d + 1] == path[..d + 1] && pos'[..d] == pos[..d]
    requires forall e :: 0 <= e <= d ==>
               0 <= path[e] < |s.pages| && t.meta[path[e]].low == s.meta[path[e]].low
    requires forall e :: 0 <= e < d ==> t.pages[path[e]] == s.pages[path[e]]
    requires Covers(t, path[d], key)
    ensures Trail(t, path', pos', d, key)
  {
    assert path'[..d + 1][d] == path[..d + 1][d];
    if d > 0 {
      assert Step(s, path[d - 1], pos[d - 1], path[d], key);
      assert path'[..d] == path'[..d + 1][..d] && path[..d] == path[..d + 1][..d];
      assert pos'[..d - 1] == pos'[..d][..d - 1] && pos[..d - 1] == pos[..d][..d - 1];
      assert path'[..d + 1][d - 1] == path[..d + 1][d - 1] && pos'[..d][d - 1] == pos[..d][d - 1];
      TrailKept(s, t, path, pos, path', pos', d - 1, key);
    }
  }

  lemma {:induction false} TrailInRange(s: Shape, path: seq<int>, pos: seq<int>, d: nat, key: int)
    requires Trail(s, path, pos, d, key)
    ensures forall e :: 0 <= e <= d ==> 0 <= path[e] < |s.pages|
  {
    if d > 0 { TrailInRange(s, path, pos, d - 1, key); }
  }

  lemma TrailGrows(s: Shape, root: int, path: seq<int>, pos: seq<int>, d: nat, key: int, i: nat)
    requires Ok(s, root) && |path| == |pos| == d + 1 && key < s.bound && Trail(s, path, pos, d, key)
    requires !s.pages[path[d]].leaf && Routes(s.pages[path[d]], key, i) && i < |s.pages[path[d]].ptrs|
    ensures Trail(s, path + [s.pages[path[d]].ptrs[i]], pos[d := i] + [0], d + 1, key)
    ensures s.meta[s.pages[path[d]].ptrs[i]].h < s.meta[path[d]].h
  {
    RouteCovers(s, root, path[d], key, i);
    TrailInRange(s, path, pos, d, key);
    TrailKept(s, s, path, pos, path + [s.pages[path[d]].ptrs[i]], pos[d := i] + [0], d, key);
  }

  /** A finished search: it stopped at the leaf that owns the key, at the first entry
      not below it, and `c` tells how the key compares with that entry. */
  ghost predicate Found(s: Shape, path: seq<int>, pos: seq<int>, d: nat, key: int, c: int, m: map<int, int>) {
    && Trail(s, path, pos, d, key)
    && var p, i := s.pages[path[d]], pos[d];
       && p.leaf && 0 <= i && Stops(p.keys, key, i) && |p.ptrs| == |p.keys|
       && (c == 0 <==> key in m)
       && (c == 0 ==> i < |p.keys| && p.keys[i] == key && p.ptrs[i] == m[key])
       && (c < 0 ==> i < |p.keys| && key < p.keys[i])
       && (c > 0 ==> i == |p.keys|)
  }

  /** What the page search reports about page `p`. */
  ghost predicate Probed(p: Page, key: int, i: nat, c: int) {
    && i <= |p.keys|
    && (p.leaf ==> Stops(p.keys, key, i) && (i == |p.keys| ==> c > 0))
    && (!p.leaf ==> Routes(p, key, i))
    && (i < |p.keys| ==> c == if key < p.keys[i] then -1 else 0)
    && (i < |p.keys| && c == 0 ==> key == p.keys[i])
  }

  lemma LeafAnswers(s: Shape, root: int, path: seq<int>, pos: seq<int>, d: nat, key: int, m: map<int, int>,
                    i: nat, c: int)
    requires Ok(s, root) && Represents(s.pages, m) && Trail(s, path, pos, d, key)
    requires s.pages[path[d]].leaf && Probed(s.pages[path[d]], key, i, c)
    ensures Found(s, path, pos[d := i], d, key, c, m)
  {
    CoveringLeafDecides(s, root, path[d], key, m);
    TrailInRange(s, path, pos, d, key);
    TrailKept(s, s, path, pos, path, pos[d := i], d, key);
    assert PageOk(s, path[d]);
  }

  /** Ranks fall along the path, so its pages are distinct. */
  ghost predicate Ranked(meta: seq<Meta>, path: seq<int>, d: nat) {
    && d < |path|
    && (forall e :: 0 <= e <= d ==> 0 <= path[e] < |meta|)
    && (forall e, f :: 0 <= e < f <= d ==> meta[path[f]].h < meta[path[e]].h)
  }

  lemma {:induction false} TrailRanked(s: Shape, root: int, path: seq<int>, pos: seq<int>, d: nat, key: int)
    requires Ok(s, root) && Trail(s, path, pos, d, key)
    ensures Ranked(s.meta, path, d)
  {
    if d > 0 {
      TrailRanked(s, root, path, pos, d - 1, key);
      assert PageOk(s, path[d - 1]) && EdgeOk(s, path[d - 1], pos[d - 1]);
    }
  }

  // ---- Climbing after a split ----

  ghost function LinkIn(s: Shape, g: int, i: nat, b: int): Shape
    requires Closed(s) && 0 <= g < |s.pages| && 0 <= b < |s.pages| && !s.pages[g].leaf
    requires i < |s.pages[g].ptrs| && |s.pages[b].keys| > 0
  {
    s.(pages := s.pages[g := Linked(s.pages[g], i, s.pages[b].keys[0], b)])
  }

  /** Everything the climb from a split page needs: `b` is ready to be linked into the
      branch `path[d]`, next to its link `pos[d]`, and the graph is valid once it is. */
  ghost predicate LinkReady(s: Shape, root: int, path: seq<int>, pos: seq<int>, d: nat, b: int, key: int) {
    && d + 1 < |path| == |pos| && path[0] == root
    && Trail(s, path, pos, d, key) && Ranked(s.meta, path, d)
    && 0 <= b < |s.pages| && |s.pages[b].keys| > 0 && path[d] != b
    && Step(s, path[d], pos[d], path[d + 1], key)
    && Distinct(s.pages[path[d]].ptrs)
    && Ok(LinkIn(s, path[d], pos[d], b), root)
  }

  /** Once linked, the path down to the branch is still right. */
  lemma LinkedTrail(s: Shape, root: int, path: seq<int>, pos: seq<int>, d: nat, b: int, key: int)
    requires LinkReady(s, root, path, pos, d, b, key)
    ensures Trail(LinkIn(s, path[d], pos[d], b), path, pos, d, key)
  {
    TrailInRange(s, path, pos, d, key);
    TrailKept(s, LinkIn(s, path[d], pos[d], b), path, pos, path, pos, d, key);
  }

  /** After branch `path[d]` of a valid graph is split, its parent on the path may be told. */
  lemma ParentCanLink(s: Shape, t: Shape, root: int, path: seq<int>, pos: seq<int>, d: nat, n: nat, key: int)
    requires Ok(s, root) && Ok(t, root) && d > 0 && Trail(s, path, pos, d, key)
    requires SplitsBranch(s, t, path[d], n) && !s.pages[path[d]].leaf && Ranked(s.meta, path, d)
    ensures CanLink(t, path[d - 1], pos[d - 1], |s.pages|, s.pages[path[d]].keys[n])
    ensures Step(t, path[d - 1], pos[d - 1], path[d], key)
  {
    var g, i := path[d - 1], pos[d - 1];
    assert Step(s, g, i, path[d], key);
    assert PageOk(s, g) && EdgeOk(s, g, i);
    assert Covers(s, g, key);
    assert PageOk(t, g);
  }

  lemma ParentTrail(s: Shape, t: Shape, path: seq<int>, pos: seq<int>, d: nat, n: nat, key: int)
    requires Closed(s) && Closed(t) && d > 0 && Trail(s, path, pos, d, key)
    requires SplitsBranch(s, t, path[d], n) && !s.pages[path[d]].leaf && Ranked(s.meta, path, d)
    ensures Trail(t, path, pos, d - 1, key) && Ranked(t.meta, path, d - 1)
  {
    assert Step(s, path[d - 1], pos[d - 1], path[d], key);
    TrailInRange(s, path, pos, d, key);
    TrailKept(s, t, path, pos, path, pos, d - 1, key);
  }

  /** A branch that overflowed is split: the climb goes on one level up. */
  lemma ClimbOn(s: Shape, root: int, path: seq<int>, pos: seq<int>, d: nat, n: nat, key: int)
    requires Ok(s, root) && 0 < d < |path| == |pos| && path[0] == root
    requires Trail(s, path, pos, d, key) && Ranked(s.meta, path, d)
    requires !s.pages[path[d]].leaf && 0 < n < |s.pages[path[d]].keys|
    ensures LinkReady(BranchSplit(s, path[d], n), root, path, pos, d - 1, |s.pages|, key)
  {
    var t := BranchSplit(s, path[d], n);
    BranchSplitPages(s, path[d], n);
    BranchSplits(s, root, path[d], n);
    ParentCanLink(s, t, root, path, pos, d, n, key);
    ParentTrail(s, t, path, pos, d, n, key);
    SiblingLinked(t, root, path[d - 1], pos[d - 1], |s.pages|, s.pages[path[d]].keys[n]);
  }

  /** Leaf `a` split at entry `n`, its parent `g` not yet told. */
  function LeafSplitAlone(s: Shape, a: int, g: int, p: Page, n: nat): Shape
    requires |s.pages| == |s.meta| && 0 <= a < |s.pages| && n < |p.keys| == |p.ptrs|
  {
    Shape(s.pages[a := Page(true, p.keys[..n], p.ptrs[..n])] + [Page(true, p.keys[n..], p.ptrs[n..])],
          s.meta[a := s.meta[a].(high := p.keys[n])] + [Meta(p.keys[n], s.meta[a].high, 0, |s.pages|, g)],
          s.bound)
  }

  lemma LeafSplitAloneClosed(s: Shape, root: int, a: int, g: int, p: Page, n: nat)
    requires Ok(s, root) && 0 <= a < |s.pages| && s.pages[a].leaf && n < |p.keys| == |p.ptrs|
    ensures Closed(LeafSplitAlone(s, a, g, p, n))
  {
    var t := LeafSplitAlone(s, a, g, p, n);
    forall x, i | 0 <= x < |t.pages| && !t.pages[x].leaf && 0 <= i < |t.pages[x].ptrs|
      ensures 0 <= t.pages[x].ptrs[i] < |t.pages| {
      assert t.pages[x] == s.pages[x];
    }
  }

  /** A leaf that overflowed is split: the climb starts at its parent. */
  lemma ClimbFromLeaf(s: Shape, root: int, path: seq<int>, pos: seq<int>, d: nat, p: Page, n: nat, key: int)
    requires Ok(s, root) && 0 < d < |path| == |pos| && path[0] == root && Trail(s, path, pos, d, key)
    requires s.pages[path[d]].leaf
    requires p.leaf && |p.keys| == |p.ptrs| && Ascending(p.keys) && 0 < n < |p.keys|
    requires forall i :: 0 <= i < |p.keys| ==> s.meta[path[d]].low <= p.keys[i] < s.meta[path[d]].high
    ensures LinkReady(LeafSplitAlone(s, path[d], path[d - 1], p, n), root, path, pos, d - 1, |s.pages|, key)
  {
    var a, g, i := path[d], path[d - 1], pos[d - 1];
    var t := LeafSplitAlone(s, a, g, p, n);
    assert Step(s, g, i, a, key);
    assert PageOk(s, g);
    LeafSplits(s, root, a, g, i, |s.pages|, p, n);
    TrailRanked(s, root, path, pos, d, key);
    LeafSplitAloneClosed(s, root, a, g, p, n);
    LeafSplitTrail(s, t, path, pos, d, p, n, key);
    var u := LeafSplit(s, a, g, i, |s.pages|, p, n);
    assert LinkIn(t, g, i, |s.pages|).pages == u.pages;
  }

  lemma LeafSplitTrail(s: Shape, t: Shape, path: seq<int>, pos: seq<int>, d: nat, p: Page, n: nat, key: int)
    requires d > 0 && Trail(s, path, pos, d, key) && Ranked(s.meta, path, d)
    requires s.pages[path[d]].leaf && n < |p.keys| == |p.ptrs|
    requires t == LeafSplitAlone(s, path[d], path[d - 1], p, n) && Closed(t)
    ensures Trail(t, path, pos, d - 1, key) && Ranked(t.meta, path, d - 1)
  {
    assert Step(s, path[d - 1], pos[d - 1], path[d], key);
    TrailInRange(s, path, pos, d, key);
    TrailKept(s, t, path, pos, path, pos, d - 1, key);
  }
}
