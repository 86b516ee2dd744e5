/** The page graph of the in-memory index (memfh_idx.c), as values.

    A branch with n separators has n + 1 links: the pointers stored in its n slots and,
    last, its `next` field. Splitting a branch links the left half to the right half
    through `next`, so branches form a directed acyclic graph rather than a tree. `Ok`
    is the invariant that makes the search, the insertion and the scan work on that
    graph all the same. Its ghost part, one `Meta` per page, says:
      - `low`: every key from `low` upward that reaches the page is routed to its leaf;
      - `high` (leaves): the leaf owns exactly the keys in [low, high);
      - `h`: a rank that strictly decreases along every link, so there are no cycles;
      - `lm`: the leaf found by following first links;
      - `par` (leaves): the only branch that refers to the leaf. */
module PageGraph {

  /** In a leaf, `ptrs[i]` is the record stored under `keys[i]`. In a branch, `ptrs[i]`
      is the page for the keys below `keys[i]`, and the last pointer is `next`. */
  datatype Page = Page(leaf: bool, keys: seq<int>, ptrs: seq<int>)

  datatype Meta = Meta(low: int, high: int, h: nat, lm: int, par: int)

  datatype Shape = Shape(pages: seq<Page>, meta: seq<Meta>, bound: int)

  const NULL := -1

  ghost predicate Ascending(keys: seq<int>) {
    forall i, j :: 0 <= i < j < |keys| ==> keys[i] < keys[j]
  }

  ghost predicate Distinct(xs: seq<int>) {
    forall i, j :: 0 <= i < j < |xs| ==> xs[i] != xs[j]
  }

  /** No link and no ghost reference dangles. */
  ghost predicate Closed(s: Shape) {
    && |s.pages| == |s.meta|
    && (forall a :: 0 <= a < |s.pages| ==>
          && 0 <= s.meta[a].lm < |s.pages|
          && |s.pages[a].ptrs| == |s.pages[a].keys| + if s.pages[a].leaf then 0 else 1)
    && (forall a, i :: 0 <= a < |s.pages| && !s.pages[a].leaf && 0 <= i < |s.pages[a].ptrs|
                       ==> 0 <= s.pages[a].ptrs[i] < |s.pages|)
  }

  ghost predicate LeafOk(s: Shape, a: int)
    requires Closed(s) && 0 <= a < |s.pages|
  {
    var p, m := s.pages[a], s.meta[a];
    && m.h == 0 && m.lm == a
    && 0 <= m.low < m.high <= s.bound
    && Ascending(p.keys)
    && (forall i :: 0 <= i < |p.keys| ==> m.low <= p.keys[i] < m.high)
  }

  /** Link `i` of branch `a`: the child is lower in rank; a leaf child owns exactly the
      keys between its separators and belongs to `a` alone; a branch child is followed
      by branches only; and the child covers every key routed to it. */
  ghost predicate EdgeOk(s: Shape, a: int, i: nat)
    requires Closed(s) && 0 <= a < |s.pages| && !s.pages[a].leaf && i < |s.pages[a].ptrs|
  {
    var p := s.pages[a];
    var c := p.ptrs[i];
    var m := s.meta[c];
    && m.h < s.meta[a].h
    && (s.pages[c].leaf ==>
          m.par == a && m.high == if i < |p.keys| then p.keys[i] else s.bound)
    && (i == 0 ==>
          && m.lm == s.meta[a].lm
          && (m.low <= s.meta[a].low || (|p.keys| > 0 && p.keys[0] <= s.meta[a].low)))
    && (i > 0 ==>
          && m.low <= p.keys[i - 1]
          && (if s.pages[p.ptrs[i - 1]].leaf then s.meta[m.lm].low == p.keys[i - 1]
              else !s.pages[c].leaf))
  }

  ghost predicate BranchOk(s: Shape, a: int)
    requires Closed(s) && 0 <= a < |s.pages| && !s.pages[a].leaf
  {
    var p := s.pages[a];
    && |p.keys| >= 1
    && Distinct(p.ptrs)
    && (forall i {:trigger EdgeOk(s, a, i)} :: 0 <= i < |p.ptrs| ==> EdgeOk(s, a, i))
  }

  ghost predicate PageOk(s: Shape, a: int)
    requires Closed(s) && 0 <= a < |s.pages|
  {
    && s.pages[s.meta[a].lm].leaf
    && if s.pages[a].leaf then LeafOk(s, a) else BranchOk(s, a)
  }

  ghost predicate Disjoint(s: Shape, a: int, b: int)
    requires Closed(s) && 0 <= a < |s.pages| && 0 <= b < |s.pages|
  {
    s.meta[a].high <= s.meta[b].low || s.meta[b].high <= s.meta[a].low
  }

  /** The graph invariant. */
  ghost predicate Ok(s: Shape, root: int) {
    && Closed(s) && 0 <= root < |s.pages|
    && (forall a {:trigger PageOk(s, a)} :: 0 <= a < |s.pages| ==> PageOk(s, a))
    && (forall a, b {:trigger Disjoint(s, a, b)} ::
          0 <= a < |s.pages| && 0 <= b < |s.pages| && a != b && s.pages[a].leaf && s.pages[b].leaf
          ==> Disjoint(s, a, b))
    && s.meta[root].low == 0 && s.meta[s.meta[root].lm].low == 0
    && (s.pages[root].leaf ==> |s.pages| == 1 && s.meta[root].high == s.bound)
  }

  /** Every page below `max` slots, every page but the root at least half full. */
  ghost predicate Filled(pages: seq<Page>, root: int, max: nat, over: int) {
    forall a :: 0 <= a < |pages| ==>
      && |pages[a].keys| < max + (if a == over then 1 else 0)
      && (a != root ==> max / 2 <= |pages[a].keys|)
  }

  // ---- Routing ----

  /** Link `i` is the one the search takes for `key`. */
  ghost predicate Routes(p: Page, key: int, i: nat) {
    && i <= |p.keys|
    && (forall j :: 0 <= j < i ==> p.keys[j] <= key)
    && (i < |p.keys| ==> key < p.keys[i])
  }

  /** A page that may receive `key`. */
  ghost predicate Covers(s: Shape, a: int, key: int) {
    && 0 <= a < |s.pages| == |s.meta| && s.meta[a].low <= key
    && (s.pages[a].leaf ==> key < s.meta[a].high)
  }

  lemma RouteCovers(s: Shape, root: int, a: int, key: int, i: nat)
    requires Ok(s, root) && Covers(s, a, key) && key < s.bound
    requires !s.pages[a].leaf && Routes(s.pages[a], key, i)
    ensures Covers(s, s.pages[a].ptrs[i], key)
    ensures s.meta[s.pages[a].ptrs[i]].h < s.meta[a].h
  {
    assert PageOk(s, a) && EdgeOk(s, a, i);
  }

  ghost predicate Link(s: Shape, a: int, b: int) {
    0 <= a < |s.pages| && 0 <= b < |s.pages| && !s.pages[a].leaf && b in s.pages[a].ptrs
  }

  /** Consecutive pages of `w` are joined by links. */
  ghost predicate Walk(s: Shape, w: seq<int>) {
    var n := |w| - 1;
    && n >= 0 && 0 <= w[n] < |s.pages|
    && (n > 0 ==> Link(s, w[n - 1], w[n]) && Walk(s, w[..n]))
  }

  lemma LinkDescends(s: Shape, root: int, a: int, b: int)
    requires Ok(s, root) && Link(s, a, b)
    ensures s.meta[b].h < s.meta[a].h
  {
    var i :| 0 <= i < |s.pages[a].ptrs| && s.pages[a].ptrs[i] == b;
    assert PageOk(s, a) && EdgeOk(s, a, i);
  }

  /** Following links never comes back: a walk is no longer than the rank of its start. */
  lemma {:induction false} WalksEnd(s: Shape, root: int, w: seq<int>)
    requires Ok(s, root) && Walk(s, w)
    ensures 0 <= w[0] < |s.pages| && s.meta[w[|w| - 1]].h + |w| - 1 <= s.meta[w[0]].h
    ensures |w| > 1 ==> w[0] != w[|w| - 1]
  {
    var n := |w| - 1;
    if n > 0 {
      LinkDescends(s, root, w[n - 1], w[n]);
      WalksEnd(s, root, w[..n]);
    }
  }

  // ---- Steps of an insertion ----

  function Inserted(xs: seq<int>, i: nat, x: int): seq<int>
    requires i <= |xs|
  {
    xs[..i] + [x] + xs[i..]
  }

  /** Position `i` is where the search of a leaf stops for `key`. */
  ghost predicate Stops(keys: seq<int>, key: int, i: nat) {
    && i <= |keys|
    && (forall j :: 0 <= j < i ==> keys[j] < key)
    && (i < |keys| ==> key <= keys[i])
  }

  lemma InsertedAscending(keys: seq<int>, key: int, i: nat)
    requires Ascending(keys) && Stops(keys, key, i) && (i < |keys| ==> keys[i] != key)
    ensures Ascending(Inserted(keys, i, key))
  {
  }

  /** `t` has the pages and ghost data of `s`, all but page `g` unchanged, and maybe more. */
  ghost predicate Extends(s: Shape, t: Shape, g: int) {
    && |s.pages| == |s.meta| <= |t.meta| == |t.pages| && t.bound == s.bound
    && (forall x {:trigger t.pages[x]} :: 0 <= x < |s.pages| ==>
          t.pages[x].leaf == s.pages[x].leaf && (x != g ==> t.pages[x] == s.pages[x]))
    && (forall x {:trigger t.meta[x]} :: 0 <= x < |s.pages| ==> t.meta[x] == s.meta[x])
  }

  lemma KeptPage(s: Shape, t: Shape, g: int, x: int)
    requires Closed(s) && Closed(t) && Extends(s, t, g)
    requires 0 <= x < |s.pages| && x != g && PageOk(s, x)
    ensures PageOk(t, x)
  {
    if !s.pages[x].leaf {
      forall j | 0 <= j < |t.pages[x].ptrs| ensures EdgeOk(t, x, j) {
        assert EdgeOk(s, x, j);
      }
    }
  }

  lemma KeptDisjoint(s: Shape, t: Shape, root: int, g: int)
    requires Ok(s, root) && Closed(t) && Extends(s, t, g)
    requires forall x :: |s.pages| <= x < |t.pages| ==> !t.pages[x].leaf
    ensures forall x, y {:trigger Disjoint(t, x, y)} ::
              0 <= x < |t.pages| && 0 <= y < |t.pages| && x != y && t.pages[x].leaf && t.pages[y].leaf
              ==> Disjoint(t, x, y)
  {
    forall x, y | 0 <= x < |t.pages| && 0 <= y < |t.pages| && x != y && t.pages[x].leaf && t.pages[y].leaf
      ensures Disjoint(t, x, y) {
      assert Disjoint(s, x, y);
    }
  }

  /** Replacing the contents of a leaf by others it owns. */
  lemma LeafChanges(s: Shape, root: int, a: int, p: Page)
    requires Ok(s, root) && 0 <= a < |s.pages| && s.pages[a].leaf && p.leaf && |p.keys| == |p.ptrs|
    requires Ascending(p.keys)
    requires forall i :: 0 <= i < |p.keys| ==> s.meta[a].low <= p.keys[i] < s.meta[a].high
    ensures Ok(s.(pages := s.pages[a := p]), root)
  {
    var t := s.(pages := s.pages[a := p]);
    assert PageOk(s, a);
    forall x | 0 <= x < |t.pages| ensures PageOk(t, x) {
      if x != a {
        assert PageOk(s, x);
        KeptPage(s, t, a, x);
      }
    }
    KeptDisjoint(s, t, root, a);
  }

  /** Page `p` after the child behind link `i` was split and its upper half, which holds
      the keys from `m` on, placed at `b`. */
  function Linked(p: Page, i: nat, m: int, b: int): Page
    requires i < |p.ptrs| == |p.keys| + 1
  {
    Page(p.leaf, Inserted(p.keys, i, m), Inserted(p.ptrs, i + 1, b))
  }

  lemma LinkedDistinct(p: Page, i: nat, m: int, b: int)
    requires i < |p.ptrs| == |p.keys| + 1
    requires Distinct(p.ptrs) && forall j :: 0 <= j < |p.ptrs| ==> p.ptrs[j] != b
    ensures Distinct(Linked(p, i, m, b).ptrs)
  {
  }

  ghost predicate CanSplitLeaf(s: Shape, root: int, a: int, g: int, i: nat, b: int, p: Page, n: nat) {
    && Ok(s, root) && 0 <= a < |s.pages| && 0 <= g < |s.pages| && b == |s.pages| && !s.pages[g].leaf
    && i < |s.pages[g].ptrs| && s.pages[g].ptrs[i] == a && s.pages[a].leaf
    && p.leaf && |p.keys| == |p.ptrs| && Ascending(p.keys) && 0 < n < |p.keys|
    && (forall i :: 0 <= i < |p.keys| ==> s.meta[a].low <= p.keys[i] < s.meta[a].high)
  }

  /** The leaf at `a`, holding the entries of `p`, split at entry `n` under branch `g`. */
  function LeafSplit(s: Shape, a: int, g: int, i: nat, b: int, p: Page, n: nat): Shape
    requires 0 <= a < |s.pages| == |s.meta| && 0 <= g < |s.pages|
    requires i < |s.pages[g].ptrs| == |s.pages[g].keys| + 1
    requires n < |p.keys| == |p.ptrs|
  {
    var m := p.keys[n];
    Shape(s.pages[a := Page(true, p.keys[..n], p.ptrs[..n])]
                 [g := Linked(s.pages[g], i, m, b)]
          + [Page(true, p.keys[n..], p.ptrs[n..])],
          s.meta[a := s.meta[a].(high := m)] + [Meta(m, s.meta[a].high, 0, b, g)],
          s.bound)
  }

  /** What splitting leaf `a` under link `i` of branch `g` changes, page by page. */
  ghost predicate SplitsLeaf(s: Shape, t: Shape, a: int, g: int, i: nat, m: int) {
    var b := |s.pages|;
    && 0 <= a < b && 0 <= g < b && a != g
    && b == |s.meta| && |t.pages| == |t.meta| == b + 1 && t.bound == s.bound
    && i < |s.pages[g].ptrs| == |s.pages[g].keys| + 1
    && t.pages[g] == Linked(s.pages[g], i, m, b)
    && t.pages[a].leaf && t.pages[b].leaf && s.pages[a].leaf
    && (forall x {:trigger t.pages[x]} :: 0 <= x < b && x != a && x != g ==> t.pages[x] == s.pages[x])
    && (forall x {:trigger t.meta[x]} :: 0 <= x < b && x != a ==> t.meta[x] == s.meta[x])
    && t.meta[a] == s.meta[a].(high := m)
    && t.meta[b] == Meta(m, s.meta[a].high, 0, b, g)
  }

  lemma LeafSplitClosed(s: Shape, root: int, a: int, g: int, i: nat, b: int, p: Page, n: nat)
    requires CanSplitLeaf(s, root, a, g, i, b, p, n)
    ensures var t := LeafSplit(s, a, g, i, b, p, n);
            Closed(t) && SplitsLeaf(s, t, a, g, i, p.keys[n])
  {
  }

  lemma LeafSplitBefore(s: Shape, t: Shape, a: int, g: int, i: nat, m: int, j: nat)
    requires Closed(s) && Closed(t) && SplitsLeaf(s, t, a, g, i, m) && !s.pages[g].leaf
    requires s.pages[g].ptrs[i] == a && j <= i && EdgeOk(s, g, j) && BranchOk(s, g)
    requires EdgeOk(s, g, i) && m < s.meta[a].high
    ensures EdgeOk(t, g, j)
  {
  }

  lemma LeafSplitAfter(s: Shape, t: Shape, a: int, g: int, i: nat, m: int, j: nat)
    requires Closed(s) && Closed(t) && SplitsLeaf(s, t, a, g, i, m) && !s.pages[g].leaf
    requires s.pages[g].ptrs[i] == a && i < j < |s.pages[g].ptrs| && EdgeOk(s, g, j) && BranchOk(s, g)
    ensures EdgeOk(t, g, j + 1)
  {
    assert t.pages[g].ptrs[j + 1] == s.pages[g].ptrs[j];
    assert t.pages[g].keys[j] == s.pages[g].keys[j - 1];
  }

  lemma LeafSplitNew(s: Shape, t: Shape, a: int, g: int, i: nat, m: int)
    requires Closed(s) && Closed(t) && SplitsLeaf(s, t, a, g, i, m) && !s.pages[g].leaf
    requires s.pages[g].ptrs[i] == a && EdgeOk(s, g, i) && s.meta[a].h == 0
    ensures EdgeOk(t, g, i + 1)
  {
  }

  lemma LeafSplitParent(s: Shape, t: Shape, a: int, g: int, i: nat, m: int)
    requires Closed(s) && Closed(t) && SplitsLeaf(s, t, a, g, i, m) && !s.pages[g].leaf
    requires s.pages[g].ptrs[i] == a && PageOk(s, g) && s.meta[a].h == 0 && m < s.meta[a].high
    ensures PageOk(t, g)
  {
    assert EdgeOk(s, g, i);
    LinkedDistinct(s.pages[g], i, m, |s.pages|);
    forall j | 0 <= j < |t.pages[g].ptrs| ensures EdgeOk(t, g, j) {
      if j <= i {
        assert EdgeOk(s, g, j);
        LeafSplitBefore(s, t, a, g, i, m, j);
      } else if j == i + 1 {
        LeafSplitNew(s, t, a, g, i, m);
      } else {
        assert EdgeOk(s, g, j - 1);
        LeafSplitAfter(s, t, a, g, i, m, j - 1);
      }
    }
  }

  lemma LeafSplitOther(s: Shape, t: Shape, a: int, g: int, i: nat, m: int, x: int)
    requires Closed(s) && Closed(t) && SplitsLeaf(s, t, a, g, i, m)
    requires 0 <= x < |s.pages| && x != a && x != g && PageOk(s, x) && s.meta[a].par == g
    ensures PageOk(t, x)
  {
    if !s.pages[x].leaf {
      forall j | 0 <= j < |t.pages[x].ptrs| ensures EdgeOk(t, x, j) {
        assert EdgeOk(s, x, j);
      }
    }
  }

  lemma LeafSplits(s: Shape, root: int, a: int, g: int, i: nat, b: int, p: Page, n: nat)
    requires CanSplitLeaf(s, root, a, g, i, b, p, n)
    ensures Ok(LeafSplit(s, a, g, i, b, p, n), root)
  {
    var t, m := LeafSplit(s, a, g, i, b, p, n), p.keys[n];
    LeafSplitClosed(s, root, a, g, i, b, p, n);
    assert PageOk(s, a) && PageOk(s, g) && EdgeOk(s, g, i);
    assert p.keys[0] < m;
    forall x | 0 <= x < |t.pages| ensures PageOk(t, x) {
      if x == g { LeafSplitParent(s, t, a, g, i, m); }
      else if x != a && x != b {
        assert PageOk(s, x);
        LeafSplitOther(s, t, a, g, i, m, x);
      }
    }
    LeafSplitDisjoint(s, t, root, a, g, i, m);
  }

  lemma LeafSplitDisjoint(s: Shape, t: Shape, root: int, a: int, g: int, i: nat, m: int)
    requires Ok(s, root) && Closed(t) && SplitsLeaf(s, t, a, g, i, m) && !s.pages[g].leaf
    requires s.meta[a].low < m < s.meta[a].high
    ensures forall x, y {:trigger Disjoint(t, x, y)} ::
              0 <= x < |t.pages| && 0 <= y < |t.pages| && x != y && t.pages[x].leaf && t.pages[y].leaf
              ==> Disjoint(t, x, y)
  {
    forall x, y | 0 <= x < |t.pages| && 0 <= y < |t.pages| && x != y && t.pages[x].leaf && t.pages[y].leaf
      ensures Disjoint(t, x, y)
    {
      var u, v := if x == |s.pages| then a else x, if y == |s.pages| then a else y;
      assert u != v ==> Disjoint(s, u, v);
    }
  }

  /** The only page is a leaf: it splits under a new root. */
  function FirstSplit(s: Shape, p: Page, n: nat): Shape
    requires n < |p.keys| == |p.ptrs|
  {
    var m := p.keys[n];
    Shape([Page(true, p.keys[..n], p.ptrs[..n]), Page(true, p.keys[n..], p.ptrs[n..]), Page(false, [m], [0, 1])],
          [Meta(0, m, 0, 0, 2), Meta(m, s.bound, 0, 1, 2), Meta(0, 0, 1, 0, NULL)],
          s.bound)
  }

  lemma RootLeafSplits(s: Shape, p: Page, n: nat)
    requires p.leaf && 0 < n < |p.keys| == |p.ptrs| && Ascending(p.keys)
    requires forall i :: 0 <= i < |p.keys| ==> 0 <= p.keys[i] < s.bound
    ensures Ok(FirstSplit(s, p, n), 2)
  {
    var t := FirstSplit(s, p, n);
    assert p.keys[0] < p.keys[n];
    assert Closed(t);
    assert LeafOk(t, 0) && LeafOk(t, 1);
    assert EdgeOk(t, 2, 0) && EdgeOk(t, 2, 1);
  }

  /** Branch `a` keeps its first `n` slots and is linked to a new page with the rest. */
  ghost function BranchSplit(s: Shape, a: int, n: nat): Shape
    requires Closed(s) && 0 <= a < |s.pages| && !s.pages[a].leaf && 0 < n < |s.pages[a].keys|
  {
    var p, b := s.pages[a], |s.pages|;
    var c := s.meta[p.ptrs[n]];
    var low := if c.low < p.keys[n] then c.low else p.keys[n];
    Shape(s.pages[a := Page(false, p.keys[..n], p.ptrs[..n] + [b])] + [Page(false, p.keys[n..], p.ptrs[n..])],
          seq(|s.meta|, x requires 0 <= x < |s.meta| => MovedMeta(s.meta[x], s.meta[a].h, x in p.ptrs[n..], b))
          + [Meta(low, 0, s.meta[a].h, c.lm, NULL)],
          s.bound)
  }

  function MovedMeta(m: Meta, h: nat, moved: bool, b: int): Meta {
    m.(h := if m.h >= h then m.h + 1 else m.h, par := if moved then b else m.par)
  }

  /** What a branch split changes, page by page. */
  ghost predicate SplitsBranch(s: Shape, t: Shape, a: int, n: nat) {
    var b := |s.pages|;
    && 0 <= a < b == |s.meta| && |t.pages| == |t.meta| == b + 1 && t.bound == s.bound
    && 0 < n < |s.pages[a].keys| && |s.pages[a].ptrs| == |s.pages[a].keys| + 1
    && t.pages[a] == Page(false, s.pages[a].keys[..n], s.pages[a].ptrs[..n] + [b])
    && t.pages[b] == Page(false, s.pages[a].keys[n..], s.pages[a].ptrs[n..])
    && (forall x {:trigger t.pages[x]} :: 0 <= x < b && x != a ==> t.pages[x] == s.pages[x])
    && (forall x {:trigger t.meta[x]} :: 0 <= x < b ==>
          t.meta[x] == MovedMeta(s.meta[x], s.meta[a].h, x in s.pages[a].ptrs[n..], b))
    && 0 <= s.pages[a].ptrs[n] < b
    && t.meta[b].h == s.meta[a].h && t.meta[b].lm == s.meta[s.pages[a].ptrs[n]].lm
    && t.meta[b].low <= s.meta[s.pages[a].ptrs[n]].low && t.meta[b].low <= s.pages[a].keys[n]
    && (t.meta[b].low == s.meta[s.pages[a].ptrs[n]].low || t.meta[b].low == s.pages[a].keys[n])
  }

  lemma BranchSplitPages(s: Shape, a: int, n: nat)
    requires Closed(s) && 0 <= a < |s.pages| && !s.pages[a].leaf && 0 < n < |s.pages[a].keys|
    ensures SplitsBranch(s, BranchSplit(s, a, n), a, n)
  {
  }

  lemma SplitsBranchClosed(s: Shape, t: Shape, a: int, n: nat)
    requires Closed(s) && SplitsBranch(s, t, a, n) && !s.pages[a].leaf
    ensures Closed(t)
  {
    forall x, i | 0 <= x < |t.pages| && !t.pages[x].leaf && 0 <= i < |t.pages[x].ptrs|
      ensures 0 <= t.pages[x].ptrs[i] < |t.pages| {
    }
  }

  lemma BranchSplitLeft(s: Shape, t: Shape, a: int, n: nat)
    requires Closed(s) && Closed(t) && SplitsBranch(s, t, a, n) && !s.pages[a].leaf && PageOk(s, a)
    ensures PageOk(t, a)
  {
    assert EdgeOk(s, a, n);
    forall j | 0 <= j <= n ensures EdgeOk(t, a, j) {
      if j < n {
        assert EdgeOk(s, a, j);
        assert s.pages[a].ptrs[j] !in s.pages[a].ptrs[n..];
      }
    }
  }

  lemma BranchSplitRight(s: Shape, t: Shape, a: int, n: nat)
    requires Closed(s) && Closed(t) && SplitsBranch(s, t, a, n) && !s.pages[a].leaf && PageOk(s, a)
    requires s.pages[s.meta[s.pages[a].ptrs[n]].lm].leaf
    ensures PageOk(t, |s.pages|)
  {
    var b := |s.pages|;
    forall j | 0 <= j < |t.pages[b].ptrs| ensures EdgeOk(t, b, j) {
      assert EdgeOk(s, a, n + j);
      assert t.pages[b].ptrs[j] == s.pages[a].ptrs[n..][j];
    }
  }

  lemma BranchSplitOther(s: Shape, t: Shape, a: int, n: nat, x: int)
    requires Closed(s) && Closed(t) && SplitsBranch(s, t, a, n) && !s.pages[a].leaf && PageOk(s, a)
    requires 0 <= x < |s.pages| && x != a && PageOk(s, x)
    ensures PageOk(t, x)
  {
    if s.pages[x].leaf {
      assert EdgeOk(s, a, 0);
    } else {
      forall j | 0 <= j < |t.pages[x].ptrs| ensures EdgeOk(t, x, j) {
        assert EdgeOk(s, x, j);
        var c := s.pages[x].ptrs[j];
        if s.pages[c].leaf && c in s.pages[a].ptrs[n..] { BranchSplitPar(s, a, n, c); }
      }
    }
  }

  lemma BranchSplitPar(s: Shape, a: int, n: nat, c: int)
    requires Closed(s) && 0 <= a < |s.pages| && !s.pages[a].leaf && BranchOk(s, a)
    requires 0 <= c < |s.pages| && s.pages[c].leaf && n < |s.pages[a].ptrs| && c in s.pages[a].ptrs[n..]
    ensures s.meta[c].par == a
  {
    var k :| n <= k < |s.pages[a].ptrs| && s.pages[a].ptrs[k] == c;
    assert EdgeOk(s, a, k);
  }

  lemma BranchSplits(s: Shape, root: int, a: int, n: nat)
    requires Ok(s, root) && 0 <= a < |s.pages| && !s.pages[a].leaf && 0 < n < |s.pages[a].keys|
    ensures Ok(BranchSplit(s, a, n), root)
  {
    var t := BranchSplit(s, a, n);
    BranchSplitPages(s, a, n);
    SplitsBranchClosed(s, t, a, n);
    SplitsBranchOk(s, t, root, a, n);
  }

  lemma SplitsBranchOk(s: Shape, t: Shape, root: int, a: int, n: nat)
    requires Ok(s, root) && Closed(t) && SplitsBranch(s, t, a, n) && !s.pages[a].leaf
    ensures Ok(t, root)
  {
    assert PageOk(s, a) && EdgeOk(s, a, n);
    forall x | 0 <= x < |t.pages| ensures PageOk(t, x) {
      if x == a { BranchSplitLeft(s, t, a, n); }
      else if x == |s.pages| {
        assert PageOk(s, s.pages[a].ptrs[n]);
        BranchSplitRight(s, t, a, n);
      } else {
        assert PageOk(s, x);
        BranchSplitOther(s, t, a, n, x);
      }
    }
    forall x, y | 0 <= x < |t.pages| && 0 <= y < |t.pages| && x != y && t.pages[x].leaf && t.pages[y].leaf
      ensures Disjoint(t, x, y) {
      assert Disjoint(s, x, y);
    }
  }

  /** Branch `g` may learn of `b`, the upper part of the child behind its link `i`. */
  ghost predicate CanLink(s: Shape, g: int, i: nat, b: int, m: int) {
    && Closed(s) && 0 <= g < |s.pages| && !s.pages[g].leaf && PageOk(s, g)
    && i < |s.pages[g].ptrs| && !s.pages[s.pages[g].ptrs[i]].leaf
    && (i == 0 ==> s.meta[s.pages[g].ptrs[0]].low <= s.meta[g].low)
    && 0 <= b < |s.pages| && !s.pages[b].leaf && s.meta[b].low <= m && s.meta[b].h < s.meta[g].h
    && (forall j :: 0 <= j < |s.pages[g].ptrs| ==> s.pages[g].ptrs[j] != b)
  }

  lemma SiblingBefore(s: Shape, t: Shape, g: int, i: nat, b: int, m: int, j: nat)
    requires CanLink(s, g, i, b, m) && Closed(t) && Extends(s, t, g)
    requires t.pages[g] == Linked(s.pages[g], i, m, b) && j <= i && EdgeOk(s, g, j)
    ensures EdgeOk(t, g, j)
  {
  }

  lemma SiblingAfter(s: Shape, t: Shape, g: int, i: nat, b: int, m: int, j: nat)
    requires CanLink(s, g, i, b, m) && Closed(t) && Extends(s, t, g)
    requires t.pages[g] == Linked(s.pages[g], i, m, b) && i < j < |s.pages[g].ptrs| && EdgeOk(s, g, j)
    ensures EdgeOk(t, g, j + 1)
  {
    assert t.pages[g].ptrs[j + 1] == s.pages[g].ptrs[j];
    assert t.pages[g].keys[j] == s.pages[g].keys[j - 1];
  }

  lemma SiblingEdge(s: Shape, t: Shape, g: int, i: nat, b: int, m: int, j: nat)
    requires CanLink(s, g, i, b, m) && Closed(t) && Extends(s, t, g)
    requires t.pages[g] == Linked(s.pages[g], i, m, b) && j <= |s.pages[g].ptrs|
    ensures EdgeOk(t, g, j)
  {
    if j <= i {
      assert EdgeOk(s, g, j);
      SiblingBefore(s, t, g, i, b, m, j);
    } else if j > i + 1 {
      assert EdgeOk(s, g, j - 1);
      SiblingAfter(s, t, g, i, b, m, j - 1);
    }
  }

  lemma SiblingLinked(s: Shape, root: int, g: int, i: nat, b: int, m: int)
    requires Ok(s, root) && CanLink(s, g, i, b, m)
    ensures Ok(s.(pages := s.pages[g := Linked(s.pages[g], i, m, b)]), root)
  {
    var t := s.(pages := s.pages[g := Linked(s.pages[g], i, m, b)]);
    LinkedDistinct(s.pages[g], i, m, b);
    assert Closed(t);
    forall x | 0 <= x < |t.pages| ensures PageOk(t, x) {
      if x == g {
        forall j | 0 <= j < |t.pages[g].ptrs| ensures EdgeOk(t, g, j) {
          SiblingEdge(s, t, g, i, b, m, j);
        }
      } else {
        assert PageOk(s, x);
        KeptPage(s, t, g, x);
      }
    }
    KeptDisjoint(s, t, root, g);
  }

  /** A new root above branches `a` and `b`. */
  function Grown(s: Shape, a: int, b: int, m: int): Shape
    requires |s.pages| == |s.meta| && 0 <= a < |s.pages| && 0 <= b < |s.pages|
  {
    Shape(s.pages + [Page(false, [m], [a, b])],
          s.meta + [Meta(0, 0, s.meta[a].h + s.meta[b].h + 1, s.meta[a].lm, NULL)],
          s.bound)
  }

  lemma RootGrows(s: Shape, root: int, b: int, m: int)
    requires Ok(s, root) && !s.pages[root].leaf
    requires 0 <= b < |s.pages| && b != root && !s.pages[b].leaf && s.meta[b].low <= m
    ensures Ok(Grown(s, root, b, m), |s.pages|)
  {
    var t, r := Grown(s, root, b, m), |s.pages|;
    assert Closed(t);
    assert PageOk(s, root);
    forall x | 0 <= x < |t.pages| ensures PageOk(t, x) {
      if x < r {
        assert PageOk(s, x);
        KeptPage(s, t, r, x);
      } else {
        assert EdgeOk(t, r, 0) && EdgeOk(t, r, 1);
      }
    }
    KeptDisjoint(s, t, root, r);
  }

  // ---- Contents ----

  /** Page `p` holds record `r` under key `k`. */
  ghost predicate At(p: Page, k: int, r: int) {
    exists i :: 0 <= i < |p.keys| && i < |p.ptrs| && p.keys[i] == k && p.ptrs[i] == r
  }

  ghost predicate Has(pages: seq<Page>, k: int, r: int) {
    exists a :: 0 <= a < |pages| && pages[a].leaf && At(pages[a], k, r)
  }

  /** The leaves hold exactly the entries of `m`. */
  ghost predicate Represents(pages: seq<Page>, m: map<int, int>) {
    forall k, r :: Has(pages, k, r) <==> k in m && m[k] == r
  }

  lemma InsertedAt(p: Page, i: nat, k: int, r: int, k': int, r': int)
    requires p.leaf && |p.keys| == |p.ptrs| && i <= |p.keys|
    ensures At(Page(true, Inserted(p.keys, i, k), Inserted(p.ptrs, i, r)), k', r')
            <==> At(p, k', r') || (k' == k && r' == r)
  {
    var q := Page(true, Inserted(p.keys, i, k), Inserted(p.ptrs, i, r));
    if At(p, k', r') {
      var j :| 0 <= j < |p.keys| && p.keys[j] == k' && p.ptrs[j] == r';
      var j' := if j < i then j else j + 1;
      assert q.keys[j'] == k' && q.ptrs[j'] == r';
    }
    assert q.keys[i] == k && q.ptrs[i] == r;
    if At(q, k', r') {
      var j :| 0 <= j < |q.keys| && q.keys[j] == k' && q.ptrs[j] == r';
      if j != i {
        var j' := if j < i then j else j - 1;
        assert p.keys[j'] == k' && p.ptrs[j'] == r';
      }
    }
  }

  lemma SplitAt(p: Page, n: nat, k: int, r: int)
    requires p.leaf && n <= |p.keys| == |p.ptrs|
    ensures At(p, k, r) <==>
            At(Page(true, p.keys[..n], p.ptrs[..n]), k, r) || At(Page(true, p.keys[n..], p.ptrs[n..]), k, r)
  {
    if At(p, k, r) {
      var j :| 0 <= j < |p.keys| && p.keys[j] == k && p.ptrs[j] == r;
      if j < n { assert p.keys[..n][j] == k && p.ptrs[..n][j] == r; }
      else { assert p.keys[n..][j - n] == k && p.ptrs[n..][j - n] == r; }
    }
  }

  /** Adding one entry to one leaf adds it to the contents. */
  lemma ContentsGrow(pages: seq<Page>, a: int, p: Page, k: int, r: int, m: map<int, int>)
    requires Represents(pages, m) && k !in m && 0 <= a < |pages| && pages[a].leaf && p.leaf
    requires forall k', r' :: At(p, k', r') <==> At(pages[a], k', r') || (k' == k && r' == r)
    ensures Represents(pages[a := p], m[k := r])
  {
    var q, m' := pages[a := p], m[k := r];
    forall k', r' ensures Has(q, k', r') <==> k' in m' && m'[k'] == r' {
      if Has(pages, k', r') {
        var x :| 0 <= x < |pages| && pages[x].leaf && At(pages[x], k', r');
        assert At(q[x], k', r');
      }
      if k' == k && r' == r { assert At(q[a], k', r'); }
      if Has(q, k', r') {
        var x :| 0 <= x < |q| && q[x].leaf && At(q[x], k', r');
        assert x == a ==> At(pages[a], k', r') || (k' == k && r' == r);
        assert x != a ==> At(pages[x], k', r');
      }
    }
  }

  /** Moving part of a leaf to a new leaf keeps the contents. */
  lemma ContentsMove(pages: seq<Page>, a: int, l: Page, r: Page, m: map<int, int>)
    requires Represents(pages, m) && 0 <= a < |pages| && pages[a].leaf && l.leaf && r.leaf
    requires forall k, v :: At(pages[a], k, v) <==> At(l, k, v) || At(r, k, v)
    ensures Represents(pages[a := l] + [r], m)
  {
    var q := pages[a := l] + [r];
    forall k, v ensures Has(q, k, v) <==> Has(pages, k, v) {
      if Has(pages, k, v) {
        var x :| 0 <= x < |pages| && pages[x].leaf && At(pages[x], k, v);
        assert x == a ==> At(q[a], k, v) || At(q[|pages|], k, v);
        assert x != a ==> At(q[x], k, v);
      }
      if Has(q, k, v) {
        var x :| 0 <= x < |q| && q[x].leaf && At(q[x], k, v);
        if x == |pages| || x == a { assert At(pages[a], k, v); } else { assert At(pages[x], k, v); }
      }
    }
  }

  /** Changes to branches keep the contents. */
  lemma ContentsKept(pages: seq<Page>, q: seq<Page>, m: map<int, int>)
    requires Represents(pages, m) && |pages| <= |q|
    requires forall x :: 0 <= x < |pages| ==> q[x].leaf == pages[x].leaf && (q[x].leaf ==> q[x] == pages[x])
    requires forall x :: |pages| <= x < |q| ==> !q[x].leaf
    ensures Represents(q, m)
  {
    forall k, v ensures Has(q, k, v) <==> Has(pages, k, v) {
      if Has(pages, k, v) {
        var x :| 0 <= x < |pages| && pages[x].leaf && At(pages[x], k, v);
        assert At(q[x], k, v);
      }
    }
  }

  /** A key is stored exactly when the leaf that covers it holds it. */
  lemma CoveringLeafDecides(s: Shape, root: int, a: int, key: int, m: map<int, int>)
    requires Ok(s, root) && Represents(s.pages, m) && Covers(s, a, key) && s.pages[a].leaf
    ensures key in m <==> key in s.pages[a].keys
    ensures forall i :: 0 <= i < |s.pages[a].keys| ==>
              s.pages[a].keys[i] in m && m[s.pages[a].keys[i]] == s.pages[a].ptrs[i]
  {
    forall i | 0 <= i < |s.pages[a].keys|
      ensures s.pages[a].keys[i] in m && m[s.pages[a].keys[i]] == s.pages[a].ptrs[i]
    {
      assert At(s.pages[a], s.pages[a].keys[i], s.pages[a].ptrs[i]);
      assert Has(s.pages, s.pages[a].keys[i], s.pages[a].ptrs[i]);
    }
    if key in m {
      var b := LeafOf(s, root, key, m);
      assert a != b ==> Disjoint(s, a, b);
    }
  }

  /** The leaf that stores a key, and that the key lies in its range. */
  lemma LeafOf(s: Shape, root: int, key: int, m: map<int, int>) returns (b: int)
    requires Ok(s, root) && Represents(s.pages, m) && key in m
    ensures 0 <= b < |s.pages| && s.pages[b].leaf && key in s.pages[b].keys
    ensures s.meta[b].low <= key < s.meta[b].high
  {
    assert Has(s.pages, key, m[key]);
    b :| 0 <= b < |s.pages| && s.pages[b].leaf && At(s.pages[b], key, m[key]);
    assert PageOk(s, b);
  }

  // ---- Scanning ----

  /** `b` is the leaf that owns the keys right after those of leaf `a`. */
  lemma NextLeaf(s: Shape, root: int, a: int, g: int, i: nat)
    requires Ok(s, root) && 0 <= a < |s.pages| && 0 <= g < |s.pages| && s.pages[a].leaf && !s.pages[g].leaf
    requires i < |s.pages[g].ptrs| && s.pages[g].ptrs[i] == a
    ensures i < |s.pages[g].keys| ==>
              var b := s.meta[s.pages[g].ptrs[i + 1]].lm;
              s.pages[b].leaf && s.meta[b].low == s.meta[a].high
    ensures i == |s.pages[g].keys| ==> s.meta[a].high == s.bound
  {
    assert PageOk(s, g) && EdgeOk(s, g, i);
    if i < |s.pages[g].keys| {
      assert EdgeOk(s, g, i + 1);
      assert PageOk(s, s.pages[g].ptrs[i + 1]);
    }
  }

  /** Nothing is stored between the last key of a leaf and the first of the next. */
  lemma NothingBetween(s: Shape, root: int, a: int, b: int, m: map<int, int>)
    requires Ok(s, root) && Represents(s.pages, m)
    requires 0 <= a < |s.pages| && 0 <= b < |s.pages| && s.pages[a].leaf && s.pages[b].leaf
    requires |s.pages[a].keys| > 0 && |s.pages[b].keys| > 0 && s.meta[b].low == s.meta[a].high
    ensures s.pages[a].keys[|s.pages[a].keys| - 1] < s.pages[b].keys[0]
    ensures forall k :: k in m && k > s.pages[a].keys[|s.pages[a].keys| - 1] ==> k >= s.pages[b].keys[0]
  {
    assert PageOk(s, a) && PageOk(s, b);
    forall k | k in m && k > s.pages[a].keys[|s.pages[a].keys| - 1] ensures k >= s.pages[b].keys[0] {
      var c := LeafOf(s, root, k, m);
      assert a != c ==> Disjoint(s, a, c);
      assert b != c ==> Disjoint(s, b, c);
    }
  }

  /** Nothing is stored above the last key of the leaf that owns the top of the key space. */
  lemma NothingAbove(s: Shape, root: int, a: int, m: map<int, int>)
    requires Ok(s, root) && Represents(s.pages, m)
    requires 0 <= a < |s.pages| && s.pages[a].leaf && |s.pages[a].keys| > 0 && s.meta[a].high == s.bound
    ensures forall k :: k in m ==> k <= s.pages[a].keys[|s.pages[a].keys| - 1]
  {
    assert PageOk(s, a);
    forall k | k in m ensures k <= s.pages[a].keys[|s.pages[a].keys| - 1] {
      var c := LeafOf(s, root, k, m);
      assert a != c ==> Disjoint(s, a, c);
      assert PageOk(s, c);
    }
  }

  /** Nothing is stored below the first key of the leaf that owns the bottom. */
  lemma NothingBelow(s: Shape, root: int, a: int, m: map<int, int>)
    requires Ok(s, root) && Represents(s.pages, m)
    requires 0 <= a < |s.pages| && s.pages[a].leaf && |s.pages[a].keys| > 0 && s.meta[a].low == 0
    ensures forall k :: k in m ==> s.pages[a].keys[0] <= k
  {
    assert PageOk(s, a);
    forall k | k in m ensures s.pages[a].keys[0] <= k {
      var c := LeafOf(s, root, k, m);
      assert a != c ==> Disjoint(s, a, c);
      assert PageOk(s, c);
    }
  }
}
