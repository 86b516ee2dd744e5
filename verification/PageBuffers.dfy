/** One index page as the program stores it: a fixed buffer of slots that is shifted and
    split in place (memfh.h:28-35, memfh_idx.c:316-372 and 409-444). */
module PageBuffers {
  import opened PageGraph

  /** A key and the pointer stored behind it. A key of `keylen` bytes is represented by
      its big-endian value (see `Memory.CompareIsValueOrder`). */
  datatype Slot = Slot(key: int, ptr: int)

  const PAGE_BYTES := 4096 - 12

  /** Number of slots that fit in the page buffer. */
  function Capacity(keylen: nat, ptrSize: nat): nat
    requires keylen + ptrSize > 0
  {
    PAGE_BYTES / (keylen + ptrSize)
  }

  /** MEMFH_MAX_ITEMS: a page is split when it reaches this many slots. */
  function MaxItems(keylen: nat, ptrSize: nat): int
    requires keylen + ptrSize > 0
  {
    Capacity(keylen, ptrSize) - 1
  }

  /** For every admissible key length a full page, one slot above what is kept between
      operations, still lies inside the buffer, and both halves of a split are non-empty. */
  lemma FullPageFits(keylen: nat, ptrSize: nat)
    requires 1 <= keylen <= 256 && (ptrSize == 4 || ptrSize == 8)
    ensures 14 <= MaxItems(keylen, ptrSize) < Capacity(keylen, ptrSize)
    ensures MaxItems(keylen, ptrSize) * (keylen + ptrSize) + (keylen + ptrSize) <= PAGE_BYTES
    ensures (MaxItems(keylen, ptrSize) + 1) * (keylen + ptrSize) <= 4084
          < (MaxItems(keylen, ptrSize) + 2) * (keylen + ptrSize)
  {
    var w := keylen + ptrSize;
    var c := PAGE_BYTES / w;
    assert w * c <= PAGE_BYTES < w * c + w;
    if c < 15 {
      assert false;
    }
  }

  ghost function KeysOf(b: seq<Slot>): (r: seq<int>)
    ensures |r| == |b|
  {
    seq(|b|, i requires 0 <= i < |b| => b[i].key)
  }

  ghost function PtrsOf(b: seq<Slot>): (r: seq<int>)
    ensures |r| == |b|
  {
    seq(|b|, i requires 0 <= i < |b| => b[i].ptr)
  }

  ghost function PageOf(leaf: bool, slots: seq<Slot>, next: int): (p: Page)
    ensures |p.keys| == |slots| && |p.ptrs| == |slots| + if leaf then 0 else 1
  {
    Page(leaf, KeysOf(slots), if leaf then PtrsOf(slots) else PtrsOf(slots) + [next])
  }

  lemma LinkedInLast(slots: seq<Slot>, a: int, m: int, b: int)
    ensures PageOf(false, slots + [Slot(m, a)], b) == Linked(PageOf(false, slots, a), |slots|, m, b)
  {
    var q, r := PageOf(false, slots + [Slot(m, a)], b), Linked(PageOf(false, slots, a), |slots|, m, b);
    assert q.keys == r.keys;
    assert q.ptrs == r.ptrs;
  }

  lemma LinkedInSlot(slots: seq<Slot>, next: int, i: nat, m: int, b: int)
    requires i < |slots|
    ensures PageOf(false, slots[..i] + [Slot(m, slots[i].ptr), Slot(slots[i].key, b)] + slots[i + 1..], next)
            == Linked(PageOf(false, slots, next), i, m, b)
  {
    var q := PageOf(false, slots[..i] + [Slot(m, slots[i].ptr), Slot(slots[i].key, b)] + slots[i + 1..], next);
    var r := Linked(PageOf(false, slots, next), i, m, b);
    assert q.keys == r.keys;
    assert q.ptrs == r.ptrs;
  }

  ghost function LowerHalf(p: Page, b: int): Page
    requires |p.keys| <= |p.ptrs|
  {
    var k := |p.keys| / 2;
    Page(p.leaf, p.keys[..k], if p.leaf then p.ptrs[..k] else p.ptrs[..k] + [b])
  }

  ghost function UpperHalf(p: Page): Page
    requires |p.keys| <= |p.ptrs|
  {
    var k := |p.keys| / 2;
    Page(p.leaf, p.keys[k..], p.ptrs[k..])
  }

  lemma HalvesOf(leaf: bool, slots: seq<Slot>, next: int, b: int)
    ensures var p, k := PageOf(leaf, slots, next), |slots| / 2;
            && (forall m :: leaf || m == b ==> PageOf(leaf, slots[..k], m) == LowerHalf(p, b))
            && (forall m :: leaf || m == next ==> PageOf(leaf, slots[k..], m) == UpperHalf(p))
  {
    var p, k := PageOf(leaf, slots, next), |slots| / 2;
    assert KeysOf(slots[..k]) == p.keys[..k] && KeysOf(slots[k..]) == p.keys[k..];
    assert PtrsOf(slots[..k]) == p.ptrs[..k];
    assert leaf ==> PtrsOf(slots[k..]) == p.ptrs[k..];
    assert !leaf ==> PtrsOf(slots[k..]) + [next] == p.ptrs[k..];
  }

  class PageBuf {
    var leaf: bool
    var n: nat
    var next: int
    const buf: array<Slot>

    constructor (leaf: bool, capacity: nat)
      ensures this.leaf == leaf && n == 0 && next == NULL
      ensures fresh(buf) && buf.Length == capacity
    {
      this.leaf, n, next := leaf, 0, NULL;
      buf := new Slot[capacity](_ => Slot(0, NULL));
    }

    /** The page as a value. */
    ghost function View(): (p: Page)
      requires n <= buf.Length
      reads this, buf
    {
      PageOf(leaf, buf[..n], next)
    }

    /** Opens position `i` by shifting the slots above it, one by one from the end. */
    method InsertAt(i: nat, x: Slot)
      requires i <= n < buf.Length
      modifies this`n, buf
      ensures n == old(n) + 1
      ensures buf[..n] == old(buf[..n])[..i] + [x] + old(buf[..n])[i..]
    {
      ghost var was := buf[..n];
      var j := n;
      while j > i
        invariant i <= j <= n == old(n)
        invariant forall k :: 0 <= k < j ==> buf[k] == was[k]
        invariant forall k :: j < k <= n ==> buf[k] == was[k - 1]
      {
        buf[j] := buf[j - 1];
        j := j - 1;
      }
      buf[i] := x;
      n := n + 1;
    }

    /** Moves the slots from `k` on to the empty page `q`. */
    method MoveUpper(q: PageBuf, k: nat)
      requires q != this && q.buf != buf && q.n == 0
      requires k <= n <= buf.Length == q.buf.Length
      modifies this`n, q`n, q.buf
      ensures n == k && q.n == old(n) - k
      ensures buf[..n] == old(buf[..n])[..k] && q.buf[..q.n] == old(buf[..n])[k..]
    {
      var m := n - k;
      var i := 0;
      while i < m
        invariant 0 <= i <= m
        invariant q.buf[..i] == buf[k..k + i]
      {
        q.buf[i] := buf[k + i];
        i := i + 1;
      }
      n, q.n := k, m;
    }

    /** Splits the page: the upper half goes to a new page, which is at address `b`. A
        branch is linked to it through `next`. */
    method Split(b: int) returns (q: PageBuf)
      requires n <= buf.Length
      modifies this
      ensures fresh(q) && fresh(q.buf) && q.buf.Length == buf.Length
      ensures n <= buf.Length && q.n <= q.buf.Length
      ensures n == old(n) / 2 && buf[..n] == old(buf[..n])[..old(n) / 2]
      ensures q.n == old(n) - old(n) / 2 && q.buf[..q.n] == old(buf[..n])[old(n) / 2..]
      ensures View() == LowerHalf(old(View()), b) && q.View() == UpperHalf(old(View()))
    {
      ghost var was, last := buf[..n], next;
      q := new PageBuf(leaf, buf.Length);
      var k := n / 2;
      if !leaf {
        q.next := next;
      }
      MoveUpper(q, k);
      if !leaf {
        next := b;
      }
      HalvesOf(leaf, was, last, b);
    }

    /** Makes the page a root with one separator. */
    method SetRoot(m: int, a: int, b: int)
      requires !leaf && buf.Length > 0
      modifies this, buf
      ensures !leaf && n == 1 && View() == Page(false, [m], [a, b])
    {
      buf[0], n, next := Slot(m, a), 1, b;
      assert View().keys == [m];
      assert View().ptrs == [a, b];
    }

    /** Child `a` was split and its upper half, starting at key `m`, placed at `b`. The
        page is searched for `a`, first in `next` and then slot by slot. */
    method AddLink(a: int, b: int, m: int, ghost i: nat)
      requires !leaf && n < buf.Length
      requires i <= n && View().ptrs[i] == a
      requires forall j, k :: 0 <= j < k <= n ==> View().ptrs[j] != View().ptrs[k]
      modifies this`n, this`next, buf
      ensures n == old(n) + 1
      ensures View() == Linked(old(View()), i, m, b)
    {
      ghost var p, was := View(), buf[..n];
      if next == a {
        assert p.ptrs[n] == next;
        LinkedInLast(was, a, m, b);
        buf[n] := Slot(m, a);
        next := b;
        n := n + 1;
        assert buf[..n] == was + [Slot(m, a)];
      } else {
        assert i < n && buf[i].ptr == a && forall j :: 0 <= j < i ==> buf[j].ptr != a by {
          assert p.ptrs[n] == next;
          assert forall j :: 0 <= j < n ==> p.ptrs[j] == buf[j].ptr;
        }
        var j := FindSlot(a, i);
        LinkedInSlot(was, next, i, m, b);
        InsertAt(j, Slot(m, a));
        buf[j + 1] := Slot(buf[j + 1].key, b);
        assert buf[..n] == was[..i] + [Slot(m, was[i].ptr), Slot(was[i].key, b)] + was[i + 1..];
      }
    }

    /** The first slot that points to `a`. */
    method FindSlot(a: int, ghost i: nat) returns (j: nat)
      requires i < n <= buf.Length && buf[i].ptr == a
      requires forall j :: 0 <= j < i ==> buf[j].ptr != a
      ensures j == i
    {
      j := 0;
      while buf[j].ptr != a
        invariant 0 <= j <= i
        decreases i - j
      {
        j := j + 1;
      }
    }
  }
}
