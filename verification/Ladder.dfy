/** Scalar multiplication by the ladder of putty/ecc.c, for both kinds of curve. */
module Ladder {
  import opened Powers

  // `rep(x, k)` says that the coordinates `x` stand for k times the fixed point B.

  /** Doubling a representation of kB gives one of 2kB. */
  ghost predicate Doubles<P(!new)>(rep: (P, nat) -> bool, double: P -> P) {
    forall x, k {:trigger double(x), rep(x, k)} :: k >= 1 && rep(x, k) ==> rep(double(x), 2 * k)
  }

  /** Two points that differ by B can be added: kB and (k+1)B give (2k+1)B. */
  ghost predicate AddsNeighbours<P(!new)>(rep: (P, nat) -> bool, add: (P, P, P) -> P, b: P) {
    forall x, y, k {:trigger add(x, y, b), rep(x, k)} ::
      k >= 1 && rep(x, k) && rep(y, k + 1) ==> rep(add(x, y, b), 2 * k + 1)
  }

  /** n without its lowest i bits. */
  function High(n: nat, i: nat): nat {
    if i == 0 then n else High(n, i - 1) / 2
  }

  /** mp_get_bit. */
  function Bit(n: nat, i: nat): nat {
    High(n, i) % 2
  }

  lemma {:induction false} HighHalf(n: nat, i: nat)
    ensures High(n / 2, i) == High(n, i + 1)
  {
    if i > 0 { HighHalf(n, i - 1); }
  }

  lemma {:induction false} NoHighBits(n: nat, bits: nat)
    requires n < Pow(2, bits)
    ensures High(n, bits) == 0
  {
    if bits > 0 {
      NoHighBits(n / 2, bits - 1);
      HighHalf(n, bits - 1);
    }
  }

  /** One round of the ladder: from kB and (k+1)B. */
  lemma Round<P(!new)>(rep: (P, nat) -> bool, add: (P, P, P) -> P, double: P -> P, b: P, x: P, y: P, k: nat)
    requires Doubles(rep, double) && AddsNeighbours(rep, add, b)
    requires k >= 1 && rep(x, k) && rep(y, k + 1)
    ensures rep(add(x, y, b), 2 * k + 1) && rep(double(x), 2 * k) && rep(double(y), 2 * k + 2)
  {
    assert 2 * (k + 1) == 2 * k + 2;
  }

  /** ecc_montgomery_multiply, and ecc_edwards_multiply with an addition that ignores its
      third argument. `bits` is mp_max_bits(n): at least as many bits as n has. */
  method Multiply<P(!new)>(b: P, n: nat, bits: nat, add: (P, P, P) -> P, double: P -> P,
                           ghost rep: (P, nat) -> bool)
    returns (result: P)
    requires n < Pow(2, bits)
    requires rep(b, 1) && Doubles(rep, double) && AddsNeighbours(rep, add, b)
    ensures n >= 1 ==> rep(result, n)
    ensures n == 0 ==> result == b
  {
    var twoB := double(b);
    var kB, kPlus1B := b, twoB;
    var notStartedYet := true;
    var i := bits;
    NoHighBits(n, bits);
    assert rep(twoB, 2 * 1);
    while i > 0
      invariant 0 <= i <= bits
      invariant notStartedYet <==> High(n, i) == 0
      invariant notStartedYet ==> kB == b && kPlus1B == twoB
      invariant !notStartedYet ==> rep(kB, High(n, i)) && rep(kPlus1B, High(n, i) + 1)
    {
      i := i - 1;
      var bit := Bit(n, i) == 1;
      Round(rep, add, double, b, kB, kPlus1B, if notStartedYet then 1 else High(n, i + 1));
      var sum := add(kB, kPlus1B, b);
      if bit { kB, kPlus1B := kPlus1B, kB; }
      var other := double(kB);
      kB, kPlus1B := other, sum;
      if bit { kB, kPlus1B := kPlus1B, kB; }
      if notStartedYet { kB, kPlus1B := b, twoB; }
      if bit { notStartedYet := false; }
    }
    result := kB;
  }
}
