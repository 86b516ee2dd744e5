/** Point addition on twisted Edwards curves in extended coordinates (putty/ecc.c). */
module Edwards {
  import opened Ladder
  import opened Modular
  import opened Powers

  // ---- Points ----

  datatype Curve = Curve(p: int, a: int, d: int)

  datatype Point = Point(X: int, Y: int, Z: int, T: int)

  /** ecc_edwards_add. */
  function Add(c: Curve, P: Point, Q: Point): Point
    requires c.p > 0
  {
    var p := c.p;
    var PxQx := MulMod(p, P.X, Q.X);
    var PyQy := MulMod(p, P.Y, Q.Y);
    var PtQt := MulMod(p, P.T, Q.T);
    var PzQz := MulMod(p, P.Z, Q.Z);
    var sumprod := MulMod(p, AddMod(p, P.X, P.Y), AddMod(p, Q.X, Q.Y));
    var dPtQt := MulMod(p, c.d, PtQt);
    var E := SubMod(p, sumprod, AddMod(p, PxQx, PyQy));
    var F := SubMod(p, PzQz, dPtQt);
    var G := AddMod(p, PzQz, dPtQt);
    var H := SubMod(p, PyQy, MulMod(p, c.a, PxQx));
    Point(MulMod(p, E, F), MulMod(p, G, H), MulMod(p, F, G), MulMod(p, H, E))
  }

  /** The extra coordinate is kept: X * Y = Z * T. */
  ghost predicate Extended(c: Curve, P: Point) {
    Cong(c.p, P.X * P.Y, P.Z * P.T)
  }

  lemma CrossProduct(x1: int, y1: int, x2: int, y2: int)
    ensures (x1 + y1) * (x2 + y2) - (x1 * x2 + y1 * y2) == x1 * y2 + y1 * x2
  {
  }

  /** The saved multiplication: (x1 + y1)(x2 + y2) - x1 x2 - y1 y2 = x1 y2 + y1 x2. */
  lemma CrossCong(p: int, x1: int, y1: int, x2: int, y2: int)
    requires p > 0
    ensures Cong(p, SubMod(p, MulMod(p, AddMod(p, x1, y1), AddMod(p, x2, y2)),
                           AddMod(p, MulMod(p, x1, x2), MulMod(p, y1, y2))), x1 * y2 + y1 * x2)
  {
    CongSame(p, x1); CongSame(p, y1); CongSame(p, x2); CongSame(p, y2);
    var u, v := AddMod(p, x1, y1), AddMod(p, x2, y2);
    AddModCong(p, x1, y1, x1, y1);
    AddModCong(p, x2, y2, x2, y2);
    MulModCong(p, u, v, x1 + y1, x2 + y2);
    MulModCong(p, x1, x2, x1, x2);
    MulModCong(p, y1, y2, y1, y2);
    var s, t := MulMod(p, x1, x2), MulMod(p, y1, y2);
    var l, m := x1 * x2, y1 * y2;
    AddModCong(p, s, t, l, m);
    AddModCong(p, MulMod(p, u, v), AddMod(p, s, t), (x1 + y1) * (x2 + y2), l + m);
    CrossProduct(x1, y1, x2, y2);
  }

  /** w +- k m n, as computed. */
  lemma ScaledCong(p: int, w: int, w': int, k: int, m: int, n: int)
    requires p > 0 && Cong(p, w, w')
    ensures var q := MulMod(p, k, MulMod(p, m, n));
            Cong(p, AddMod(p, w, q), w' + k * (m * n)) && Cong(p, SubMod(p, w, q), w' - k * (m * n))
  {
    CongSame(p, k); CongSame(p, m); CongSame(p, n);
    MulModCong(p, m, n, m, n);
    var mn := m * n;
    MulModCong(p, k, MulMod(p, m, n), k, mn);
    var kmn := k * mn;
    AddModCong(p, w, MulMod(p, k, MulMod(p, m, n)), w', kmn);
  }

  /** The four factors of the sum, with the optimisation of the code undone. */
  ghost function FactorE(P: Point, Q: Point): int { P.X * Q.Y + P.Y * Q.X }
  ghost function FactorF(c: Curve, P: Point, Q: Point): int { P.Z * Q.Z - c.d * (P.T * Q.T) }
  ghost function FactorG(c: Curve, P: Point, Q: Point): int { P.Z * Q.Z + c.d * (P.T * Q.T) }
  ghost function FactorH(c: Curve, P: Point, Q: Point): int { P.Y * Q.Y - c.a * (P.X * Q.X) }

  /** What the code computes is these factors' products. */
  ghost predicate Factored(p: int, S: Point, E: int, F: int, G: int, H: int) {
    && Cong(p, S.X, E * F) && Cong(p, S.Y, G * H)
    && Cong(p, S.Z, F * G) && Cong(p, S.T, H * E)
  }

  lemma AddFactors(c: Curve, P: Point, Q: Point)
    requires c.p > 0
    ensures Factored(c.p, Add(c, P, Q), FactorE(P, Q), FactorF(c, P, Q), FactorG(c, P, Q), FactorH(c, P, Q))
  {
    var p := c.p;
    CrossCong(p, P.X, P.Y, Q.X, Q.Y);
    ProductCong(p, P.Z, Q.Z);
    ProductCong(p, P.Y, Q.Y);
    ScaledCong(p, MulMod(p, P.Z, Q.Z), P.Z * Q.Z, c.d, P.T, Q.T);
    ScaledCong(p, MulMod(p, P.Y, Q.Y), P.Y * Q.Y, c.a, P.X, Q.X);
    FactorsMultiply(c, P, Q, FactorE(P, Q), FactorF(c, P, Q), FactorG(c, P, Q), FactorH(c, P, Q));
  }

  lemma FactorsMultiply(c: Curve, P: Point, Q: Point, E: int, F: int, G: int, H: int)
    requires c.p > 0
    requires Cong(c.p, SubMod(c.p, MulMod(c.p, AddMod(c.p, P.X, P.Y), AddMod(c.p, Q.X, Q.Y)),
                              AddMod(c.p, MulMod(c.p, P.X, Q.X), MulMod(c.p, P.Y, Q.Y))), E)
    requires Cong(c.p, SubMod(c.p, MulMod(c.p, P.Z, Q.Z), MulMod(c.p, c.d, MulMod(c.p, P.T, Q.T))), F)
    requires Cong(c.p, AddMod(c.p, MulMod(c.p, P.Z, Q.Z), MulMod(c.p, c.d, MulMod(c.p, P.T, Q.T))), G)
    requires Cong(c.p, SubMod(c.p, MulMod(c.p, P.Y, Q.Y), MulMod(c.p, c.a, MulMod(c.p, P.X, Q.X))), H)
    ensures Factored(c.p, Add(c, P, Q), E, F, G, H)
  {
    var p := c.p;
    var e := SubMod(p, MulMod(p, AddMod(p, P.X, P.Y), AddMod(p, Q.X, Q.Y)),
                    AddMod(p, MulMod(p, P.X, Q.X), MulMod(p, P.Y, Q.Y)));
    var f := SubMod(p, MulMod(p, P.Z, Q.Z), MulMod(p, c.d, MulMod(p, P.T, Q.T)));
    var g := AddMod(p, MulMod(p, P.Z, Q.Z), MulMod(p, c.d, MulMod(p, P.T, Q.T)));
    var h := SubMod(p, MulMod(p, P.Y, Q.Y), MulMod(p, c.a, MulMod(p, P.X, Q.X)));
    MulModCong(p, e, f, E, F);
    MulModCong(p, g, h, G, H);
    MulModCong(p, f, g, F, G);
    MulModCong(p, h, e, H, E);
  }

  lemma Rearrange(e: int, f: int, g: int, h: int)
    ensures (e * f) * (g * h) == (f * g) * (h * e)
  {
  }

  lemma FactoredExtended(p: int, S: Point, E: int, F: int, G: int, H: int)
    requires Factored(p, S, E, F, G, H)
    ensures Cong(p, S.X * S.Y, S.Z * S.T)
  {
    CongMul(p, S.X, E * F, S.Y, G * H);
    CongMul(p, S.Z, F * G, S.T, H * E);
    Rearrange(E, F, G, H);
    CongSym(p, S.Z * S.T, (F * G) * (H * E));
    CongTrans(p, S.X * S.Y, (E * F) * (G * H), S.Z * S.T);
  }

  /** Whatever its inputs, the sum has a consistent extra coordinate. */
  lemma SumIsExtended(c: Curve, P: Point, Q: Point)
    requires c.p > 0
    ensures Extended(c, Add(c, P, Q))
  {
    AddFactors(c, P, Q);
    FactoredExtended(c.p, Add(c, P, Q), FactorE(P, Q), FactorF(c, P, Q), FactorG(c, P, Q), FactorH(c, P, Q));
  }

  // ---- The sum is the affine sum ----

  lemma Regroup(u: int, f: int, z: int, g: int)
    ensures (u * f) * (z * g) == (f * g) * (z * u)
  {
  }

  lemma Distribute(z: int, d: int, k: int, sign: int)
    ensures z * z + sign * (d * (z * k)) == z * (z + sign * (d * k))
  {
  }

  /** One coordinate w / sz of the sum, cross-multiplied with u z / (z^2 +- d xy). */
  lemma AffineCoordinate(p: int, w: int, sz: int, u: int, z: int, d: int, k: int, xy: int, sign: int,
                         f: int, g: int)
    requires Cong(p, w, u * f) && Cong(p, sz, f * g) && Cong(p, xy, z * k)
    requires g == z + sign * (d * k)
    ensures Cong(p, w * (z * z + sign * (d * xy)), sz * (z * u))
  {
    CongSame(p, d); CongSame(p, sign); CongSame(p, z * z);
    var zk := z * k;
    CongMul(p, d, d, xy, zk);
    var dxy, dzk := d * xy, d * zk;
    CongMul(p, sign, sign, dxy, dzk);
    CongAdd(p, z * z, z * z, sign * dxy, sign * dzk);
    Distribute(z, d, k, sign);
    var zg := z * g;
    CongMul(p, w, u * f, z * z + sign * dxy, zg);
    var zu := z * u;
    CongSame(p, zu);
    CongMul(p, sz, f * g, zu, zu);
    Regroup(u, f, z, g);
    CongSym(p, sz * zu, (f * g) * zu);
    CongTrans(p, w * (z * z + sign * dxy), (u * f) * zg, sz * zu);
  }

  lemma PairUp(x1: int, y1: int, x2: int, y2: int)
    ensures (x1 * y1) * (x2 * y2) == (x1 * x2) * (y1 * y2)
  {
  }

  /** With z = Z1 Z2 and m = X1 Y1 X2 Y2, the affine addition law, denominators cleared:
      X3 / Z3 = z (X1 Y2 + Y1 X2) / (z^2 + d m) and Y3 / Z3 = z (Y1 Y2 - a X1 X2) / (z^2 - d m). */
  lemma AffineSum(c: Curve, P: Point, Q: Point)
    requires c.p > 0 && Extended(c, P) && Extended(c, Q)
    ensures var S, z, m := Add(c, P, Q), P.Z * Q.Z, (P.X * P.Y) * (Q.X * Q.Y);
            && Cong(c.p, S.X * (z * z + 1 * (c.d * m)), S.Z * (z * FactorE(P, Q)))
            && Cong(c.p, S.Y * (z * z + -1 * (c.d * m)), S.Z * (z * FactorH(c, P, Q)))
    ensures Cong(c.p, Add(c, P, Q).Z,
                 (P.Z * Q.Z - c.d * (P.T * Q.T)) * (P.Z * Q.Z + c.d * (P.T * Q.T)))
  {
    var p, S := c.p, Add(c, P, Q);
    var E, F, G, H := FactorE(P, Q), FactorF(c, P, Q), FactorG(c, P, Q), FactorH(c, P, Q);
    var z, k, m := P.Z * Q.Z, P.T * Q.T, (P.X * P.Y) * (Q.X * Q.Y);
    AddFactors(c, P, Q);
    CongMul(p, P.X * P.Y, P.Z * P.T, Q.X * Q.Y, Q.Z * Q.T);
    PairUp(P.Z, P.T, Q.Z, Q.T);
    AffineCoordinate(p, S.X, S.Z, E, z, c.d, k, m, 1, F, G);
    Swap(G, H);
    Swap(F, G);
    AffineCoordinate(p, S.Y, S.Z, H, z, c.d, k, m, -1, G, F);
  }

  lemma Swap(x: int, y: int)
    ensures x * y == y * x
  {
  }

  // ---- Multiplication ----

  /** The group law: representations of iB and jB add up to one of (i+j)B. */
  ghost predicate AddsUp(c: Curve, rep: (Point, nat) -> bool)
    requires c.p > 0
  {
    forall x, y, i, j {:trigger Add(c, x, y), rep(x, i), rep(y, j)} ::
      i >= 1 && j >= 1 && rep(x, i) && rep(y, j) ==> rep(Add(c, x, y), i + j)
  }

  ghost function Both(c: Curve, rep: (Point, nat) -> bool): (Point, nat) -> bool {
    (x: Point, k: nat) => rep(x, k) && Extended(c, x)
  }

  lemma GroupLawServes(c: Curve, rep: (Point, nat) -> bool, b: Point)
    requires c.p > 0 && AddsUp(c, rep)
    ensures Doubles(Both(c, rep), x => Add(c, x, x))
    ensures AddsNeighbours(Both(c, rep), (x, y, z) => Add(c, x, y), b)
  {
    var r := Both(c, rep);
    forall x, k | k >= 1 && r(x, k) ensures r(Add(c, x, x), 2 * k) {
      SumIsExtended(c, x, x);
      assert k + k == 2 * k;
    }
    forall x, y, k | k >= 1 && r(x, k) && r(y, k + 1) ensures r(Add(c, x, y), 2 * k + 1) {
      SumIsExtended(c, x, y);
      assert k + (k + 1) == 2 * k + 1;
    }
  }

  /** ecc_edwards_multiply. */
  method MultiplyPoint(c: Curve, b: Point, n: nat, bits: nat, ghost rep: (Point, nat) -> bool) returns (r: Point)
    requires c.p > 0 && n < Pow(2, bits) && rep(b, 1) && AddsUp(c, rep) && Extended(c, b)
    ensures n >= 1 ==> rep(r, n)
    ensures n == 0 ==> r == b
    ensures Extended(c, r)
  {
    GroupLawServes(c, rep, b);
    r := Multiply(b, n, bits, (x, y, z) => Add(c, x, y), x => Add(c, x, x), Both(c, rep));
  }
}
