/** Point arithmetic on Montgomery curves by X and Z alone (putty/ecc.c). */
module Montgomery {
  import opened Ladder
  import opened Modular
  import opened Powers

  /** y^2 = x^3 + a x^2 + x; the program keeps (a + 2) / 4. */
  datatype Curve = Curve(p: int, a: int, aPlus2Over4: int)

  /** Stands for x = X / Z. */
  datatype Point = Point(X: int, Z: int)

  ghost predicate ValidCurve(c: Curve) {
    c.p > 0 && Cong(c.p, 4 * c.aPlus2Over4, c.a + 2)
  }

  /** ecc_montgomery_diff_add. */
  function DiffAdd(c: Curve, P: Point, Q: Point, PminusQ: Point): Point
    requires c.p > 0
  {
    var p := c.p;
    var PmQp := MulMod(p, SubMod(p, P.X, P.Z), AddMod(p, Q.X, Q.Z));
    var PpQm := MulMod(p, AddMod(p, P.X, P.Z), SubMod(p, Q.X, Q.Z));
    var Xpre := AddMod(p, PmQp, PpQm);
    var Zpre := SubMod(p, PmQp, PpQm);
    Point(MulMod(p, MulMod(p, Xpre, Xpre), PminusQ.Z), MulMod(p, MulMod(p, Zpre, Zpre), PminusQ.X))
  }

  /** ecc_montgomery_double. */
  function Double(c: Curve, P: Point): Point
    requires c.p > 0
  {
    var p := c.p;
    var m := SubMod(p, P.X, P.Z);
    var s := AddMod(p, P.X, P.Z);
    var m2, s2 := MulMod(p, m, m), MulMod(p, s, s);
    var XZ := MulMod(p, P.X, P.Z);
    var twoXZ := AddMod(p, XZ, XZ);
    var fourXZ := AddMod(p, twoXZ, twoXZ);
    var Zpre := AddMod(p, m2, MulMod(p, fourXZ, c.aPlus2Over4));
    Point(MulMod(p, m2, s2), MulMod(p, fourXZ, Zpre))
  }

  // ---- Differential addition ----

  ghost function Dot(P: Point, Q: Point): int { P.X * Q.X - P.Z * Q.Z }
  ghost function Cross(P: Point, Q: Point): int { P.X * Q.Z - P.Z * Q.X }

  lemma SumOfProducts(px: int, pz: int, qx: int, qz: int)
    ensures (px - pz) * (qx + qz) + (px + pz) * (qx - qz) == 2 * (px * qx - pz * qz)
    ensures (px - pz) * (qx + qz) - (px + pz) * (qx - qz) == 2 * (px * qz - pz * qx)
  {
    assert (px - pz) * (qx + qz) == px * qx + px * qz - pz * qx - pz * qz;
    assert (px + pz) * (qx - qz) == px * qx - px * qz + pz * qx - pz * qz;
  }

  lemma ProductsCong(p: int, px: int, pz: int, qx: int, qz: int)
    requires p > 0
    ensures var u := MulMod(p, SubMod(p, px, pz), AddMod(p, qx, qz));
      var v := MulMod(p, AddMod(p, px, pz), SubMod(p, qx, qz));
      && Cong(p, AddMod(p, u, v), 2 * (px * qx - pz * qz))
      && Cong(p, SubMod(p, u, v), 2 * (px * qz - pz * qx))
  {
    CongSame(p, px); CongSame(p, pz); CongSame(p, qx); CongSame(p, qz);
    AddModCong(p, px, pz, px, pz);
    AddModCong(p, qx, qz, qx, qz);
    MulModCong(p, SubMod(p, px, pz), AddMod(p, qx, qz), px - pz, qx + qz);
    MulModCong(p, AddMod(p, px, pz), SubMod(p, qx, qz), px + pz, qx - qz);
    var a, b := (px - pz) * (qx + qz), (px + pz) * (qx - qz);
    AddModCong(p, MulMod(p, SubMod(p, px, pz), AddMod(p, qx, qz)),
               MulMod(p, AddMod(p, px, pz), SubMod(p, qx, qz)), a, b);
    SumOfProducts(px, pz, qx, qz);
  }

  lemma SquareTimes(p: int, x: int, y: int, k: int)
    requires p > 0 && Cong(p, x, y)
    ensures Cong(p, MulMod(p, MulMod(p, x, x), k), (y * y) * k)
  {
    MulModCong(p, x, x, y, y);
    CongSame(p, k);
    var yy := y * y;
    MulModCong(p, MulMod(p, x, x), k, yy, k);
  }

  lemma CancelFours(u: int, v: int, dx: int, dz: int)
    ensures ((2 * u) * (2 * u) * dz) * (dx * (v * v)) == ((2 * v) * (2 * v) * dx) * (dz * (u * u))
  {
    var uu, vv := u * u, v * v;
    assert (2 * u) * (2 * u) == 4 * uu && (2 * v) * (2 * v) == 4 * vv;
    FourWay(uu, vv, dx, dz);
  }

  lemma FourWay(uu: int, vv: int, dx: int, dz: int)
    ensures (4 * uu * dz) * (dx * vv) == (4 * vv * dx) * (dz * uu)
  {
    var w := dx * dz;
    assert (4 * uu * dz) * (dx * vv) == 4 * (uu * vv) * w;
    assert (4 * vv * dx) * (dz * uu) == 4 * (uu * vv) * w;
  }

  /** x(P+Q) x(P-Q) (x(P) - x(Q))^2 = (x(P) x(Q) - 1)^2 with denominators cleared. */
  lemma DifferentialAddition(c: Curve, P: Point, Q: Point, D: Point)
    requires c.p > 0
    ensures var S, u, v := DiffAdd(c, P, Q, D), Dot(P, Q), Cross(P, Q);
      Cong(c.p, S.X * (D.X * (v * v)), S.Z * (D.Z * (u * u)))
    ensures var S, u, v := DiffAdd(c, P, Q, D), Dot(P, Q), Cross(P, Q);
      Cong(c.p, S.X, (2 * u) * (2 * u) * D.Z) && Cong(c.p, S.Z, (2 * v) * (2 * v) * D.X)
  {
    var p, S, u, v := c.p, DiffAdd(c, P, Q, D), Dot(P, Q), Cross(P, Q);
    ProductsCong(p, P.X, P.Z, Q.X, Q.Z);
    var a := MulMod(p, SubMod(p, P.X, P.Z), AddMod(p, Q.X, Q.Z));
    var b := MulMod(p, AddMod(p, P.X, P.Z), SubMod(p, Q.X, Q.Z));
    SquareTimes(p, AddMod(p, a, b), 2 * u, D.Z);
    SquareTimes(p, SubMod(p, a, b), 2 * v, D.X);
    CrossMultiplied(p, S.X, S.Z, u, v, D.X, D.Z);
  }

  lemma CrossMultiplied(p: int, sx: int, sz: int, u: int, v: int, dx: int, dz: int)
    requires Cong(p, sx, (2 * u) * (2 * u) * dz) && Cong(p, sz, (2 * v) * (2 * v) * dx)
    ensures Cong(p, sx * (dx * (v * v)), sz * (dz * (u * u)))
  {
    var l, r := dx * (v * v), dz * (u * u);
    var x, z := (2 * u) * (2 * u) * dz, (2 * v) * (2 * v) * dx;
    CongSame(p, l);
    CongSame(p, r);
    CongMul(p, sx, x, l, l);
    CongMul(p, sz, z, r, r);
    CancelFours(u, v, dx, dz);
    CongSym(p, sz * r, z * r);
    CongTrans(p, sx * l, x * l, sz * r);
  }

  // ---- Doubling ----

  /** (X + Z)^2 (X - Z)^2 and 4 X Z (X^2 + a X Z + Z^2). */
  ghost function DoubledX(P: Point): int { ((P.X - P.Z) * (P.X - P.Z)) * ((P.X + P.Z) * (P.X + P.Z)) }
  ghost function DoubledZ(c: Curve, P: Point): int { (4 * (P.X * P.Z)) * (P.X * P.X + c.a * (P.X * P.Z) + P.Z * P.Z) }

  lemma FourTimes(p: int, x: int, z: int)
    requires p > 0
    ensures var t := AddMod(p, MulMod(p, x, z), MulMod(p, x, z));
      Cong(p, AddMod(p, t, t), 4 * (x * z))
  {
    var m := MulMod(p, x, z);
    var t := AddMod(p, m, m);
    ProductCong(p, x, z);
    var xz := x * z;
    AddModCong(p, m, m, xz, xz);
    AddModCong(p, t, t, xz + xz, xz + xz);
    assert xz + xz + (xz + xz) == 4 * xz;
  }

  lemma SquareOfDifference(x: int, z: int, a: int)
    ensures (x - z) * (x - z) + (a + 2) * (x * z) == x * x + a * (x * z) + z * z
  {
    var xz := x * z;
    assert (x - z) * (x - z) == x * x - 2 * xz + z * z;
    assert (a + 2) * xz == a * xz + 2 * xz;
  }

  /** The doubled point has x = (x+1)^2 (x-1)^2 / 4 (x^3 + a x^2 + x), in projective form. */
  lemma Doubling(c: Curve, P: Point)
    requires ValidCurve(c)
    ensures Cong(c.p, Double(c, P).X, DoubledX(P)) && Cong(c.p, Double(c, P).Z, DoubledZ(c, P))
  {
    var p, x, z := c.p, P.X, P.Z;
    CongSame(p, x); CongSame(p, z);
    AddModCong(p, x, z, x, z);
    var m, s := SubMod(p, x, z), AddMod(p, x, z);
    MulModCong(p, m, m, x - z, x - z);
    MulModCong(p, s, s, x + z, x + z);
    var mm, ss := (x - z) * (x - z), (x + z) * (x + z);
    MulModCong(p, MulMod(p, m, m), MulMod(p, s, s), mm, ss);
    FourTimes(p, x, z);
    var t := AddMod(p, MulMod(p, x, z), MulMod(p, x, z));
    var four := AddMod(p, t, t);
    ScaledByA(c, four, x * z);
    var axz := (c.a + 2) * (x * z);
    AddModCong(p, MulMod(p, m, m), MulMod(p, four, c.aPlus2Over4), mm, axz);
    SquareOfDifference(x, z, c.a);
    var zpre := x * x + c.a * (x * z) + z * z;
    MulModCong(p, four, AddMod(p, MulMod(p, m, m), MulMod(p, four, c.aPlus2Over4)), 4 * (x * z), zpre);
  }

  lemma ScaledByA(c: Curve, four: int, xz: int)
    requires ValidCurve(c) && Cong(c.p, four, 4 * xz)
    ensures Cong(c.p, MulMod(c.p, four, c.aPlus2Over4), (c.a + 2) * xz)
  {
    var p, q := c.p, c.aPlus2Over4;
    CongSame(p, q); CongSame(p, xz);
    MulModCong(p, four, q, 4 * xz, q);
    assert 4 * xz * q == (4 * q) * xz;
    CongMul(p, 4 * q, c.a + 2, xz, xz);
    CongTrans(p, MulMod(p, four, q), (4 * q) * xz, (c.a + 2) * xz);
  }

  // ---- Multiplication ----

  /** The group law: doubling, and adding two multiples of B that differ by B. */
  ghost predicate Lawful(c: Curve, rep: (Point, nat) -> bool, b: Point)
    requires c.p > 0
  {
    && Doubles(rep, x => Double(c, x))
    && AddsNeighbours(rep, (x, y, z) => DiffAdd(c, x, y, z), b)
  }

  /** ecc_montgomery_multiply. */
  method MultiplyPoint(c: Curve, b: Point, n: nat, bits: nat, ghost rep: (Point, nat) -> bool) returns (r: Point)
    requires c.p > 0 && n < Pow(2, bits) && rep(b, 1) && Lawful(c, rep, b)
    ensures n >= 1 ==> rep(r, n)
    ensures n == 0 ==> r == b
  {
    r := Multiply(b, n, bits, (x, y, z) => DiffAdd(c, x, y, z), x => Double(c, x), rep);
  }
}
