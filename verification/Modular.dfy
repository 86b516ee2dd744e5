/** Arithmetic modulo p, as the program's multi-precision integers do it. */
module Modular {
  ghost predicate Off(p: int, a: int, b: int, k: int) {
    a == b + k * p
  }

  ghost predicate Cong(p: int, a: int, b: int) {
    exists k :: Off(p, a, b, k)
  }

  lemma CongSame(p: int, a: int)
    ensures Cong(p, a, a)
  {
    assert Off(p, a, a, 0);
  }

  lemma CongMod(p: int, a: int)
    requires p > 0
    ensures Cong(p, a % p, a)
  {
    assert a == a / p * p + a % p;
    assert Off(p, a % p, a, -(a / p));
  }

  lemma CongSym(p: int, a: int, b: int)
    requires Cong(p, a, b)
    ensures Cong(p, b, a)
  {
    var k :| Off(p, a, b, k);
    assert Off(p, b, a, -k);
  }

  lemma CongTrans(p: int, a: int, b: int, c: int)
    requires Cong(p, a, b) && Cong(p, b, c)
    ensures Cong(p, a, c)
  {
    var k :| Off(p, a, b, k);
    var l :| Off(p, b, c, l);
    assert Off(p, a, c, k + l);
  }

  lemma CongAdd(p: int, a: int, b: int, c: int, d: int)
    requires Cong(p, a, b) && Cong(p, c, d)
    ensures Cong(p, a + c, b + d) && Cong(p, a - c, b - d)
  {
    var k :| Off(p, a, b, k);
    var l :| Off(p, c, d, l);
    assert Off(p, a + c, b + d, k + l);
    assert Off(p, a - c, b - d, k - l);
  }

  lemma CongMul(p: int, a: int, b: int, c: int, d: int)
    requires Cong(p, a, b) && Cong(p, c, d)
    ensures Cong(p, a * c, b * d)
  {
    var k :| Off(p, a, b, k);
    var l :| Off(p, c, d, l);
    assert a * c == b * d + (b * l + d * k + k * l * p) * p;
    assert Off(p, a * c, b * d, b * l + d * k + k * l * p);
  }

  function MulMod(p: int, x: int, y: int): int requires p > 0 { x * y % p }
  function AddMod(p: int, x: int, y: int): int requires p > 0 { (x + y) % p }
  function SubMod(p: int, x: int, y: int): int requires p > 0 { (x - y) % p }

  lemma MulModCong(p: int, x: int, y: int, a: int, b: int)
    requires p > 0 && Cong(p, x, a) && Cong(p, y, b)
    ensures Cong(p, MulMod(p, x, y), a * b)
  {
    CongMul(p, x, a, y, b);
    CongMod(p, x * y);
    CongTrans(p, MulMod(p, x, y), x * y, a * b);
  }

  lemma AddModCong(p: int, x: int, y: int, a: int, b: int)
    requires p > 0 && Cong(p, x, a) && Cong(p, y, b)
    ensures Cong(p, AddMod(p, x, y), a + b) && Cong(p, SubMod(p, x, y), a - b)
  {
    CongAdd(p, x, a, y, b);
    CongMod(p, x + y);
    CongMod(p, x - y);
    CongTrans(p, AddMod(p, x, y), x + y, a + b);
    CongTrans(p, SubMod(p, x, y), x - y, a - b);
  }

  lemma ProductCong(p: int, m: int, n: int)
    requires p > 0
    ensures Cong(p, MulMod(p, m, n), m * n)
  {
    CongMod(p, m * n);
  }
}
