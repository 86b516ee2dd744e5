/** Byte strings as the index compares them: memcmp on keys of equal length is the order
    of their big-endian values, so an index may hold the values in their place. */
module Memory {
  import opened Bytes
  import opened Powers

  /** The big-endian value of a byte string. */
  function Value(k: seq<byte>): (v: nat)
    ensures v < Pow(256, |k|)
  {
    if k == [] then 0 else 256 * Value(k[..|k| - 1]) + k[|k| - 1]
  }

  /** The sign of memcmp(a, b, |a|). */
  function Memcmp(a: seq<byte>, b: seq<byte>): (c: int)
    requires |a| == |b|
    ensures -1 <= c <= 1
  {
    if a == [] then 0
    else if a[0] < b[0] then -1
    else if a[0] > b[0] then 1
    else Memcmp(a[1..], b[1..])
  }

  /** Composite keys compare component by component. */
  lemma {:induction false} CompareConcat(a: seq<byte>, b: seq<byte>, a': seq<byte>, b': seq<byte>)
    requires |a| == |b| && |a'| == |b'|
    ensures Memcmp(a + a', b + b') == if a != b then Memcmp(a, b) else Memcmp(a', b')
  {
    if a == [] {
      assert a + a' == a' && b + b' == b';
    } else {
      assert (a + a')[1..] == a[1..] + a' && (b + b')[1..] == b[1..] + b';
      CompareConcat(a[1..], b[1..], a', b');
      assert a == [a[0]] + a[1..] && b == [b[0]] + b[1..];
    }
  }

  lemma {:induction false} CompareIsValueOrder(a: seq<byte>, b: seq<byte>)
    requires |a| == |b|
    ensures Memcmp(a, b) < 0 <==> Value(a) < Value(b)
    ensures Memcmp(a, b) == 0 <==> Value(a) == Value(b)
    ensures Memcmp(a, b) == 0 <==> a == b
  {
    if a != [] {
      var n := |a| - 1;
      CompareIsValueOrder(a[..n], b[..n]);
      CompareConcat(a[..n], b[..n], [a[n]], [b[n]]);
      assert a == a[..n] + [a[n]] && b == b[..n] + [b[n]];
    }
  }
}
