/** ASN.1 BER identifier and length octets, as putty/import.c writes and reads them on
    the sinks and sources of putty/marshal.c (compare sections 8.1.2 and 8.1.3 of X.690). */
module Ber {
  import opened Bytes
  import opened Powers

  /** `flags` are the class and the constructed bit: the top three bits of the first octet. */
  datatype Item = Item(id: int, flags: int, data: seq<byte>)

  /** What the writer's shifts on 32-bit integers support. */
  ghost predicate Encodable(x: Item) {
    && 0 <= x.id < 0x1000_0000
    && 0 <= x.flags < 256 && x.flags % 32 == 0
    && |x.data| < 0x100_0000
  }

  // ---- The encoding ----

  /** Base-128 digits of v, all marked as followed by another. */
  function Continued(v: nat): seq<byte> {
    if v < 128 then [128 + v] else Continued(v / 128) + [128 + v % 128]
  }

  function Groups(v: nat): seq<byte> {
    if v < 128 then [v] else Continued(v / 128) + [v % 128]
  }

  /** Base-256 digits of v. */
  function Octets(v: nat): (s: seq<byte>)
    ensures |s| >= 1
  {
    if v < 256 then [v] else Octets(v / 256) + [v % 256]
  }

  function IdOctets(id: nat, flags: nat): seq<byte>
    requires flags % 32 == 0 && flags < 256
  {
    if id <= 30 then [flags + id] else [flags + 31] + Groups(id)
  }

  lemma {:induction false} OctetsCount(v: nat, n: nat)
    requires n >= 1 && v < Pow(256, n)
    ensures |Octets(v)| <= n
  {
    if v >= 256 {
      assert Pow(256, n) == 256 * Pow(256, n - 1);
      OctetsCount(v / 256, n - 1);
    }
  }

  function LenOctets(len: nat): seq<byte>
    requires len < 0x100_0000
  {
    if len < 128 then [len]
    else
      OctetsCount3(len);
      [128 + |Octets(len)|] + Octets(len)
  }

  lemma OctetsCount3(len: nat)
    requires len < 0x100_0000
    ensures |Octets(len)| <= 3
  {
    assert Pow(256, 1) == 256 && Pow(256, 2) == 0x1_0000 && Pow(256, 3) == 0x100_0000;
    OctetsCount(len, 3);
  }

  ghost function Encoded(x: Item): seq<byte>
    requires Encodable(x)
  {
    IdOctets(x.id, x.flags) + LenOctets(|x.data|) + x.data
  }

  // ---- The reader ----

  /** A source: what is left to read, and the sticky error. */
  datatype Source = Source(rest: seq<byte>, err: bool)

  function TakeByte(s: Source): (byte, Source) {
    if !s.err && |s.rest| >= 1 then (s.rest[0], s.(rest := s.rest[1..])) else (0, s.(err := true))
  }

  function TakeData(s: Source, n: nat): (seq<byte>, Source) {
    if !s.err && |s.rest| >= n then (s.rest[..n], s.(rest := s.rest[n..])) else ([], s.(err := true))
  }

  function TakeGroups(s: Source, acc: nat): (nat, Source)
    decreases |s.rest|, !s.err
  {
    var (b, t) := TakeByte(s);
    if b >= 128 then TakeGroups(t, 128 * acc + b % 128) else (128 * acc + b, t)
  }

  function TakeOctets(s: Source, n: nat, acc: nat): (nat, Source)
    decreases n
  {
    if n == 0 then (acc, s)
    else
      var (b, t) := TakeByte(s);
      TakeOctets(t, n - 1, 256 * acc + b)
  }

  function TakeId(s: Source): (nat, nat, Source) {
    var (lead, t) := TakeByte(s);
    if lead % 32 == 31 then
      var (id, u) := TakeGroups(t, 0);
      (id, lead - lead % 32, u)
    else (lead % 32, lead - lead % 32, t)
  }

  function TakeLen(s: Source): (nat, Source) {
    var (b, t) := TakeByte(s);
    if b >= 128 then TakeOctets(t, b - 128, 0) else (b, t)
  }

  function TakeItem(s: Source): (Item, Source) {
    var (id, flags, t) := TakeId(s);
    var (len, u) := TakeLen(t);
    var (data, v) := TakeData(u, len);
    (Item(id, flags, data), v)
  }

  // ---- Round trip ----

  lemma {:induction false} ContinuedReads(v: nat, rest: seq<byte>)
    ensures TakeGroups(Source(Continued(v) + rest, false), 0) == TakeGroups(Source(rest, false), v)
  {
    if v < 128 {
      assert (Continued(v) + rest)[1..] == rest;
    } else {
      assert Continued(v) + rest == Continued(v / 128) + ([128 + v % 128] + rest);
      ContinuedReads(v / 128, [128 + v % 128] + rest);
      assert ([128 + v % 128] + rest)[1..] == rest;
    }
  }

  lemma GroupsRead(v: nat, rest: seq<byte>)
    ensures TakeGroups(Source(Groups(v) + rest, false), 0) == (v, Source(rest, false))
  {
    if v < 128 {
      assert (Groups(v) + rest)[1..] == rest;
    } else {
      assert Groups(v) + rest == Continued(v / 128) + ([v % 128] + rest);
      ContinuedReads(v / 128, [v % 128] + rest);
      assert ([v % 128] + rest)[1..] == rest;
    }
  }

  lemma {:induction false} OctetsRead(v: nat, rest: seq<byte>, m: nat)
    ensures TakeOctets(Source(Octets(v) + rest, false), |Octets(v)| + m, 0) == TakeOctets(Source(rest, false), m, v)
  {
    if v < 256 {
      assert (Octets(v) + rest)[1..] == rest;
    } else {
      assert Octets(v) + rest == Octets(v / 256) + ([v % 256] + rest);
      OctetsRead(v / 256, [v % 256] + rest, m + 1);
      assert ([v % 256] + rest)[1..] == rest;
    }
  }

  lemma IdReads(id: nat, flags: nat, rest: seq<byte>)
    requires flags % 32 == 0 && flags < 256
    ensures TakeId(Source(IdOctets(id, flags) + rest, false)) == (id, flags, Source(rest, false))
  {
    var s := IdOctets(id, flags) + rest;
    if id <= 30 {
      assert s[1..] == rest;
    } else {
      assert s[1..] == Groups(id) + rest;
      GroupsRead(id, rest);
    }
  }

  lemma LenReads(len: nat, rest: seq<byte>)
    requires len < 0x100_0000
    ensures TakeLen(Source(LenOctets(len) + rest, false)) == (len, Source(rest, false))
  {
    var s := LenOctets(len) + rest;
    if len < 128 {
      assert s[1..] == rest;
    } else {
      OctetsCount3(len);
      assert s[1..] == Octets(len) + rest;
      OctetsRead(len, rest, 0);
    }
  }

  /** Reading gives back what was written and stops at the next byte. */
  lemma RoundTrip(x: Item, rest: seq<byte>)
    requires Encodable(x)
    ensures TakeItem(Source(Encoded(x) + rest, false)) == (x, Source(rest, false))
  {
    var a, b := IdOctets(x.id, x.flags), LenOctets(|x.data|);
    assert Encoded(x) + rest == a + (b + (x.data + rest));
    IdReads(x.id, x.flags, b + (x.data + rest));
    LenReads(|x.data|, x.data + rest);
    assert (x.data + rest)[..|x.data|] == x.data && (x.data + rest)[|x.data|..] == rest;
  }

  ghost function EncodedAll(xs: seq<Item>): seq<byte>
    requires forall i :: 0 <= i < |xs| ==> Encodable(xs[i])
  {
    if xs == [] then [] else Encoded(xs[0]) + EncodedAll(xs[1..])
  }

  function TakeItems(s: Source, n: nat): (seq<Item>, Source)
    decreases n
  {
    if n == 0 then ([], s)
    else
      var (x, t) := TakeItem(s);
      var (xs, u) := TakeItems(t, n - 1);
      ([x] + xs, u)
  }

  /** Items one after the other decode to the items put in. */
  lemma {:induction false} ListRoundTrip(xs: seq<Item>, rest: seq<byte>)
    requires forall i :: 0 <= i < |xs| ==> Encodable(xs[i])
    ensures TakeItems(Source(EncodedAll(xs) + rest, false), |xs|) == (xs, Source(rest, false))
  {
    hide TakeItem, Encoded;
    if xs == [] {
      assert EncodedAll(xs) + rest == rest;
    } else {
      assert EncodedAll(xs) + rest == Encoded(xs[0]) + (EncodedAll(xs[1..]) + rest);
      RoundTrip(xs[0], EncodedAll(xs[1..]) + rest);
      ListRoundTrip(xs[1..], rest);
      assert xs == [xs[0]] + xs[1..];
    }
  }

  lemma {:induction false} GroupsShrink(s: Source, acc: nat)
    ensures |TakeGroups(s, acc).1.rest| <= |s.rest|
    decreases |s.rest|, !s.err
  {
    var (b, t) := TakeByte(s);
    if b >= 128 { GroupsShrink(t, 128 * acc + b % 128); }
  }

  lemma {:induction false} OctetsShrink(s: Source, n: nat, acc: nat)
    ensures |TakeOctets(s, n, acc).1.rest| <= |s.rest|
    decreases n
  {
    if n > 0 {
      var (b, t) := TakeByte(s);
      OctetsShrink(t, n - 1, 256 * acc + b);
    }
  }

  /** Reading an item uses up at least one byte. */
  lemma ItemShrinks(s: Source)
    requires !s.err && s.rest != []
    ensures |TakeItem(s).1.rest| < |s.rest|
  {
    var (lead, t) := TakeByte(s);
    GroupsShrink(t, 0);
    var (_, _, u) := TakeId(s);
    var (b, v) := TakeByte(u);
    if b >= 128 { OctetsShrink(v, b - 128, 0); }
  }

  /** All items up to the end of the source, or to an error. */
  ghost function TakeAll(s: Source): (seq<Item>, bool)
    decreases |s.rest|
  {
    if s.err || s.rest == [] then ([], s.err)
    else
      ItemShrinks(s);
      var (x, t) := TakeItem(s);
      var (xs, err) := TakeAll(t);
      ([x] + xs, err)
  }

  lemma EncodedNotEmpty(x: Item)
    requires Encodable(x)
    ensures Encoded(x) != []
  {
  }

  lemma {:induction false} AllRead(xs: seq<Item>)
    requires forall i :: 0 <= i < |xs| ==> Encodable(xs[i])
    ensures TakeAll(Source(EncodedAll(xs), false)) == (xs, false)
  {
    hide TakeItem, Encoded;
    if xs != [] {
      RoundTrip(xs[0], EncodedAll(xs[1..]));
      EncodedNotEmpty(xs[0]);
      AllRead(xs[1..]);
      assert xs == [xs[0]] + xs[1..];
    }
  }

  /** A SEQUENCE of any list of items: its header is read, then its contents to their end,
      and reading stops at the next byte. */
  lemma SequenceRoundTrip(xs: seq<Item>, id: int, flags: int, rest: seq<byte>)
    requires forall i :: 0 <= i < |xs| ==> Encodable(xs[i])
    requires Encodable(Item(id, flags, EncodedAll(xs)))
    ensures var (x, t) := TakeItem(Source(Encoded(Item(id, flags, EncodedAll(xs))) + rest, false));
      && x.id == id && x.flags == flags && t == Source(rest, false)
      && TakeAll(Source(x.data, false)) == (xs, false)
  {
    RoundTrip(Item(id, flags, EncodedAll(xs)), rest);
    AllRead(xs);
  }

  // ---- The octets themselves ----

  /** Lengths below 128 take one octet; the others the number of octets and then as few of
      them as they need, the highest first. */
  lemma LengthForm(len: nat)
    requires len < 0x100_0000
    ensures len < 128 ==> LenOctets(len) == [len]
    ensures 128 <= len < 256 ==> LenOctets(len) == [129, len]
    ensures 256 <= len < 65536 ==> LenOctets(len) == [130, len / 256, len % 256]
    ensures 65536 <= len ==> LenOctets(len) == [131, len / 65536, len / 256 % 256, len % 256]
  {
    if len >= 256 {
      assert Octets(len) == Octets(len / 256) + [len % 256];
      if len >= 65536 {
        assert len / 256 / 256 == len / 65536;
        assert Octets(len / 256) == Octets(len / 256 / 256) + [len / 256 % 256];
      }
    }
  }

  /** Identifiers below 31 stand in the first octet; the others in groups of seven bits
      behind it, as few as they need, all but the last marked. */
  lemma {:induction false} IdentifierForm(id: nat, flags: nat)
    requires flags < 256 && flags % 32 == 0
    ensures id < 31 ==> IdOctets(id, flags) == [flags + id]
    ensures 31 <= id < 128 ==> IdOctets(id, flags) == [flags + 31, id]
    ensures id >= 128 ==>
      IdOctets(id, flags) == [flags + 31] + Continued(id / 128) + [id % 128]
  {
  }

  lemma {:induction false} GroupsForm(v: nat)
    ensures forall i :: 0 <= i < |Continued(v)| ==> Continued(v)[i] >= 128
    ensures |Continued(v)| > 0 && (v > 0 ==> Continued(v)[0] > 128)
    ensures v < 128 ==> Continued(v) == [128 + v]
  {
    if v >= 128 { GroupsForm(v / 128); }
  }

  // ---- Truncated input ----

  function More(s: Source, q: seq<byte>): Source {
    s.(rest := s.rest + q)
  }

  lemma ByteSame(s: Source, q: seq<byte>)
    requires !TakeByte(s).1.err
    ensures TakeByte(More(s, q)) == (TakeByte(s).0, More(TakeByte(s).1, q)) && !s.err
  {
    assert |s.rest| >= 1 ==> (s.rest + q)[1..] == s.rest[1..] + q;
  }

  lemma {:induction false} GroupsSame(s: Source, acc: nat, q: seq<byte>)
    requires !TakeGroups(s, acc).1.err
    ensures TakeGroups(More(s, q), acc) == (TakeGroups(s, acc).0, More(TakeGroups(s, acc).1, q)) && !s.err
    decreases |s.rest|, !s.err
  {
    var (b, t) := TakeByte(s);
    ByteSame(s, q);
    if b >= 128 { GroupsSame(t, 128 * acc + b % 128, q); }
  }

  lemma {:induction false} OctetsStick(s: Source, n: nat, acc: nat)
    requires s.err
    ensures TakeOctets(s, n, acc).1.err
    decreases n
  {
    if n > 0 {
      var (b, t) := TakeByte(s);
      OctetsStick(t, n - 1, 256 * acc + b);
    }
  }

  lemma {:induction false} OctetsSame(s: Source, n: nat, acc: nat, q: seq<byte>)
    requires !TakeOctets(s, n, acc).1.err
    ensures TakeOctets(More(s, q), n, acc) == (TakeOctets(s, n, acc).0, More(TakeOctets(s, n, acc).1, q)) && !s.err
    decreases n
  {
    if s.err { OctetsStick(s, n, acc); }
    if n > 0 {
      var (b, t) := TakeByte(s);
      if t.err { OctetsStick(t, n - 1, 256 * acc + b); }
      ByteSame(s, q);
      OctetsSame(t, n - 1, 256 * acc + b, q);
    }
  }

  lemma DataSame(s: Source, n: nat, q: seq<byte>)
    requires !TakeData(s, n).1.err
    ensures TakeData(More(s, q), n) == (TakeData(s, n).0, More(TakeData(s, n).1, q)) && !s.err
  {
    assert |s.rest| >= n ==> (s.rest + q)[..n] == s.rest[..n] && (s.rest + q)[n..] == s.rest[n..] + q;
  }

  lemma IdSame(s: Source, q: seq<byte>)
    requires !TakeId(s).2.err
    ensures TakeId(More(s, q)) == (TakeId(s).0, TakeId(s).1, More(TakeId(s).2, q))
  {
    hide TakeGroups;
    var (lead, t) := TakeByte(s);
    if lead % 32 == 31 { GroupsSame(t, 0, q); }
    ByteSame(s, q);
  }

  lemma LenSame(s: Source, q: seq<byte>)
    requires !TakeLen(s).1.err
    ensures TakeLen(More(s, q)) == (TakeLen(s).0, More(TakeLen(s).1, q)) && !s.err
  {
    hide TakeOctets;
    var (b, t) := TakeByte(s);
    if b >= 128 { OctetsSame(t, b - 128, 0, q); }
    ByteSame(s, q);
  }

  /** An item that was read without error is read the same when more follows. */
  lemma ItemSame(s: Source, q: seq<byte>)
    requires !TakeItem(s).1.err
    ensures TakeItem(More(s, q)) == (TakeItem(s).0, More(TakeItem(s).1, q))
  {
    hide TakeId, TakeLen, TakeData;
    var (id, flags, t) := TakeId(s);
    var (len, u) := TakeLen(t);
    DataSame(u, len, q);
    LenSame(t, q);
    IdSame(s, q);
  }

  /** Reading any proper part of an encoding from its start sets the error. */
  lemma TruncatedFails(x: Item, n: nat)
    requires Encodable(x) && n < |Encoded(x)|
    ensures TakeItem(Source(Encoded(x)[..n], false)).1.err
  {
    hide TakeItem, Encoded;
    var a, q := Encoded(x)[..n], Encoded(x)[n..];
    if !TakeItem(Source(a, false)).1.err {
      RoundTrip(x, []);
      assert a + q == Encoded(x) + [];
      ItemSame(Source(a, false), q);
    }
  }

  // ---- The program's writer and reader ----

  /** v >> (k * n), for base = 2^k. */
  function Shifted(v: nat, base: nat, n: nat): nat
    requires base > 0
  {
    if n == 0 then v else Shifted(v, base, n - 1) / base
  }

  lemma ShiftedDrops(v: nat, base: nat, n: nat)
    requires (base == 128 || base == 256) && Shifted(v, base, n) > 0
    ensures Shifted(v, base, n + 1) < Shifted(v, base, n)
  {
    if base == 128 {
      assert Shifted(v, 128, n + 1) == Shifted(v, 128, n) / 128;
    } else {
      assert Shifted(v, 256, n + 1) == Shifted(v, 256, n) / 256;
    }
  }

  class BinarySink {
    var out: seq<byte>

    constructor ()
      ensures out == []
    {
      out := [];
    }

    method PutByte(b: byte)
      modifies this
      ensures out == old(out) + [b]
    {
      out := out + [b];
    }

    method PutData(data: seq<byte>)
      modifies this
      ensures out == old(out) + data
    {
      out := out + data;
    }

    /** Number of base-`base` digits: the counting loops of the writer. */
    method CountDigits(v: nat, base: nat) returns (n: nat)
      requires (base == 128 || base == 256) && v > 0
      ensures n >= 1 && Shifted(v, base, n) == 0 && Shifted(v, base, n - 1) > 0
    {
      n := 1;
      while Shifted(v, base, n) > 0
        invariant n >= 1 && Shifted(v, base, n - 1) > 0
        decreases Shifted(v, base, n)
      {
        ShiftedDrops(v, base, n);
        n := n + 1;
      }
    }

    /** The octets of a long identifier after the first. */
    method PutGroups(id: nat)
      requires id > 0
      modifies this
      ensures out == old(out) + Groups(id)
    {
      var n := CountDigits(id, 128);
      ghost var top := n;
      while n > 0
        invariant 0 <= n <= top && Shifted(id, 128, top) == 0 && Shifted(id, 128, top - 1) > 0
        invariant n == top ==> out == old(out)
        invariant n < top ==> Shifted(id, 128, n) > 0
        invariant 0 < n < top ==> out == old(out) + Continued(Shifted(id, 128, n))
        invariant n == 0 ==> out == old(out) + Groups(id)
      {
        n := n - 1;
        var v := Shifted(id, 128, n);
        PutByte((if n > 0 then 128 else 0) + v % 128);
      }
    }

    /** The octets of a long length after the first. */
    method PutOctets(len: nat, count: nat)
      requires count >= 1 && Shifted(len, 256, count) == 0 && Shifted(len, 256, count - 1) > 0
      modifies this
      ensures out == old(out) + Octets(len) && count == |Octets(len)|
    {
      var n := count;
      while n > 0
        invariant 0 <= n <= count
        invariant n == count ==> out == old(out)
        invariant n < count ==> Shifted(len, 256, n) > 0 && |Octets(Shifted(len, 256, n))| == count - n
        invariant n < count ==> out == old(out) + Octets(Shifted(len, 256, n))
      {
        n := n - 1;
        PutByte(Shifted(len, 256, n) % 256);
      }
    }

    method PutId(id: nat, flags: nat)
      requires flags < 256 && flags % 32 == 0
      modifies this
      ensures out == old(out) + IdOctets(id, flags)
    {
      if id <= 30 {
        PutByte(id + flags);
      } else {
        PutByte(31 + flags);
        PutGroups(id);
      }
    }

    method PutLen(length: nat)
      requires length < 0x100_0000
      modifies this
      ensures out == old(out) + LenOctets(length)
    {
      if length < 128 {
        PutByte(length);
      } else {
        OctetsCount3(length);
        var n := CountDigits(length, 256);
        DigitCount(length, n);
        PutByte(128 + n);
        PutOctets(length, n);
      }
    }

    /** BinarySink_put_ber_id_len. */
    method PutBerIdLen(id: nat, length: nat, flags: nat)
      requires id < 0x1000_0000 && length < 0x100_0000 && flags < 256 && flags % 32 == 0
      modifies this
      ensures out == old(out) + IdOctets(id, flags) + LenOctets(length)
    {
      PutId(id, flags);
      PutLen(length);
    }

    /** An item: its header and its contents. */
    method PutItem(x: Item)
      requires Encodable(x)
      modifies this
      ensures out == old(out) + Encoded(x)
    {
      PutBerIdLen(x.id, |x.data|, x.flags);
      PutData(x.data);
    }
  }

  lemma {:induction false} ShiftedHalf(v: nat, n: nat)
    ensures Shifted(v / 256, 256, n) == Shifted(v, 256, n + 1)
  {
    if n > 0 { ShiftedHalf(v, n - 1); }
  }

  lemma {:induction false} DigitCount(v: nat, n: nat)
    requires n >= 1 && Shifted(v, 256, n) == 0 && Shifted(v, 256, n - 1) > 0
    ensures |Octets(v)| == n
  {
    if v < 256 {
      if n > 1 {
        assert Shifted(v, 256, 1) == 0;
        ShiftedZero(v, 1, n - 1);
      }
    } else if n > 1 {
      ShiftedHalf(v, n - 1);
      ShiftedHalf(v, n - 2);
      DigitCount(v / 256, n - 1);
    }
  }

  lemma {:induction false} ShiftedZero(v: nat, m: nat, n: nat)
    requires m <= n && Shifted(v, 256, m) == 0
    ensures Shifted(v, 256, n) == 0
  {
    if m < n { ShiftedZero(v, m, n - 1); }
  }

  class BinarySource {
    const data: seq<byte>
    var pos: nat
    var err: bool

    ghost predicate Valid()
      reads this
    {
      pos <= |data|
    }

    ghost function Abs(): Source
      requires Valid()
      reads this
    {
      Source(data[pos..], err)
    }

    constructor (data: seq<byte>)
      ensures Valid() && Abs() == Source(data, false)
    {
      this.data, pos, err := data, 0, false;
    }

    /** BinarySource_data_avail. */
    method Avail(wanted: nat) returns (ok: bool)
      requires Valid()
      modifies this`err
      ensures ok <==> !old(err) && wanted <= |data| - pos
      ensures err == !ok
    {
      if err {
        return false;
      }
      if wanted <= |data| - pos {
        return true;
      }
      err := true;
      return false;
    }

    method GetByte() returns (b: byte)
      requires Valid()
      modifies this
      ensures Valid() && (b, Abs()) == TakeByte(old(Abs()))
      ensures if old(err) || old(pos) == |data| then b == 0 && err && pos == old(pos)
              else b == data[old(pos)] && !err && pos == old(pos) + 1
    {
      var ok := Avail(1);
      if !ok {
        return 0;
      }
      b := data[pos];
      pos := pos + 1;
    }

    method GetData(wanted: nat) returns (d: seq<byte>)
      requires Valid()
      modifies this
      ensures Valid() && (d, Abs()) == TakeData(old(Abs()), wanted)
      ensures if old(err) || old(pos) + wanted > |data| then d == [] && err && pos == old(pos)
              else d == data[old(pos)..old(pos) + wanted] && !err && pos == old(pos) + wanted
    {
      var ok := Avail(wanted);
      if !ok {
        return [];
      }
      d := data[pos..pos + wanted];
      assert d == data[pos..][..wanted] && data[pos + wanted..] == data[pos..][wanted..];
      pos := pos + wanted;
    }

    /** BinarySource_get_ber. */
    method GetBer() returns (x: Item)
      requires Valid()
      modifies this
      ensures Valid() && (x, Abs()) == TakeItem(old(Abs()))
    {
      ghost var s := Abs();
      var lead := GetByte();
      var flags, id := lead - lead % 32, lead % 32;
      if lead % 32 == 31 {
        id := GetGroups();
      }
      ghost var t := Abs();
      assert TakeId(s) == (id, flags, t);
      var length := GetLength();
      ghost var u := Abs();
      assert TakeLen(t) == (length, u);
      var d := GetData(length);
      x := Item(id, flags, d);
    }

    method GetGroups() returns (id: nat)
      requires Valid()
      modifies this
      ensures Valid() && (id, Abs()) == TakeGroups(old(Abs()), 0)
    {
      id := 0;
      var more := true;
      ghost var s := Abs();
      while more
        invariant Valid()
        invariant more ==> TakeGroups(Abs(), id) == TakeGroups(s, 0)
        invariant !more ==> (id, Abs()) == TakeGroups(s, 0)
        decreases more, |data| - pos, !err
      {
        var b := GetByte();
        id := 128 * id + b % 128;
        more := b >= 128;
      }
    }

    method GetLength() returns (length: nat)
      requires Valid()
      modifies this
      ensures Valid() && (length, Abs()) == TakeLen(old(Abs()))
    {
      var b := GetByte();
      if b < 128 {
        return b;
      }
      var n := b - 128;
      length := 0;
      ghost var s, count := Abs(), n;
      while n > 0
        invariant Valid() && 0 <= n
        invariant TakeOctets(Abs(), n, length) == TakeOctets(s, count, 0)
      {
        var c := GetByte();
        length := 256 * length + c;
        n := n - 1;
      }
    }
  }
}
