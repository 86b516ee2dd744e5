/** COBOL zoned decimals as SQL numeric text and back (op_write.c:143-165, pq2cob.c).
    A numeric column of length `len` with `dec` decimals holds `len` digit characters
    without a decimal point; bit 0x40 of the last one marks a negative number. A value is
    an integer: the number times 10^dec. */
module Zoned {
  import opened Bytes
  import opened Powers

  const MINUS: byte := 45
  const DOT: byte := 46
  const ZERO: byte := 48
  const SPACE: byte := 32

  predicate IsDigit(b: byte) {
    48 <= b <= 57
  }

  predicate Marked(b: byte) {
    b / 64 % 2 == 1
  }

  function Mark(b: byte): byte {
    if Marked(b) then b else b + 64
  }

  function Unmark(b: byte): byte {
    if Marked(b) then b - 64 else b
  }

  // ---- Digit strings ----

  /** The lowest `len` decimal digits of n. */
  function Digits(n: nat, len: nat): (s: seq<byte>)
    ensures |s| == len && forall i :: 0 <= i < len ==> IsDigit(s[i])
  {
    if len == 0 then [] else Digits(n / 10, len - 1) + [48 + n % 10]
  }

  /** n without its lowest `d` decimal digits. */
  function Drop(n: nat, d: nat): nat {
    if d == 0 then n else Drop(n / 10, d - 1)
  }

  ghost function DigitsValue(s: seq<byte>): int {
    if s == [] then 0 else 10 * DigitsValue(s[..|s| - 1]) + s[|s| - 1] as int - 48
  }

  lemma {:induction false} ValueOfDigits(n: nat, len: nat)
    requires n < Pow(10, len)
    ensures DigitsValue(Digits(n, len)) == n
  {
    if len > 0 {
      ValueOfDigits(n / 10, len - 1);
      assert Digits(n, len)[..len - 1] == Digits(n / 10, len - 1);
    }
  }

  /** One more digit. */
  lemma LastDigit(s: seq<byte>, d: byte)
    ensures DigitsValue(s + [d]) == 10 * DigitsValue(s) + d as int - 48
  {
    assert (s + [d])[..|s|] == s;
  }

  lemma DigitsStep(v: nat, x: nat, n: nat)
    requires x < 10
    ensures Digits(10 * v + x, n + 1) == Digits(v, n) + [48 + x]
  {
    assert (10 * v + x) / 10 == v && (10 * v + x) % 10 == x;
  }

  lemma {:induction false} DigitsOfValue(s: seq<byte>)
    requires forall i :: 0 <= i < |s| ==> IsDigit(s[i])
    ensures 0 <= DigitsValue(s) < Pow(10, |s|) && Digits(DigitsValue(s), |s|) == s
  {
    hide DigitsValue, Digits, Pow;
    PowSteps(|s|);
    NoDigits();
    if s != [] {
      var t, d := s[..|s| - 1], s[|s| - 1];
      DigitsOfValue(t);
      LastDigit(t, d);
      DigitsStep(DigitsValue(t), d - 48, |t|);
      assert s == t + [d];
    }
  }

  /** The digits above and below a decimal point. */
  lemma {:induction false} DigitsSplit(n: nat, a: nat, d: nat)
    ensures Digits(n, a + d) == Digits(Drop(n, d), a) + Digits(n, d)
  {
    if d > 0 {
      DigitsSplit(n / 10, a, d - 1);
    }
  }

  lemma {:induction false} DropFits(n: nat, a: nat, d: nat)
    requires n < Pow(10, a + d)
    ensures Drop(n, d) < Pow(10, a)
  {
    if d > 0 { DropFits(n / 10, a, d - 1); }
  }

  function Repeat(b: byte, n: nat): seq<byte> {
    seq(n, _ => b)
  }

  function Zeros(n: nat): seq<byte> {
    Repeat(ZERO, n)
  }

  lemma {:induction false} DigitsOfZero(len: nat)
    ensures Digits(0, len) == Zeros(len)
  {
    if len > 0 { DigitsOfZero(len - 1); }
  }

  /** n without leading zeros. */
  function Plain(n: nat): (s: seq<byte>)
    ensures |s| >= 1 && forall i :: 0 <= i < |s| ==> IsDigit(s[i])
  {
    if n < 10 then [48 + n] else Plain(n / 10) + [48 + n % 10]
  }

  lemma {:induction false} PadPlain(n: nat, len: nat)
    requires n < Pow(10, len) && len >= 1
    ensures |Plain(n)| <= len && Zeros(len - |Plain(n)|) + Plain(n) == Digits(n, len)
  {
    if n < 10 {
      DigitsOfZero(len - 1);
      assert n / 10 == 0;
    } else {
      assert len > 1;
      PadPlain(n / 10, len - 1);
    }
  }

  // ---- Numbers in records and in SQL ----

  function Abs(n: int): nat {
    if n < 0 then -n else n
  }

  /** The record field for value n. */
  ghost function Field(n: int, len: nat): (f: seq<byte>)
    requires len >= 1
    ensures |f| == len
  {
    var s := Digits(Abs(n), len);
    if n < 0 then s[len - 1 := Mark(s[len - 1])] else s
  }

  /** A field of digits, the last of which may be marked. */
  ghost predicate IsField(f: seq<byte>) {
    && |f| >= 1 && IsDigit(Unmark(f[|f| - 1]))
    && forall i :: 0 <= i < |f| - 1 ==> IsDigit(f[i])
  }

  ghost function Bare(f: seq<byte>): seq<byte>
    requires |f| >= 1
  {
    f[|f| - 1 := Unmark(f[|f| - 1])]
  }

  ghost function FieldValue(f: seq<byte>): int
    requires |f| >= 1
  {
    if Marked(f[|f| - 1]) then -DigitsValue(Bare(f)) else DigitsValue(f)
  }

  /** How PostgreSQL reads a number, as a multiple of 10^-dec: an optional sign, digits,
      perhaps a point with the decimals behind it. */
  ghost function NumericValue(t: seq<byte>, dec: nat): int {
    if Signed(t) then -Scaled(t[1..], dec) else Scaled(t, dec)
  }

  /** With k digits behind the point, the digits count units of 10^-k. */
  ghost function Scaled(t: seq<byte>, dec: nat): int {
    DigitsValue(WithoutDot(t)) * Pow(10, dec) / Pow(10, Behind(t))
  }

  ghost function Behind(t: seq<byte>): (k: nat)
    ensures k <= |t|
  {
    if t == [] then 0 else if t[0] == DOT then |t| - 1 else Behind(t[1..])
  }

  ghost function WithoutDot(t: seq<byte>): seq<byte> {
    if t == [] then [] else (if t[0] == DOT then [] else [t[0]]) + WithoutDot(t[1..])
  }

  /** How PostgreSQL writes a number with `dec` decimals. */
  function Canonical(n: int, dec: nat): seq<byte> {
    if n < 0 then [MINUS] + Printed(-n, dec) else Printed(n, dec)
  }

  function Printed(a: nat, dec: nat): (t: seq<byte>)
    ensures t != [] && IsDigit(t[0])
  {
    if dec == 0 then Plain(a) else Plain(Drop(a, dec)) + [DOT] + Digits(a, dec)
  }

  // ---- The program ----

  /** The parameter text for a numeric column (op_write.c:143-160). */
  method Encode(record: seq<byte>, offset: nat, len: nat, dec: nat) returns (buf: seq<byte>)
    requires 0 <= dec < len && offset + len <= |record|
    ensures buf == Encoded(record[offset..offset + len], dec)
    ensures Placed(record[offset..offset + len], dec, buf)
  {
    hide Unmark, Marked, Dotted, Bare, Placed;
    EncodedPlaced(record[offset..offset + len], dec);
    buf := CopyDigits(record, offset, len, dec);
    if Marked(record[offset + len - 1]) {
      UnmarkedZero();
      SignDotted(record[offset..offset + len], dec, if len > 1 then MINUS else ZERO);
      buf := buf[0 := if len > 1 then MINUS else ZERO];
      if dec > 0 {
        buf := buf[len := Unmark(buf[len])];
      } else {
        buf := buf[len - 1 := Unmark(buf[len - 1])];
      }
    }
  }

  /** The text byte by byte: the point stands before the last `dec` digits, a minus over the
      first digit of a negative number, and its last digit is unmarked. */
  ghost predicate Placed(f: seq<byte>, dec: nat, t: seq<byte>)
    requires dec < |f|
  {
    var len, neg := |f|, f[|f| - 1] / 64 % 2 == 1;
    && |t| == len + (if dec > 0 then 1 else 0) && (dec > 0 ==> t[len - dec] == 46)
    && forall i :: 0 <= i < len ==>
         t[if dec > 0 && i >= len - dec then i + 1 else i]
         == if neg && i == 0 then (if len > 1 then 45 else 48)
            else if neg && i == len - 1 then f[i] - 64 else f[i]
  }

  lemma EncodedPlaced(f: seq<byte>, dec: nat)
    requires dec < |f|
    ensures Placed(f, dec, Encoded(f, dec))
  {
  }

  /** The digits with the decimal point in its place (op_write.c:144-152). */
  method CopyDigits(record: seq<byte>, offset: nat, len: nat, dec: nat) returns (buf: seq<byte>)
    requires 0 <= dec < len && offset + len <= |record|
    ensures buf == Dotted(record[offset..offset + len], dec)
  {
    if dec > 0 {
      buf := record[offset..offset + len - dec];
      buf := buf + [DOT];
      buf := buf + record[offset + len - dec..offset + len];
      ghost var f := record[offset..offset + len];
      assert f[..len - dec] == record[offset..offset + len - dec];
      assert f[len - dec..] == record[offset + len - dec..offset + len];
    } else {
      buf := record[offset..offset + len];
    }
  }

  lemma UnmarkedZero()
    ensures Unmark(ZERO) == ZERO
  {
  }

  /** Sign and last digit may be set before or after the point is put in. */
  lemma SignDotted(f: seq<byte>, dec: nat, sign: byte)
    requires dec < |f| && (|f| == 1 ==> Unmark(sign) == sign)
    ensures var t, last := Dotted(f, dec)[0 := sign], if dec > 0 then |f| else |f| - 1;
      t[last := Unmark(t[last])] == Dotted(Bare(f)[0 := sign], dec)
  {
    hide Unmark;
  }

  ghost function Encoded(f: seq<byte>, dec: nat): seq<byte>
    requires dec < |f|
  {
    if !Marked(f[|f| - 1]) then Dotted(f, dec)
    else Dotted(Bare(f)[0 := if |f| > 1 then MINUS else ZERO], dec)
  }

  ghost function Dotted(f: seq<byte>, dec: nat): (t: seq<byte>)
    requires dec < |f|
    ensures |t| == |f| + if dec > 0 then 1 else 0
  {
    if dec > 0 then f[..|f| - dec] + [DOT] + f[|f| - dec..] else f
  }

  /** The record field for a numeric text (pq2cob.c:25-42). */
  ghost function Decoded(t: seq<byte>, len: nat, dec: nat): (f: seq<byte>)
    requires Decodable(t, len, dec)
    ensures |f| == len
  {
    var f := Magnitude(Unsigned(t), len, dec);
    if Signed(t) then f[len - 1 := Mark(f[len - 1])] else f
  }

  ghost predicate Signed(t: seq<byte>) {
    t != [] && t[0] == MINUS
  }

  ghost function Unsigned(t: seq<byte>): seq<byte> {
    if Signed(t) then t[1..] else t
  }

  /** The digits of a text without sign, without its point, filled up with zeros. */
  ghost function Magnitude(p: seq<byte>, len: nat, dec: nat): (f: seq<byte>)
    requires FitsIn(p, len, dec)
    ensures |f| == len
  {
    if dec == 0 then Zeros(len - |p|) + p
    else Zeros(len - |p| + 1) + p[..|p| - dec - 1] + p[|p| - dec..]
  }

  ghost predicate FitsIn(p: seq<byte>, len: nat, dec: nat) {
    if dec == 0 then |p| <= len else dec + 1 <= |p| <= len + 1
  }

  /** The text is not longer than the column. */
  ghost predicate Decodable(t: seq<byte>, len: nat, dec: nat) {
    len >= 1 && FitsIn(Unsigned(t), len, dec)
  }

  // ---- One column there and back ----

  /** The point and what lies on either side of it. */
  lemma DotSplits(whole: seq<byte>, frac: seq<byte>, len: nat)
    requires |whole| + |frac| <= len && |frac| > 0
    ensures var p := whole + [DOT] + frac;
      FitsIn(p, len, |frac|) && Magnitude(p, len, |frac|) == Zeros(len - |frac| - |whole|) + whole + frac
  {
    hide Zeros;
    var p := whole + [DOT] + frac;
    assert p[..|whole|] == whole && p[|whole| + 1..] == frac;
  }

  lemma DottedDecodes(a: nat, len: nat, dec: nat)
    requires 0 < dec < len && a < Pow(10, len)
    ensures FitsIn(Printed(a, dec), len, dec) && Magnitude(Printed(a, dec), len, dec) == Digits(a, len)
  {
    hide Digits, Plain, Drop, Pow, Magnitude, FitsIn, Zeros;
    DropFits(a, len - dec, dec);
    PadPlain(Drop(a, dec), len - dec);
    DotSplits(Plain(Drop(a, dec)), Digits(a, dec), len);
    DigitsSplit(a, len - dec, dec);
  }

  lemma MagnitudeDecodes(a: nat, len: nat, dec: nat)
    requires dec < len && a < Pow(10, len)
    ensures FitsIn(Printed(a, dec), len, dec)
    ensures Magnitude(Printed(a, dec), len, dec) == Digits(a, len)
  {
    hide Digits, Plain, Drop, Pow, Zeros;
    if dec == 0 { PadPlain(a, len); } else { DottedDecodes(a, len, dec); }
  }

  /** pq2cob understands what PostgreSQL prints: every value that fits comes out as its field. */
  lemma CanonicalDecodes(n: int, len: nat, dec: nat)
    requires dec < len && Abs(n) < Pow(10, len)
    ensures Decodable(Canonical(n, dec), len, dec)
    ensures Decoded(Canonical(n, dec), len, dec) == Field(n, len)
  {
    hide Digits, Plain, Magnitude, FitsIn, Drop;
    var t := Canonical(n, dec);
    MagnitudeDecodes(Abs(n), len, dec);
    assert Printed(Abs(n), dec)[0] != MINUS;
    assert Unsigned(t) == Printed(Abs(n), dec);
  }

  lemma {:induction false} NoDots(s: seq<byte>)
    requires forall i :: 0 <= i < |s| ==> s[i] != DOT
    ensures WithoutDot(s) == s
  {
    if s != [] { NoDots(s[1..]); }
  }

  lemma {:induction false} DotGone(a: seq<byte>, b: seq<byte>)
    requires forall i :: 0 <= i < |a| ==> a[i] != DOT
    requires forall i :: 0 <= i < |b| ==> b[i] != DOT
    ensures WithoutDot(a + [DOT] + b) == a + b
  {
    var t := a + [DOT] + b;
    if a == [] {
      NoDots(b);
      assert t[1..] == b;
    } else {
      DotGone(a[1..], b);
      assert t[1..] == a[1..] + [DOT] + b;
    }
  }

  lemma {:induction false} LeadingDigit(s: seq<byte>)
    requires |s| >= 1
    ensures DigitsValue(s) == (s[0] as int - 48) * Pow(10, |s| - 1) + DigitsValue(s[1..])
  {
    hide DigitsValue, Pow;
    var t, d := s[..|s| - 1], s[|s| - 1];
    assert s == t + [d];
    LastDigit(t, d);
    PowSteps(|s| - 1);
    if |s| == 1 {
      NoDigits();
      assert t == [] && s[1..] == [];
    } else {
      LeadingDigit(t);
      LastDigit(t[1..], d);
      assert s[1..] == t[1..] + [d];
      Tenfold(s[0] as int - 48, Pow(10, |s| - 2), DigitsValue(t[1..]), d as int - 48);
    }
  }

  lemma PowSteps(n: nat)
    ensures Pow(10, 0) == 1 && (n > 0 ==> Pow(10, n) == 10 * Pow(10, n - 1))
  {
  }

  lemma NoDigits()
    ensures DigitsValue([]) == 0 && Digits(0, 0) == []
  {
  }

  lemma Tenfold(a: int, p: int, v: int, d: int)
    ensures 10 * (a * p + v) + d == a * (10 * p) + (10 * v + d)
  {
  }

  ghost function Sent(f: seq<byte>): int
    requires |f| >= 1
  {
    if Marked(f[|f| - 1]) then -DigitsValue(Bare(f)[1..]) else DigitsValue(f)
  }

  lemma {:induction false} BehindDot(a: seq<byte>, b: seq<byte>)
    requires forall i :: 0 <= i < |a| ==> a[i] != DOT
    ensures Behind(a + [DOT] + b) == |b| && Behind(a) == 0
  {
    var t := a + [DOT] + b;
    if a != [] {
      BehindDot(a[1..], b);
      assert t[1..] == a[1..] + [DOT] + b;
    }
  }

  lemma DottedValue(f: seq<byte>, dec: nat)
    requires dec < |f| && forall i :: 0 <= i < |f| ==> f[i] != DOT
    ensures WithoutDot(Dotted(f, dec)) == f && Behind(Dotted(f, dec)) == dec
  {
    hide WithoutDot, Behind;
    if dec == 0 {
      NoDots(f);
      BehindDot(f, []);
    } else {
      var whole, frac := f[..|f| - dec], f[|f| - dec..];
      DotGone(whole, frac);
      BehindDot(whole, frac);
      assert whole + frac == f;
    }
  }

  lemma Unscaled(t: seq<byte>, dec: nat)
    requires Behind(t) == dec
    ensures Scaled(t, dec) == DigitsValue(WithoutDot(t))
  {
    hide Pow, DigitsValue, WithoutDot;
    Cancel(DigitsValue(WithoutDot(t)), Pow(10, dec));
  }

  lemma Cancel(v: int, p: int)
    requires p >= 1
    ensures v * p / p == v
  {
    var x := v * p;
    var q, r := x / p, x % p;
    Division(x, p);
    Difference(v, q, p);
    NoMultiple(v - q, p, r);
  }

  lemma Division(x: int, p: int)
    requires p >= 1
    ensures x == x / p * p + x % p && 0 <= x % p < p
  {
  }

  lemma Difference(v: int, q: int, p: int)
    ensures (v - q) * p == v * p - q * p
  {
  }

  lemma NoMultiple(d: int, p: int, r: int)
    requires d * p == r && 0 <= r < p
    ensures d == 0
  {
    assert d >= 1 ==> d * p >= p;
    assert d <= -1 ==> d * p <= -p;
  }

  /** What is sent to PostgreSQL: of a negative number, everything but the first digit,
      which the sign overwrites. */
  lemma EncodedValue(f: seq<byte>, dec: nat)
    requires IsField(f) && dec < |f|
    ensures NumericValue(Encoded(f, dec), dec) == Sent(f)
  {
    hide Scaled, DigitsValue;
    var t := Encoded(f, dec);
    if !Marked(f[|f| - 1]) {
      DottedValue(f, dec);
      Unscaled(t, dec);
    } else {
      var g := Bare(f)[0 := if |f| > 1 then MINUS else ZERO];
      DottedValue(g, dec);
      assert t[0] == g[0];
      assert g[1..] == Bare(f)[1..];
      assert g == [g[0]] + g[1..];
      if |f| > 1 { Unscaled(t[1..], dec); } else { Unscaled(t, dec); ZeroText(g); }
    }
  }

  lemma ZeroText(g: seq<byte>)
    requires g == [ZERO]
    ensures DigitsValue(g) == 0 && DigitsValue(g[1..]) == 0
  {
    NoDigits();
    LastDigit([], ZERO);
    assert [] + [ZERO] == g && g[1..] == [];
  }

  /** And what PostgreSQL prints it reads as the same number. */
  lemma CanonicalValue(n: int, dec: nat)
    ensures NumericValue(Canonical(n, dec), dec) == n
  {
    hide Scaled, DigitsValue, Plain, Digits, Drop;
    var a := Abs(n);
    var p := Printed(a, dec);
    PrintedValue(a, dec);
    Unscaled(p, dec);
    assert Canonical(n, dec) == if n < 0 then [MINUS] + p else p;
    assert n < 0 ==> Canonical(n, dec)[1..] == p;
  }

  lemma PrintedValue(a: nat, dec: nat)
    ensures Behind(Printed(a, dec)) == dec && DigitsValue(WithoutDot(Printed(a, dec))) == a
  {
    hide DigitsValue, Plain, Digits, Drop, Pow;
    if dec == 0 {
      NoDots(Plain(a));
      BehindDot(Plain(a), []);
      PlainValue(a);
    } else {
      DotGone(Plain(Drop(a, dec)), Digits(a, dec));
      BehindDot(Plain(Drop(a, dec)), Digits(a, dec));
      PlainAndDigits(a, dec);
    }
  }

  lemma {:induction false} PlainValue(a: nat)
    ensures DigitsValue(Plain(a)) == a
  {
    hide DigitsValue;
    if a < 10 {
      NoDigits();
      LastDigit([], 48 + a);
      assert [] + [48 + a] == Plain(a);
    } else {
      PlainValue(a / 10);
      LastDigit(Plain(a / 10), 48 + a % 10);
    }
  }

  lemma {:induction false} PlainAndDigits(a: nat, d: nat)
    ensures DigitsValue(Plain(Drop(a, d)) + Digits(a, d)) == a
  {
    hide DigitsValue, Plain;
    if d == 0 {
      PlainValue(a);
      assert Plain(a) + Digits(a, 0) == Plain(a);
    } else {
      var front := Plain(Drop(a / 10, d - 1)) + Digits(a / 10, d - 1);
      PlainAndDigits(a / 10, d - 1);
      LastDigit(front, 48 + a % 10);
      assert Plain(Drop(a, d)) + Digits(a, d) == front + [48 + a % 10];
    }
  }

  lemma ValueOfField(n: int, len: nat)
    requires len >= 1 && Abs(n) < Pow(10, len)
    ensures IsField(Field(n, len)) && FieldValue(Field(n, len)) == n
  {
    hide Digits, Pow, DigitsValue;
    ValueOfDigits(Abs(n), len);
    assert n < 0 ==> Bare(Field(n, len)) == Digits(Abs(n), len);
  }

  /** The field that comes back from the database after `f` was written to it. */
  ghost function Returned(f: seq<byte>, dec: nat): (r: seq<byte>)
    requires IsField(f) && dec < |f|
    ensures |r| == |f|
  {
    SentFits(f, dec);
    Decoded(Canonical(NumericValue(Encoded(f, dec), dec), dec), |f|, dec)
  }

  lemma SentFits(f: seq<byte>, dec: nat)
    requires IsField(f) && dec < |f|
    ensures Abs(NumericValue(Encoded(f, dec), dec)) < Pow(10, |f|)
    ensures Decodable(Canonical(NumericValue(Encoded(f, dec), dec), dec), |f|, dec)
  {
    hide DigitsValue, Digits, Decodable, Encoded, NumericValue, Canonical;
    EncodedValue(f, dec);
    DigitsOfValue(Bare(f)[1..]);
    if !Marked(f[|f| - 1]) { DigitsOfValue(f); }
    CanonicalDecodes(NumericValue(Encoded(f, dec), dec), |f|, dec);
  }

  lemma ReturnedValue(f: seq<byte>, dec: nat)
    requires IsField(f) && dec < |f|
    ensures FieldValue(Returned(f, dec)) == Sent(f) && Returned(f, dec) == Field(Sent(f), |f|)
  {
    hide Canonical, Decoded, FieldValue, Field, Encoded, NumericValue, Pow, IsField, DigitsValue, Decodable;
    SentFits(f, dec);
    EncodedValue(f, dec);
    CanonicalDecodes(Sent(f), |f|, dec);
    ValueOfField(Sent(f), |f|);
  }

  /** Writing a number and reading it back keeps its value exactly when it is not negative
      or leaves its first digit free for the sign. */
  lemma RoundTrip(f: seq<byte>, dec: nat)
    requires IsField(f) && dec < |f|
    ensures FieldValue(Returned(f, dec)) == FieldValue(f)
       <==> !Marked(f[|f| - 1]) || Bare(f)[0] == ZERO
  {
    hide Returned, DigitsValue, Pow, Field;
    ReturnedValue(f, dec);
    LeadingDigit(Bare(f));
    var d, p := Bare(f)[0] as int - 48, Pow(10, |f| - 1);
    assert d * p == 0 <==> d == 0;
  }

  /** A field is the field of its value, unless it is a negative zero. */
  lemma FieldOfValue(f: seq<byte>)
    requires IsField(f)
    ensures Field(FieldValue(f), |f|) == f <==> !Marked(f[|f| - 1]) || DigitsValue(Bare(f)) != 0
  {
    hide DigitsValue, Digits, Pow;
    var last := |f| - 1;
    DigitsOfValue(Bare(f));
    MarkBack(f[last]);
    if Marked(f[last]) {
      assert f == Bare(f)[last := Mark(Bare(f)[last])];
    } else {
      assert Bare(f) == f;
    }
  }

  lemma MarkBack(b: byte)
    ensures Marked(b) ==> Mark(Unmark(b)) == b && !Marked(Unmark(b))
    ensures !Marked(b) ==> Unmark(b) == b
  {
  }

  /** The very bytes come back exactly when, in addition, the number is not a negative zero. */
  lemma ReturnedSame(f: seq<byte>, dec: nat)
    requires IsField(f) && dec < |f|
    ensures Returned(f, dec) == f <==> Survives(f)
  {
    hide Returned, DigitsValue, Pow, Field, IsField;
    ReturnedValue(f, dec);
    RoundTrip(f, dec);
    FieldOfValue(f);
  }

  ghost predicate Survives(f: seq<byte>)
    requires |f| >= 1
  {
    !Marked(f[|f| - 1]) || (Bare(f)[0] == ZERO && DigitsValue(Bare(f)) != 0)
  }

  lemma SentIsSmall(f: seq<byte>)
    requires IsField(f)
    ensures Abs(Sent(f)) < Pow(10, |f|) && (Sent(f) < 0 ==> -Sent(f) < Pow(10, |f| - 1))
  {
    hide DigitsValue, Digits, Pow;
    PowSteps(|f|);
    DigitsOfValue(Bare(f)[1..]);
    if !Marked(f[|f| - 1]) { DigitsOfValue(f); }
  }

  lemma FieldSurvives(n: int, len: nat)
    requires Storable(n, len)
    ensures IsField(Field(n, len)) && Survives(Field(n, len))
  {
    hide DigitsValue, Digits, Pow;
    PowSteps(len);
    ValueOfField(n, len);
    if n < 0 {
      var g := Digits(-n, len);
      assert Bare(Field(n, len)) == g;
      ValueOfDigits(-n, len);
      FirstDigit(g);
    }
  }

  /** What has come back once comes back again. */
  lemma SurvivesOnce(f: seq<byte>, dec: nat)
    requires IsField(f) && dec < |f|
    ensures IsField(Returned(f, dec)) && Survives(Returned(f, dec))
  {
    hide Returned, Field, IsField, Survives, Sent, Pow;
    SentIsSmall(f);
    ReturnedValue(f, dec);
    FieldSurvives(Sent(f), |f|);
  }

  /** In bytes: -12.34, whose digits are 0123t, is sent as -12.34, and from there comes back. */
  lemma TextOfField()
    ensures var f: seq<byte> := [48, 49, 50, 51, 116];
      && Encoded(f, 2) == [45, 49, 50, 46, 51, 52]
      && Decodable([45, 49, 50, 46, 51, 52], 5, 2) && Decoded([45, 49, 50, 46, 51, 52], 5, 2) == f
  {
    var f: seq<byte> := [48, 49, 50, 51, 116];
    var t: seq<byte> := [45, 49, 50, 46, 51, 52];
    EncodedPlaced(f, 2);
    assert Placed(f, 2, Encoded(f, 2));
    var e := Encoded(f, 2);
    assert e[0] == 45 && e[1] == f[1] && e[2] == f[2] && e[3] == 46 && e[4] == f[3] && e[5] == 52;
    assert e == t;
    var p: seq<byte> := [49, 50, 46, 51, 52];
    assert Unsigned(t) == p && p[..2] == [49, 50] && p[3..] == [51, 52];
    assert Zeros(1) == [48];
    assert Magnitude(p, 5, 2) == [48, 49, 50, 51, 52];
  }

  /** -121 comes back as -21. */
  lemma FirstDigitLost()
    ensures var f := Field(-121, 3);
      && f == [49, 50, 113] && IsField(f) && FieldValue(f) == -121
      && Returned(f, 0) == Field(-21, 3) && FieldValue(Returned(f, 0)) == -21
  {
    hide Returned, DigitsValue, FieldValue;
    PowThree();
    ValueOfField(-121, 3);
    ValueOfField(-21, 3);
    var f := Field(-121, 3);
    assert Digits(121, 3) == [49, 50, 49];
    assert Bare(f) == Digits(121, 3);
    assert Digits(121, 3)[1..] == Digits(21, 2);
    ValueOfDigits(21, 2);
    ReturnedValue(f, 0);
  }

  lemma PowThree()
    ensures Pow(10, 2) == 100 && Pow(10, 3) == 1000
  {
    assert Pow(10, 1) == 10;
  }

  /** The same for values: every non-negative value that fits in `len` digits, and every
      negative one that fits in len - 1, comes back as the field it was. */
  lemma ValuesReturn(n: int, len: nat, dec: nat)
    requires dec < len
    requires if n < 0 then -n < Pow(10, len - 1) else n < Pow(10, len)
    ensures IsField(Field(n, len)) && Returned(Field(n, len), dec) == Field(n, len)
  {
    hide Returned, DigitsValue, Digits;
    var f := Field(n, len);
    ValueOfField(n, len);
    ReturnedValue(f, dec);
    if n < 0 {
      assert Bare(f) == Digits(-n, len);
      LeadingDigit(Bare(f));
      FirstDigit(Bare(f));
    }
  }

  /** A value below 10^(len-1) has a leading zero. */
  lemma FirstDigit(s: seq<byte>)
    requires |s| >= 1 && forall i :: 0 <= i < |s| ==> IsDigit(s[i])
    requires DigitsValue(s) < Pow(10, |s| - 1)
    ensures s[0] == ZERO
  {
    hide DigitsValue, Pow, Digits;
    LeadingDigit(s);
    DigitsOfValue(s[1..]);
    ZeroFactor(s[0] as int - 48, Pow(10, |s| - 1), DigitsValue(s[1..]));
  }

  lemma ZeroFactor(d: int, p: int, v: int)
    requires d >= 0 && p >= 1 && v >= 0 && d * p + v < p
    ensures d == 0
  {
    assert d >= 1 ==> d * p >= p;
  }

  // ---- A whole record ----

  datatype Column = Column(numeric: bool, offset: nat, len: nat, dec: nat)

  /** Columns that lie one after the other from `start` on. */
  ghost predicate Layout(cols: seq<Column>, start: nat) {
    cols == [] || (&& cols[0].offset == start && cols[0].dec < cols[0].len
                   && Layout(cols[1..], start + cols[0].len))
  }

  ghost function Width(cols: seq<Column>): nat {
    if cols == [] then 0 else cols[0].len + Width(cols[1..])
  }

  lemma {:induction false} WidthAppend(cols: seq<Column>, c: Column)
    ensures Width(cols + [c]) == Width(cols) + c.len
  {
    if cols == [] { assert cols + [c] == [c]; } else {
      WidthAppend(cols[1..], c);
      assert (cols + [c])[1..] == cols[1..] + [c];
    }
  }

  /** Column c's share of the record for the text t. */
  ghost function Share(c: Column, t: seq<byte>): (f: seq<byte>)
    requires Fits(c, t)
    ensures |f| == c.len
  {
    if c.numeric then Decoded(t, c.len, c.dec) else t + Repeat(SPACE, c.len - |t|)
  }

  ghost predicate Fits(c: Column, t: seq<byte>) {
    if c.numeric then Decodable(t, c.len, c.dec) else |t| <= c.len
  }

  ghost function Shares(cols: seq<Column>, texts: seq<seq<byte>>): (r: seq<byte>)
    requires |cols| == |texts| && forall i :: 0 <= i < |cols| ==> Fits(cols[i], texts[i])
    ensures |r| == Width(cols)
  {
    if cols == [] then [] else Share(cols[0], texts[0]) + Shares(cols[1..], texts[1..])
  }

  lemma SharesFirst(c: Column, cols: seq<Column>, t: seq<byte>, texts: seq<seq<byte>>)
    requires |cols| == |texts| && (forall i :: 0 <= i < |cols| ==> Fits(cols[i], texts[i])) && Fits(c, t)
    ensures forall i :: 0 <= i < |cols| + 1 ==> Fits(([c] + cols)[i], ([t] + texts)[i])
    ensures Shares([c] + cols, [t] + texts) == Share(c, t) + Shares(cols, texts)
  {
    hide Fits, Share;
    assert ([c] + cols)[1..] == cols && ([t] + texts)[1..] == texts;
  }

  lemma {:induction false} SharesAppend(cols: seq<Column>, texts: seq<seq<byte>>, c: Column, t: seq<byte>)
    requires |cols| == |texts| && forall i :: 0 <= i < |cols| ==> Fits(cols[i], texts[i])
    requires Fits(c, t)
    ensures forall i :: 0 <= i < |cols + [c]| ==> Fits((cols + [c])[i], (texts + [t])[i])
    ensures Shares(cols + [c], texts + [t]) == Shares(cols, texts) + Share(c, t)
  {
    hide Fits, Share, Shares;
    NoShares();
    if cols == [] {
      SharesFirst(c, [], t, []);
      assert cols + [c] == [c] + [] && texts + [t] == [t] + [];
    } else {
      SharesAppend(cols[1..], texts[1..], c, t);
      SharesFirst(cols[0], cols[1..] + [c], texts[0], texts[1..] + [t]);
      SharesFirst(cols[0], cols[1..], texts[0], texts[1..]);
      assert cols + [c] == [cols[0]] + (cols[1..] + [c]) && texts + [t] == [texts[0]] + (texts[1..] + [t]);
      assert cols == [cols[0]] + cols[1..] && texts == [texts[0]] + texts[1..];
    }
  }

  /** `record` with `part` laid over it from `at` on. */
  ghost function Patched(record: seq<byte>, at: nat, part: seq<byte>): (r: seq<byte>)
    requires at + |part| <= |record|
    ensures |r| == |record|
  {
    record[..at] + part + record[at + |part|..]
  }

  lemma PatchOn(record: seq<byte>, at: nat, a: seq<byte>, b: seq<byte>)
    requires at + |a + b| <= |record|
    ensures Patched(Patched(record, at, a), at + |a|, b) == Patched(record, at, a + b)
  {
  }

  lemma PatchByte(record: seq<byte>, at: nat, a: seq<byte>, i: nat, b: byte)
    requires at + |a| <= |record| && i < |a|
    ensures Patched(record, at, a)[at + i] == a[i]
    ensures Patched(record, at, a)[at + i := b] == Patched(record, at, a[i := b])
  {
  }

  lemma PatchNext(record: seq<byte>, at: nat, a: seq<byte>, b: byte)
    requires at + |a| < |record|
    ensures Patched(record, at, a)[at + |a| := b] == Patched(record, at, a + [b])
  {
  }

  method Memset(record: array<byte>, at: nat, b: byte, n: nat)
    requires at + n <= record.Length
    modifies record
    ensures record[..] == Patched(old(record[..]), at, Repeat(b, n))
  {
    hide Patched;
    PatchNone(record[..], at);
    assert Repeat(b, 0) == [];
    for i := 0 to n
      invariant record[..] == Patched(old(record[..]), at, Repeat(b, i))
    {
      ghost var was := record[..];
      record[at + i] := b;
      assert record[..] == was[at + i := b];
      PatchNext(old(record[..]), at, Repeat(b, i), b);
      assert Repeat(b, i) + [b] == Repeat(b, i + 1);
    }
  }

  method Memcpy(record: array<byte>, at: nat, from: seq<byte>)
    requires at + |from| <= record.Length
    modifies record
    ensures record[..] == Patched(old(record[..]), at, from)
  {
    hide Patched;
    PatchNone(record[..], at);
    for i := 0 to |from|
      invariant record[..] == Patched(old(record[..]), at, from[..i])
    {
      ghost var was := record[..];
      record[at + i] := from[i];
      assert record[..] == was[at + i := from[i]];
      PatchNext(old(record[..]), at, from[..i], from[i]);
      assert from[..i] + [from[i]] == from[..i + 1];
    }
    assert from[..|from|] == from;
  }

  lemma PatchNone(record: seq<byte>, at: nat)
    requires at <= |record|
    ensures Patched(record, at, []) == record
  {
  }

  /** A number without its sign (pq2cob.c:29-36). */
  method PutMagnitude(record: array<byte>, offset: nat, p: seq<byte>, col: Column)
    requires FitsIn(p, col.len, col.dec) && offset + col.len <= record.Length
    modifies record
    ensures record[..] == Patched(old(record[..]), offset, Magnitude(p, col.len, col.dec))
  {
    hide Patched;
    var len := |p|;
    ghost var was := record[..];
    if col.dec == 0 {
      Memset(record, offset, ZERO, col.len - len);
      Memcpy(record, offset + (col.len - len), p);
      PatchOn(was, offset, Zeros(col.len - len), p);
    } else {
      Memset(record, offset, ZERO, col.len - len + 1);
      Memcpy(record, offset + (col.len - len + 1), p[..len - col.dec - 1]);
      PatchOn(was, offset, Zeros(col.len - len + 1), p[..len - col.dec - 1]);
      Memcpy(record, offset + (col.len - len + 1) + (len - col.dec - 1), p[len - col.dec..]);
      PatchOn(was, offset, Zeros(col.len - len + 1) + p[..len - col.dec - 1], p[len - col.dec..]);
    }
  }

  /** One column's share lands at `offset`; nothing else changes (pq2cob.c:21-49). */
  method PutField(record: array<byte>, offset: nat, aux: seq<byte>, col: Column)
    requires col.len >= 1 && Fits(col, aux) && offset + col.len <= record.Length
    modifies record
    ensures record[..] == Patched(old(record[..]), offset, Share(col, aux))
  {
    hide Magnitude, Patched;
    ghost var was := record[..];
    if col.numeric {
      if |aux| > 0 && aux[0] == MINUS {
        PutMagnitude(record, offset, aux[1..], col);
        ghost var m := Magnitude(aux[1..], col.len, col.dec);
        PatchByte(was, offset, m, col.len - 1, Mark(m[col.len - 1]));
        ghost var before := record[..];
        record[offset + col.len - 1] := Mark(record[offset + col.len - 1]);
        assert record[..] == before[offset + col.len - 1 := Mark(m[col.len - 1])];
      } else {
        PutMagnitude(record, offset, aux, col);
      }
    } else {
      Memcpy(record, offset, aux);
      Memset(record, offset + |aux|, SPACE, col.len - |aux|);
      PatchOn(was, offset, aux, Repeat(SPACE, col.len - |aux|));
    }
  }

  /** The whole record (pq2cob.c:7-56). */
  method Pq2Cob(cols: seq<Column>, values: seq<seq<byte>>, record: array<byte>)
    requires |cols| == |values| && forall i :: 0 <= i < |cols| ==> cols[i].len >= 1 && Fits(cols[i], values[i])
    requires Width(cols) <= record.Length
    modifies record
    ensures record[..] == Patched(old(record[..]), 0, Shares(cols, values))
  {
    hide Patched, Shares, Share, Fits;
    var offset := 0;
    ghost var was := record[..];
    PatchNone(was, 0);
    NoShares();
    for c := 0 to |cols|
      invariant offset == Width(cols[..c]) && offset + Width(cols[c..]) == Width(cols)
      invariant record[..] == Patched(was, 0, Shares(cols[..c], values[..c]))
    {
      ghost var done := Shares(cols[..c], values[..c]);
      assert cols[c..][1..] == cols[c + 1..];
      PutField(record, offset, values[c], cols[c]);
      PatchOn(was, 0, done, Share(cols[c], values[c]));
      SharesAppend(cols[..c], values[..c], cols[c], values[c]);
      WidthAppend(cols[..c], cols[c]);
      assert cols[..c + 1] == cols[..c] + [cols[c]] && values[..c + 1] == values[..c] + [values[c]];
      offset := offset + cols[c].len;
    }
    assert cols[..|cols|] == cols && values[..|cols|] == values;
  }

  lemma NoShares()
    ensures Shares([], []) == []
  {
  }

  ghost function Slice(c: Column, record: seq<byte>): (f: seq<byte>)
    requires c.offset + c.len <= |record|
    ensures |f| == c.len
  {
    record[c.offset..c.offset + c.len]
  }

  ghost function ParamOf(c: Column, record: seq<byte>): seq<byte>
    requires c.dec < c.len && c.offset + c.len <= |record|
  {
    if c.numeric then Encoded(Slice(c, record), c.dec) else Slice(c, record)
  }

  /** The bytes of a text column as they are, and those of a numeric one as said above. */
  ghost predicate ParamForm(c: Column, record: seq<byte>, buf: seq<byte>)
    requires c.dec < c.len && c.offset + c.len <= |record|
  {
    var f := record[c.offset..c.offset + c.len];
    if c.numeric then Placed(f, c.dec, buf) else buf == f
  }

  lemma ParamIs(c: Column, record: seq<byte>)
    requires c.dec < c.len && c.offset + c.len <= |record|
    ensures ParamForm(c, record, ParamOf(c, record))
  {
    hide Placed, Encoded;
    EncodedPlaced(Slice(c, record), c.dec);
  }

  /** The parameters of the INSERT (op_write.c:129-176). */
  method Params(cols: seq<Column>, record: seq<byte>) returns (bufs: seq<seq<byte>>)
    requires forall i :: 0 <= i < |cols| ==> cols[i].dec < cols[i].len && cols[i].offset + cols[i].len <= |record|
    ensures |bufs| == |cols| && forall i :: 0 <= i < |cols| ==> bufs[i] == ParamOf(cols[i], record)
    ensures forall i :: 0 <= i < |cols| ==> ParamForm(cols[i], record, bufs[i])
  {
    hide Encoded, Placed, ParamForm;
    forall i | 0 <= i < |cols| ensures ParamForm(cols[i], record, ParamOf(cols[i], record)) {
      ParamIs(cols[i], record);
    }
    bufs := [];
    for p := 0 to |cols|
      invariant |bufs| == p && forall i :: 0 <= i < p ==> bufs[i] == ParamOf(cols[i], record)
    {
      var col := cols[p];
      var buf;
      if col.numeric {
        buf := Encode(record, col.offset, col.len, col.dec);
      } else {
        buf := record[col.offset..col.offset + col.len];
      }
      bufs := bufs + [buf];
    }
  }

  /** What PostgreSQL may answer for a value it was sent: the number in its own form, or the
      text with or without its trailing spaces. */
  ghost predicate Answers(c: Column, sent: seq<byte>, answer: seq<byte>) {
    if c.numeric then answer == Canonical(NumericValue(sent, c.dec), c.dec)
    else |answer| <= |sent| && sent == answer + Repeat(SPACE, |sent| - |answer|)
  }

  /** A column whose content survives: text, or a number that has room for its sign. */
  ghost predicate Holds(c: Column, f: seq<byte>) {
    c.numeric ==> exists n: int :: Storable(n, c.len) && f == Field(n, c.len)
  }

  ghost predicate Storable(n: int, len: nat) {
    len >= 1 && if n < 0 then -n < Pow(10, len - 1) else n < Pow(10, len)
  }

  /** The column survives, and `answer` is what PostgreSQL gives back for it. */
  ghost predicate Answered(c: Column, record: seq<byte>, answer: seq<byte>) {
    && c.dec < c.len && c.offset + c.len <= |record|
    && Holds(c, Slice(c, record)) && Answers(c, ParamOf(c, record), answer)
  }

  lemma ColumnReturns(c: Column, record: seq<byte>, answer: seq<byte>)
    requires Answered(c, record, answer)
    ensures Fits(c, answer) && c.offset + c.len <= |record|
    ensures Share(c, answer) == record[c.offset..c.offset + c.len]
  {
    hide Field, Canonical, NumericValue, Decodable, Decoded, Encoded, IsField;
    if c.numeric {
      var f := Slice(c, record);
      var n: int :| Storable(n, c.len) && f == Field(n, c.len);
      ValuesReturn(n, c.len, c.dec);
      SentFits(f, c.dec);
    }
  }

  /** A record written to the table and read back is the same record. */
  lemma {:induction false} RecordReturns(cols: seq<Column>, start: nat, record: seq<byte>, answers: seq<seq<byte>>)
    requires Layout(cols, start) && start + Width(cols) <= |record| && |answers| == |cols|
    requires forall i :: 0 <= i < |cols| ==> Answered(cols[i], record, answers[i])
    ensures forall i :: 0 <= i < |cols| ==> Fits(cols[i], answers[i])
    ensures Shares(cols, answers) == record[start..start + Width(cols)]
  {
    hide Answered, Fits, Share, Shares;
    forall i | 0 <= i < |cols| ensures Fits(cols[i], answers[i]) {
      ColumnReturns(cols[i], record, answers[i]);
    }
    if cols == [] {
      NoShares();
    } else {
      var c := cols[0];
      ColumnReturns(c, record, answers[0]);
      RecordReturns(cols[1..], start + c.len, record, answers[1..]);
      SharesFirst(c, cols[1..], answers[0], answers[1..]);
      assert cols == [c] + cols[1..] && answers == [answers[0]] + answers[1..];
      Cut(record, start, start + c.len, start + Width(cols));
    }
  }

  lemma Cut(s: seq<byte>, a: nat, b: nat, c: nat)
    requires a <= b <= c <= |s|
    ensures s[a..c] == s[a..b] + s[b..c]
  {
  }
}
