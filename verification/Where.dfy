/** A START on a composite key as SQL (kdb.c:135-245): a nested WHERE and an ORDER BY.
    Both are sequences of tokens here; a row gives every column a number that stands for
    its place in the column's order. */
module Where {
  type Name = nat
  type Row = Name -> int

  datatype Op = Gt | Ge | Lt | Le | Eq

  datatype Token = Col(name: Name) | Cmp(op: Op) | Lit(value: int) | And | Or | Open | Close

  datatype Item = By(name: Name) | Desc | Comma

  // ---- SQL: AND binds tighter than OR ----

  datatype Cond = Test(name: Name, op: Op, value: int) | Both(l: Cond, r: Cond) | Either(l: Cond, r: Cond)

  datatype Parsed = Fail | Done(cond: Cond, rest: seq<Token>)

  ghost function ParseOr(ts: seq<Token>): (p: Parsed)
    ensures p.Done? ==> |p.rest| < |ts|
    decreases |ts|, 2
  {
    var p := ParseAnd(ts);
    if p.Fail? || p.rest == [] || p.rest[0] != Or then p
    else
      var q := ParseOr(p.rest[1..]);
      if q.Fail? then Fail else Done(Either(p.cond, q.cond), q.rest)
  }

  ghost function ParseAnd(ts: seq<Token>): (p: Parsed)
    ensures p.Done? ==> |p.rest| < |ts|
    decreases |ts|, 1
  {
    var p := ParseUnit(ts);
    if p.Fail? || p.rest == [] || p.rest[0] != And then p
    else
      var q := ParseAnd(p.rest[1..]);
      if q.Fail? then Fail else Done(Both(p.cond, q.cond), q.rest)
  }

  ghost function ParseUnit(ts: seq<Token>): (p: Parsed)
    ensures p.Done? ==> |p.rest| < |ts|
    decreases |ts|, 0
  {
    if ts != [] && ts[0] == Open then
      var p := ParseOr(ts[1..]);
      if p.Done? && p.rest != [] && p.rest[0] == Close then Done(p.cond, p.rest[1..]) else Fail
    else if |ts| >= 3 && ts[0].Col? && ts[1].Cmp? && ts[2].Lit? then
      Done(Test(ts[0].name, ts[1].op, ts[2].value), ts[3..])
    else Fail
  }

  predicate Compares(a: int, op: Op, b: int) {
    match op
    case Gt => a > b
    case Ge => a >= b
    case Lt => a < b
    case Le => a <= b
    case Eq => a == b
  }

  ghost predicate Eval(c: Cond, row: Row) {
    match c
    case Test(n, op, v) => Compares(row(n), op, v)
    case Both(l, r) => Eval(l, row) && Eval(r, row)
    case Either(l, r) => Eval(l, row) || Eval(r, row)
  }

  /** The rows a WHERE text selects; none when it does not parse. */
  ghost predicate Selects(where: seq<Token>, row: Row) {
    var p := ParseOr(where);
    p.Done? && p.rest == [] && Eval(p.cond, row)
  }

  /** Row a comes before row b under an ORDER BY text. */
  ghost predicate Before(order: seq<Item>, a: Row, b: Row) {
    if order == [] || !order[0].By? then false
    else
      var n := order[0].name;
      var desc := |order| > 1 && order[1] == Desc;
      var rest := order[if desc then 2 else 1..];
      if a(n) != b(n) then (if desc then a(n) > b(n) else a(n) < b(n))
      else rest != [] && rest[0] == Comma && Before(rest[1..], a, b)
  }

  // ---- Composite keys ----

  ghost function KeyOf(cols: seq<Name>, row: Row): (k: seq<int>)
    ensures |k| == |cols|
  {
    seq(|cols|, i requires 0 <= i < |cols| => row(cols[i]))
  }

  /** Lexicographic: negative, zero or positive. */
  ghost function Order(a: seq<int>, b: seq<int>): int
    requires |a| == |b|
    decreases |a|
  {
    if a == [] then 0 else if a[0] != b[0] then a[0] - b[0] else Order(a[1..], b[1..])
  }

  /** What each operator asks of the place of a row's key relative to the key given. */
  ghost predicate Meets(place: int, op: Op) {
    && (op == Gt ==> place > 0) && (op == Ge ==> place >= 0) && (op == Eq ==> place == 0)
    && (op == Lt ==> place < 0) && (op == Le ==> place <= 0)
  }

  // ---- The program ----

  predicate Downward(op: Op) { op == Lt || op == Le }

  function Strict(op: Op): Op {
    if op == Ge then Gt else if op == Le then Lt else op
  }

  function TestText(name: Name, op: Op, value: int): seq<Token> {
    [Col(name), Cmp(op), Lit(value)]
  }

  ghost function WhereText(cols: seq<Name>, key: seq<int>, op: Op): seq<Token>
    requires |cols| == |key| >= 1
    decreases |cols|
  {
    var n, v := cols[0], key[0];
    if |cols| == 1 then TestText(n, op, v)
    else
      var inner := WhereText(cols[1..], key[1..], op);
      if op == Eq then EqualText(n, v) + inner else NestText(n, op, v) + inner + [Close, Close]
  }

  function EqualText(n: Name, v: int): seq<Token> {
    TestText(n, Eq, v) + [And]
  }

  function NestText(n: Name, op: Op, v: int): seq<Token> {
    TestText(n, Strict(op), v) + [Or, Open] + TestText(n, Eq, v) + [And, Open]
  }

  ghost function OrderText(cols: seq<Name>, op: Op): seq<Item>
    requires |cols| >= 1
  {
    var item := ItemText(cols[0], op);
    if |cols| == 1 then item else item + [Comma] + OrderText(cols[1..], op)
  }

  function ItemText(n: Name, op: Op): seq<Item> {
    if Downward(op) then [By(n), Desc] else [By(n)]
  }

  /** The two buffers that getwhere fills. */
  class Query {
    var where: seq<Token>
    var order: seq<Item>

    constructor (cols: seq<Name>, key: seq<int>, op: Op)
      requires |cols| == |key| >= 1
      ensures forall row :: Selects(where, row) <==> Meets(Order(KeyOf(cols, row), key), op)
      ensures op != Lt && op != Le ==>
        forall a, b :: Before(order, a, b) <==> Order(KeyOf(cols, a), KeyOf(cols, b)) < 0
      ensures op == Lt || op == Le ==>
        forall a, b :: Before(order, a, b) <==> Order(KeyOf(cols, a), KeyOf(cols, b)) > 0
    {
      hide Selects, Before, Meets, Order;
      where, order := [], [];
      new;
      AddComp(cols, key, 0, op);
      assert cols[0..] == cols && key[0..] == key;
      assert where == WhereText(cols, key, op) && order == OrderText(cols, op);
      forall row ensures Selects(where, row) <==> Meets(Order(KeyOf(cols, row), key), op) {
        WhereMeansKeyOrder(cols, key, op, row);
      }
      forall a, b
        ensures op != Lt && op != Le ==> (Before(order, a, b) <==> Order(KeyOf(cols, a), KeyOf(cols, b)) < 0)
        ensures op == Lt || op == Le ==> (Before(order, a, b) <==> Order(KeyOf(cols, a), KeyOf(cols, b)) > 0)
      {
        OrderMeansKeyOrder(cols, op, a, b);
      }
    }

    method AddItem(n: Name, op: Op)
      modifies this
      ensures where == old(where) && order == old(order) + ItemText(n, op)
    {
      order := order + [By(n)];
      if Downward(op) { order := order + [Desc]; }
    }

    /** adiciona_comp from column c on. */
    method AddComp(cols: seq<Name>, key: seq<int>, c: nat, op: Op)
      requires |cols| == |key| && c < |cols|
      modifies this
      ensures where == old(where) + WhereText(cols[c..], key[c..], op)
      ensures order == old(order) + OrderText(cols[c..], op)
      decreases |cols| - c
    {
      hide TestText, NestText, EqualText, ItemText, Downward;
      var n, v := cols[c], key[c];
      assert cols[c..][1..] == cols[c + 1..] && key[c..][1..] == key[c + 1..];
      if c == |cols| - 1 {
        where := where + TestText(n, op, v);
        AddItem(n, op);
        return;
      }
      if op == Eq {
        where := where + EqualText(n, v);
        AddItem(n, op);
        order := order + [Comma];
        AddComp(cols, key, c + 1, op);
        return;
      }
      where := where + NestText(n, op, v);
      AddItem(n, op);
      order := order + [Comma];
      AddComp(cols, key, c + 1, op);
      where := where + [Close, Close];
    }
  }

  // ---- What the text means ----

  /** The condition that the text is read as. */
  ghost function CondOf(cols: seq<Name>, key: seq<int>, op: Op): Cond
    requires |cols| == |key| >= 1
    decreases |cols|
  {
    var n, v := cols[0], key[0];
    if |cols| == 1 then Test(n, op, v)
    else
      var inner := CondOf(cols[1..], key[1..], op);
      if op == Eq then Both(Test(n, op, v), inner)
      else Either(Test(n, Strict(op), v), Both(Test(n, Eq, v), inner))
  }

  /** What may follow a complete condition. */
  ghost predicate Ends(rest: seq<Token>) {
    rest == [] || rest[0] == Close
  }

  lemma ParseTest(n: Name, op: Op, v: int, rest: seq<Token>)
    ensures ParseUnit(TestText(n, op, v) + rest) == Done(Test(n, op, v), rest)
    ensures (rest == [] || rest[0] != And) ==> ParseAnd(TestText(n, op, v) + rest) == Done(Test(n, op, v), rest)
  {
    assert (TestText(n, op, v) + rest)[3..] == rest;
  }

  lemma ParseBoth(n: Name, op: Op, v: int, tail: seq<Token>)
    requires ParseAnd(tail).Done?
    ensures var q := ParseAnd(tail);
      ParseAnd(TestText(n, op, v) + ([And] + tail)) == Done(Both(Test(n, op, v), q.cond), q.rest)
  {
    ParseTest(n, op, v, [And] + tail);
    assert ([And] + tail)[1..] == tail;
  }

  lemma ParseOpen(inner: seq<Token>, rest: seq<Token>, c: Cond)
    requires ParseOr(inner + ([Close] + rest)) == Done(c, [Close] + rest)
    ensures ParseUnit([Open] + (inner + ([Close] + rest))) == Done(c, rest)
    ensures (rest == [] || rest[0] != And) ==> ParseAnd([Open] + (inner + ([Close] + rest))) == Done(c, rest)
  {
    assert ([Open] + (inner + ([Close] + rest)))[1..] == inner + ([Close] + rest);
    assert ([Close] + rest)[1..] == rest;
  }

  lemma ParseEither(n: Name, op: Op, v: int, tail: seq<Token>)
    requires ParseOr(tail).Done?
    ensures var q := ParseOr(tail);
      ParseOr(TestText(n, op, v) + ([Or] + tail)) == Done(Either(Test(n, op, v), q.cond), q.rest)
  {
    ParseTest(n, op, v, [Or] + tail);
    assert ([Or] + tail)[1..] == tail;
  }

  lemma OrOfAnd(ts: seq<Token>)
    requires ParseAnd(ts).Done? && Ends(ParseAnd(ts).rest)
    ensures ParseOr(ts) == ParseAnd(ts)
  {
  }

  lemma NestShape(n: Name, op: Op, v: int, inner: seq<Token>, rest: seq<Token>)
    ensures NestText(n, op, v) + inner + [Close, Close] + rest
         == TestText(n, Strict(op), v)
            + ([Or] + ([Open] + (TestText(n, Eq, v) + ([And] + ([Open] + (inner + ([Close] + ([Close] + rest))))))))
  {
    hide TestText;
  }

  /** n op v or ( n = v and ( inner ) ) */
  lemma NestParses(n: Name, op: Op, v: int, inner: seq<Token>, c: Cond, rest: seq<Token>)
    requires Ends(rest)
    requires ParseOr(inner + ([Close] + ([Close] + rest))) == Done(c, [Close] + ([Close] + rest))
    ensures ParseOr(NestText(n, op, v) + inner + [Close, Close] + rest)
         == Done(Either(Test(n, Strict(op), v), Both(Test(n, Eq, v), c)), rest)
  {
    hide ParseOr, ParseAnd, ParseUnit, TestText;
    var unit := [Open] + (inner + ([Close] + ([Close] + rest)));
    ParseOpen(inner, [Close] + rest, c);
    ParseBoth(n, Eq, v, unit);
    var both := TestText(n, Eq, v) + ([And] + unit);
    OrOfAnd(both);
    var equal := TestText(n, Eq, v) + [And] + ([Open] + inner + [Close]);
    assert both == equal + ([Close] + rest);
    ParseOpen(equal, rest, Both(Test(n, Eq, v), c));
    var right := [Open] + both;
    OrOfAnd(right);
    ParseEither(n, Strict(op), v, right);
    NestShape(n, op, v, inner, rest);
  }

  lemma {:induction false} TextParses(cols: seq<Name>, key: seq<int>, op: Op, rest: seq<Token>)
    requires |cols| == |key| >= 1 && Ends(rest)
    ensures ParseOr(WhereText(cols, key, op) + rest) == Done(CondOf(cols, key, op), rest)
    ensures (op == Eq || |cols| == 1) ==> ParseAnd(WhereText(cols, key, op) + rest) == Done(CondOf(cols, key, op), rest)
    decreases |cols|
  {
    hide ParseOr, ParseAnd, ParseUnit, TestText, NestText;
    var n, v := cols[0], key[0];
    var text := WhereText(cols, key, op) + rest;
    if |cols| == 1 {
      ParseTest(n, op, v, rest);
      OrOfAnd(text);
    } else if op == Eq {
      var inner := WhereText(cols[1..], key[1..], op);
      TextParses(cols[1..], key[1..], op, rest);
      ParseBoth(n, op, v, inner + rest);
      assert text == TestText(n, op, v) + ([And] + (inner + rest));
      OrOfAnd(text);
    } else {
      TextParses(cols[1..], key[1..], op, [Close] + ([Close] + rest));
      NestParses(n, op, v, WhereText(cols[1..], key[1..], op), CondOf(cols[1..], key[1..], op), rest);
    }
  }

  lemma {:induction false} CondMeansKeyOrder(cols: seq<Name>, key: seq<int>, op: Op, row: Row)
    requires |cols| == |key| >= 1
    ensures Eval(CondOf(cols, key, op), row) <==> Compares(Order(KeyOf(cols, row), key), op, 0)
    decreases |cols|
  {
    var k := KeyOf(cols, row);
    assert k[1..] == KeyOf(cols[1..], row);
    if |cols| > 1 {
      CondMeansKeyOrder(cols[1..], key[1..], op, row);
      assert Eval(Test(cols[0], Eq, key[0]), row) <==> k[0] == key[0];
    } else {
      assert Order(k[1..], key[1..]) == 0;
    }
  }

  /** The WHERE is true of a row exactly when its key compares so, lexicographically. */
  lemma WhereMeansKeyOrder(cols: seq<Name>, key: seq<int>, op: Op, row: Row)
    requires |cols| == |key| >= 1
    ensures Selects(WhereText(cols, key, op), row) <==> Meets(Order(KeyOf(cols, row), key), op)
  {
    TextParses(cols, key, op, []);
    assert WhereText(cols, key, op) + [] == WhereText(cols, key, op);
    CondMeansKeyOrder(cols, key, op, row);
  }

  lemma BeforeByItem(n: Name, op: Op, tail: seq<Item>, a: Row, b: Row)
    requires tail == [] || tail[0] == Comma
    ensures Before(ItemText(n, op) + tail, a, b) <==>
      if a(n) != b(n) then (if Downward(op) then a(n) > b(n) else a(n) < b(n))
      else tail != [] && Before(tail[1..], a, b)
  {
    var order := ItemText(n, op) + tail;
    assert order[0] == By(n) && order[|ItemText(n, op)|..] == tail;
  }

  /** The ORDER BY sorts by the whole key: upward for >, >= and =, downward for < and <=. */
  lemma {:induction false} OrderMeansKeyOrder(cols: seq<Name>, op: Op, a: Row, b: Row)
    requires |cols| >= 1
    ensures op == Gt || op == Ge || op == Eq ==>
      (Before(OrderText(cols, op), a, b) <==> Order(KeyOf(cols, a), KeyOf(cols, b)) < 0)
    ensures op == Lt || op == Le ==>
      (Before(OrderText(cols, op), a, b) <==> Order(KeyOf(cols, a), KeyOf(cols, b)) > 0)
    decreases |cols|
  {
    hide Before, ItemText;
    var ka, kb := KeyOf(cols, a), KeyOf(cols, b);
    assert ka[1..] == KeyOf(cols[1..], a) && kb[1..] == KeyOf(cols[1..], b);
    if |cols| == 1 {
      BeforeByItem(cols[0], op, [], a, b);
      assert OrderText(cols, op) == ItemText(cols[0], op) + [];
      assert Order(ka[1..], kb[1..]) == 0;
    } else {
      var rest := OrderText(cols[1..], op);
      OrderMeansKeyOrder(cols[1..], op, a, b);
      BeforeByItem(cols[0], op, [Comma] + rest, a, b);
      assert ([Comma] + rest)[1..] == rest;
      assert OrderText(cols, op) == ItemText(cols[0], op) + ([Comma] + rest);
    }
  }

  lemma {:induction false} UpwardAt(cols: seq<Name>, op: Op, i: nat)
    requires i < |cols| && (op == Gt || op == Ge || op == Eq)
    ensures |OrderText(cols, op)| == 2 * |cols| - 1 && OrderText(cols, op)[2 * i] == By(cols[i])
    ensures i > 0 ==> OrderText(cols, op)[2 * i - 1] == Comma
    decreases |cols|
  {
    if |cols| > 1 {
      var text, rest := OrderText(cols, op), OrderText(cols[1..], op);
      assert text == [By(cols[0]), Comma] + rest;
      UpwardAt(cols[1..], op, if i > 0 then i - 1 else 0);
      if i > 0 {
        assert text[2 * i] == rest[2 * (i - 1)];
        if i > 1 { assert text[2 * i - 1] == rest[2 * (i - 1) - 1]; }
      }
    }
  }

  /** The text itself: column names with commas between them, ... */
  lemma UpwardText(cols: seq<Name>, op: Op)
    requires |cols| >= 1 && (op == Gt || op == Ge || op == Eq)
    ensures |OrderText(cols, op)| == 2 * |cols| - 1
    ensures forall i :: 0 <= i < |cols| ==> OrderText(cols, op)[2 * i] == By(cols[i])
    ensures forall i :: 0 < i < |cols| ==> OrderText(cols, op)[2 * i - 1] == Comma
  {
    hide OrderText;
    UpwardAt(cols, op, 0);
    forall i | 0 <= i < |cols|
      ensures OrderText(cols, op)[2 * i] == By(cols[i]) && (i > 0 ==> OrderText(cols, op)[2 * i - 1] == Comma)
    {
      UpwardAt(cols, op, i);
    }
  }

  lemma {:induction false} DownwardAt(cols: seq<Name>, op: Op, i: nat)
    requires i < |cols| && (op == Lt || op == Le)
    ensures |OrderText(cols, op)| == 3 * |cols| - 1
    ensures OrderText(cols, op)[3 * i] == By(cols[i]) && OrderText(cols, op)[3 * i + 1] == Desc
    ensures i > 0 ==> OrderText(cols, op)[3 * i - 1] == Comma
    decreases |cols|
  {
    if |cols| > 1 {
      var text, rest := OrderText(cols, op), OrderText(cols[1..], op);
      assert text == [By(cols[0]), Desc, Comma] + rest;
      DownwardAt(cols[1..], op, if i > 0 then i - 1 else 0);
      if i > 0 {
        assert text[3 * i] == rest[3 * (i - 1)] && text[3 * i + 1] == rest[3 * (i - 1) + 1];
        if i > 1 { assert text[3 * i - 1] == rest[3 * (i - 1) - 1]; }
      }
    }
  }

  /** ... and for < and <= each of them followed by "desc". */
  lemma DownwardText(cols: seq<Name>, op: Op)
    requires |cols| >= 1 && (op == Lt || op == Le)
    ensures |OrderText(cols, op)| == 3 * |cols| - 1
    ensures forall i :: 0 <= i < |cols| ==>
      OrderText(cols, op)[3 * i] == By(cols[i]) && OrderText(cols, op)[3 * i + 1] == Desc
    ensures forall i :: 0 < i < |cols| ==> OrderText(cols, op)[3 * i - 1] == Comma
  {
    hide OrderText;
    DownwardAt(cols, op, 0);
    forall i | 0 <= i < |cols|
      ensures OrderText(cols, op)[3 * i] == By(cols[i]) && OrderText(cols, op)[3 * i + 1] == Desc
      ensures i > 0 ==> OrderText(cols, op)[3 * i - 1] == Comma
    {
      DownwardAt(cols, op, i);
    }
  }

  /** The first row of a cursor: no selected row comes before it. */
  ghost predicate IsFirst(cols: seq<Name>, key: seq<int>, op: Op, table: set<Row>, r: Row)
    requires |cols| == |key| >= 1
  {
    && r in table && Selects(WhereText(cols, key, op), r)
    && forall x :: x in table && Selects(WhereText(cols, key, op), x) ==> !Before(OrderText(cols, op), x, r)
  }

  /** It is the one with the nearest key in the direction of op: for > and >= the lowest of
      the keys above, for < and <= the highest of those below. */
  lemma FirstIsNearest(cols: seq<Name>, key: seq<int>, op: Op, table: set<Row>, r: Row)
    requires |cols| == |key| >= 1
    ensures op == Gt ==> (IsFirst(cols, key, op, table, r) <==>
      && r in table && Order(KeyOf(cols, r), key) > 0
      && forall x :: x in table && Order(KeyOf(cols, x), key) > 0 ==> Order(KeyOf(cols, x), KeyOf(cols, r)) >= 0)
    ensures op == Ge ==> (IsFirst(cols, key, op, table, r) <==>
      && r in table && Order(KeyOf(cols, r), key) >= 0
      && forall x :: x in table && Order(KeyOf(cols, x), key) >= 0 ==> Order(KeyOf(cols, x), KeyOf(cols, r)) >= 0)
    ensures op == Lt ==> (IsFirst(cols, key, op, table, r) <==>
      && r in table && Order(KeyOf(cols, r), key) < 0
      && forall x :: x in table && Order(KeyOf(cols, x), key) < 0 ==> Order(KeyOf(cols, x), KeyOf(cols, r)) <= 0)
    ensures op == Le ==> (IsFirst(cols, key, op, table, r) <==>
      && r in table && Order(KeyOf(cols, r), key) <= 0
      && forall x :: x in table && Order(KeyOf(cols, x), key) <= 0 ==> Order(KeyOf(cols, x), KeyOf(cols, r)) <= 0)
    ensures op == Eq ==> (IsFirst(cols, key, op, table, r) <==> r in table && Order(KeyOf(cols, r), key) == 0)
  {
    hide Selects, Before, Order, Compares;
    forall x
      ensures Selects(WhereText(cols, key, op), x) <==> Meets(Order(KeyOf(cols, x), key), op)
      ensures op == Gt || op == Ge || op == Eq ==>
        (Before(OrderText(cols, op), x, r) <==> Order(KeyOf(cols, x), KeyOf(cols, r)) < 0)
      ensures op == Lt || op == Le ==>
        (Before(OrderText(cols, op), x, r) <==> Order(KeyOf(cols, x), KeyOf(cols, r)) > 0)
      ensures Order(KeyOf(cols, r), key) == 0 && Order(KeyOf(cols, x), key) == 0 ==>
        Order(KeyOf(cols, x), KeyOf(cols, r)) == 0
    {
      WhereMeansKeyOrder(cols, key, op, x);
      OrderMeansKeyOrder(cols, op, x, r);
      EqualKeys(KeyOf(cols, x), KeyOf(cols, r), key);
    }
  }

  lemma {:induction false} EqualKeys(a: seq<int>, b: seq<int>, c: seq<int>)
    requires |a| == |b| == |c|
    ensures Order(a, c) == 0 && Order(b, c) == 0 ==> Order(a, b) == 0
    decreases |a|
  {
    if a != [] { EqualKeys(a[1..], b[1..], c[1..]); }
  }

  /** AND binds tighter than OR. */
  lemma AndBeforeOr(a: Name, b: Name, c: Name)
    ensures ParseOr(TestText(a, Gt, 1) + ([Or] + (TestText(b, Eq, 2) + ([And] + (TestText(c, Lt, 3) + [])))))
         == Done(Either(Test(a, Gt, 1), Both(Test(b, Eq, 2), Test(c, Lt, 3))), [])
  {
    hide ParseOr, ParseAnd, ParseUnit, TestText;
    var last := TestText(c, Lt, 3) + [];
    ParseTest(c, Lt, 3, []);
    ParseBoth(b, Eq, 2, last);
    OrOfAnd(TestText(b, Eq, 2) + ([And] + last));
    ParseEither(a, Gt, 1, TestText(b, Eq, 2) + ([And] + last));
  }
}
