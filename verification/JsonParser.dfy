/** From tokens to a tree (json/parser.c). */
module JsonParser {
  import opened Json

  /** The program follows a null pointer when an object ends right after a name. */
  datatype Parsed<T> = Crash | Parsed(value: T, rest: seq<Token>, ok: bool)

  function ParseMembers(ts: seq<Token>): (p: Parsed<Members>)
    ensures p.Parsed? ==> |p.rest| <= |ts|
    decreases |ts|
  {
    if ts == [] then Parsed(NoMember, [], true)
    else if First(ts[0].buf) == '}' then Parsed(NoMember, ts[1..], true)
    else if First(ts[0].buf) == ',' then ParseMembers(ts[1..])
    else if |ts| < 3 then Crash
    else
      var v := ParseValue(ts[2..]);
      if v.Crash? then Crash
      else
        var m := ParseMembers(v.rest);
        if m.Crash? then Crash
        else Parsed(Member(ts[0].buf, v.value, m.value), m.rest,
                    ts[0].kind == String && ts[1].buf == ":" && v.ok && m.ok)
  }

  /** The value of a member. */
  function ParseValue(ts: seq<Token>): (p: Parsed<Json>)
    requires ts != []
    ensures p.Parsed? ==> |p.rest| < |ts|
    decreases |ts|
  {
    if First(ts[0].buf) == '[' then
      var xs := ParseItems(ts[1..]);
      if xs.Crash? then Crash else Parsed(Arr(xs.value), xs.rest, xs.ok)
    else if First(ts[0].buf) == '{' then
      var ms := ParseMembers(ts[1..]);
      if ms.Crash? then Crash else Parsed(Obj(ms.value), ms.rest, ms.ok)
    else Parsed(Leaf(ts[0].kind, ts[0].buf), ts[1..], true)
  }

  function ParseItems(ts: seq<Token>): (p: Parsed<Items>)
    ensures p.Parsed? ==> |p.rest| <= |ts|
    decreases |ts|
  {
    if ts == [] then Parsed(NoItem, [], true)
    else if First(ts[0].buf) == ']' then Parsed(NoItem, ts[1..], true)
    else if First(ts[0].buf) == ',' then ParseItems(ts[1..])
    else if First(ts[0].buf) == '{' then
      var ms := ParseMembers(ts[1..]);
      if ms.Crash? then Crash
      else
        var xs := ParseItems(ms.rest);
        if xs.Crash? then Crash else Parsed(Item(Obj(ms.value), xs.value), xs.rest, ms.ok && xs.ok)
    else
      var xs := ParseItems(ts[1..]);
      if xs.Crash? then Crash else Parsed(Item(Leaf(ts[0].kind, ts[0].buf), xs.value), xs.rest, xs.ok)
  }

  datatype Outcome = Died | Rejected | Accepted(root: Json)

  /** What `parse` makes of a token list: the root is an object or an array, and whatever
      follows it is ignored. */
  function ParseRoot(ts: seq<Token>): Outcome {
    if ts == [] then Rejected
    else if ts[0].buf == "[" then
      var p := ParseItems(ts[1..]);
      if p.Crash? then Died else if p.ok then Accepted(Arr(p.value)) else Rejected
    else if ts[0].buf == "{" then
      var p := ParseMembers(ts[1..]);
      if p.Crash? then Died else if p.ok then Accepted(Obj(p.value)) else Rejected
    else Rejected
  }

  // ---- The tokens of a tree parse to that tree ----

  lemma MemberStep(n: string, v: Json, ts: seq<Token>, tail: seq<Token>, more: Members, rest: seq<Token>)
    requires First(n) != '}' && First(n) != ',' && ts != []
    requires ParseValue(ts) == Parsed(v, tail, true) && ParseMembers(tail) == Parsed(more, rest, true)
    ensures ParseMembers([Token(String, n), Sym(':')] + ts) == Parsed(Member(n, v, more), rest, true)
  {
    assert ([Token(String, n), Sym(':')] + ts)[2..] == ts;
  }

  lemma ObjectStep(ms: Members, ts: seq<Token>, tail: seq<Token>, more: Items, rest: seq<Token>)
    requires ParseMembers(ts) == Parsed(ms, tail, true) && ParseItems(tail) == Parsed(more, rest, true)
    ensures ParseItems([Sym('{')] + ts) == Parsed(Item(Obj(ms), more), rest, true)
  {
    assert ([Sym('{')] + ts)[1..] == ts;
  }

  lemma LeafStep(k: Kind, s: string, tail: seq<Token>, more: Items, rest: seq<Token>)
    requires First(s) != ']' && First(s) != ',' && First(s) != '{' && ParseItems(tail) == Parsed(more, rest, true)
    ensures ParseItems([Token(k, s)] + tail) == Parsed(Item(Leaf(k, s), more), rest, true)
  {
    assert ([Token(k, s)] + tail)[1..] == tail;
  }

  /** What ends a list: its closing bracket, or nothing at all. */
  lemma Closing(rest: seq<Token>)
    ensures ParseMembers([Sym('}')] + rest) == Parsed(NoMember, rest, true)
    ensures ParseItems([Sym(']')] + rest) == Parsed(NoItem, rest, true)
    ensures ParseMembers([]) == Parsed(NoMember, [], true) && ParseItems([]) == Parsed(NoItem, [], true)
  {
    assert ([Sym('}')] + rest)[1..] == rest && ([Sym(']')] + rest)[1..] == rest;
  }

  lemma MembersShape(n: string, v: Json, more: Members, tail: seq<Token>)
    ensures MembersTokens(Member(n, v, more)) + tail
         == [Token(String, n), Sym(':')]
            + (ValueTokens(v) + (CommaTokens(more.NoMember?) + (MembersTokens(more) + tail)))
    ensures MembersTokens(NoMember) + tail == tail
  {
    hide CommaTokens, ValueTokens;
  }

  lemma ItemsShape(v: Json, more: Items, tail: seq<Token>)
    ensures ItemsTokens(Item(v, more)) + tail
         == ValueTokens(v) + (CommaTokens(more.NoItem?) + (ItemsTokens(more) + tail))
    ensures ItemsTokens(NoItem) + tail == tail
  {
    hide CommaTokens, ValueTokens;
  }

  lemma ValueShape(v: Json, tail: seq<Token>)
    ensures match v
      case Leaf(k, s) => ValueTokens(v) + tail == [Token(k, s)] + tail
      case Obj(ms) => ValueTokens(v) + tail == [Sym('{')] + (MembersTokens(ms) + ([Sym('}')] + tail))
      case Arr(xs) => ValueTokens(v) + tail == [Sym('[')] + (ItemsTokens(xs) + ([Sym(']')] + tail))
  {
    hide MembersTokens, ItemsTokens;
  }

  /** `end` ends the list and leaves `rest`. */
  lemma {:induction false} MembersParse(ms: Members, end: seq<Token>, rest: seq<Token>)
    requires MembersShaped(ms) && ParseMembers(end) == Parsed(NoMember, rest, true)
    ensures ParseMembers(MembersTokens(ms) + end) == Parsed(ms, rest, true)
    decreases ms, 1
  {
    hide ParseMembers, ParseItems, ParseValue, First, MembersTokens, ValueTokens, CommaTokens;
    match ms
    case NoMember => MembersShape("", Obj(NoMember), NoMember, end);
    case Member(n, v, more) =>
      var after := MembersTokens(more) + end;
      var tail := CommaTokens(more.NoMember?) + after;
      MembersShape(n, v, more, end);
      ValueParses(ms, tail);
      MembersParse(more, end, rest);
      SkipComma(more.NoMember?, after);
      MemberStep(n, v, ValueTokens(v) + tail, tail, more, rest);
  }

  lemma SkipComma(last: bool, ts: seq<Token>)
    ensures ParseMembers(CommaTokens(last) + ts) == ParseMembers(ts)
    ensures ParseItems(CommaTokens(last) + ts) == ParseItems(ts)
  {
    if last {
      assert CommaTokens(last) + ts == ts;
    } else {
      assert (CommaTokens(last) + ts)[1..] == ts;
    }
  }

  lemma {:induction false} ValueParses(ms: Members, tail: seq<Token>)
    requires ms.Member? && MembersShaped(ms)
    ensures ValueTokens(ms.value) != [] && ParseValue(ValueTokens(ms.value) + tail) == Parsed(ms.value, tail, true)
    decreases ms, 0
  {
    hide ParseMembers, ParseItems, MembersTokens, ItemsTokens, ValueTokens;
    var ts := ValueTokens(ms.value) + tail;
    ValueShape(ms.value, tail);
    Closing(tail);
    match ms.value
    case Leaf(k, s) => assert ([Token(k, s)] + tail)[1..] == tail;
    case Obj(inner) =>
      MembersParse(inner, [Sym('}')] + tail, tail);
      assert ts[1..] == MembersTokens(inner) + ([Sym('}')] + tail);
    case Arr(xs) =>
      ItemsParse(xs, [Sym(']')] + tail, tail);
      assert ts[1..] == ItemsTokens(xs) + ([Sym(']')] + tail);
  }

  lemma {:induction false} ItemsParse(xs: Items, end: seq<Token>, rest: seq<Token>)
    requires ItemsShaped(xs) && ParseItems(end) == Parsed(NoItem, rest, true)
    ensures ParseItems(ItemsTokens(xs) + end) == Parsed(xs, rest, true)
    decreases xs, 1
  {
    hide ParseMembers, ParseItems, ParseValue, First, ItemsTokens, MembersTokens, ValueTokens, CommaTokens;
    match xs
    case NoItem => ItemsShape(Obj(NoMember), NoItem, end);
    case Item(v, more) =>
      var after := ItemsTokens(more) + end;
      var tail := CommaTokens(more.NoItem?) + after;
      ItemsParse(more, end, rest);
      SkipComma(more.NoItem?, after);
      ItemsShape(v, more, end);
      ValueShape(v, tail);
      if v.Obj? {
        Closing(tail);
        MembersParse(v.members, [Sym('}')] + tail, tail);
        ObjectStep(v.members, MembersTokens(v.members) + ([Sym('}')] + tail), tail, more, rest);
      } else {
        LeafStep(v.kind, v.value, tail, more, rest);
      }
  }

  /** The tokens of a tree parse to it, whatever follows them. */
  lemma TokensParse(t: Json, rest: seq<Token>)
    requires TreeShaped(t)
    ensures ParseRoot(ValueTokens(t) + rest) == Accepted(t)
  {
    hide ParseMembers, ParseItems, MembersTokens, ItemsTokens, ValueTokens;
    var ts := ValueTokens(t) + rest;
    ValueShape(t, rest);
    Closing(rest);
    if t.Obj? {
      MembersParse(t.members, [Sym('}')] + rest, rest);
      assert ts[1..] == MembersTokens(t.members) + ([Sym('}')] + rest);
    } else {
      ItemsParse(t.items, [Sym(']')] + rest, rest);
      assert ts[1..] == ItemsTokens(t.items) + ([Sym(']')] + rest);
    }
  }

  /** A missing last bracket goes unnoticed. */
  lemma UnclosedAccepted(ms: Members, xs: Items)
    ensures MembersShaped(ms) ==> ParseRoot([Sym('{')] + MembersTokens(ms)) == Accepted(Obj(ms))
    ensures ItemsShaped(xs) ==> ParseRoot([Sym('[')] + ItemsTokens(xs)) == Accepted(Arr(xs))
  {
    hide ParseMembers, ParseItems, MembersTokens, ItemsTokens;
    Closing([]);
    var ts, us := MembersTokens(ms), ItemsTokens(xs);
    assert ([Sym('{')] + ts)[1..] == ts == ts + [] && ([Sym('[')] + us)[1..] == us == us + [];
    if MembersShaped(ms) { MembersParse(ms, [], []); }
    if ItemsShaped(xs) { ItemsParse(xs, [], []); }
  }

  /** And the parser builds no other trees. */
  lemma {:induction false} MembersCome(ts: seq<Token>)
    ensures ParseMembers(ts).Parsed? ==> MembersShaped(ParseMembers(ts).value)
    decreases |ts|
  {
    if ts != [] && First(ts[0].buf) != '}' {
      if First(ts[0].buf) == ',' {
        MembersCome(ts[1..]);
      } else if |ts| >= 3 && ParseMembers(ts).Parsed? {
        MembersCome(ParseValue(ts[2..]).rest);
        MembersCome(ts[3..]);
        ItemsCome(ts[3..]);
        assert ts[2..][1..] == ts[3..];
      }
    }
  }

  lemma {:induction false} ItemsCome(ts: seq<Token>)
    ensures ParseItems(ts).Parsed? ==> ItemsShaped(ParseItems(ts).value)
    decreases |ts|
  {
    if ts != [] && First(ts[0].buf) != ']' {
      ItemsCome(ts[1..]);
      if First(ts[0].buf) == '{' && ParseItems(ts).Parsed? {
        MembersCome(ts[1..]);
        ItemsCome(ParseMembers(ts[1..]).rest);
      }
    }
  }

  /** A word is neither punctuation, nor a name, nor a colon: where no error is reported,
      the words among the tokens used are those of the tree, in order. */
  lemma {:induction false} MembersKeepWords(ts: seq<Token>)
    requires WordsPlain(ts)
    ensures var p := ParseMembers(ts);
      p.Parsed? && p.ok ==> WordsPlain(p.rest) && TokensWords(ts) == MembersWords(p.value) + TokensWords(p.rest)
    decreases |ts|, 1
  {
    var p := ParseMembers(ts);
    if ts != [] && p.Parsed? && p.ok {
      if First(ts[0].buf) == '}' {
        assert TokensWords(ts) == TokensWords(ts[1..]);
      } else if First(ts[0].buf) == ',' {
        MembersKeepWords(ts[1..]);
      } else {
        var v := ParseValue(ts[2..]);
        ValueKeepsWords(ts[2..]);
        MembersKeepWords(v.rest);
        TwoSkipped(ts);
      }
    }
  }

  lemma TwoSkipped(ts: seq<Token>)
    requires |ts| >= 2 && ts[0].kind != Bool && ts[1].kind != Bool
    ensures TokensWords(ts) == TokensWords(ts[2..])
  {
    assert ts[1..][1..] == ts[2..];
  }

  lemma {:induction false} ValueKeepsWords(ts: seq<Token>)
    requires ts != [] && WordsPlain(ts)
    ensures var p := ParseValue(ts);
      p.Parsed? && p.ok ==> WordsPlain(p.rest) && TokensWords(ts) == ValueWords(p.value) + TokensWords(p.rest)
    decreases |ts|, 0
  {
    if First(ts[0].buf) == '[' {
      ItemsKeepWords(ts[1..]);
    } else if First(ts[0].buf) == '{' {
      MembersKeepWords(ts[1..]);
    }
  }

  lemma {:induction false} ItemsKeepWords(ts: seq<Token>)
    requires WordsPlain(ts)
    ensures var p := ParseItems(ts);
      p.Parsed? && p.ok ==> WordsPlain(p.rest) && TokensWords(ts) == ItemsWords(p.value) + TokensWords(p.rest)
    decreases |ts|, 1
  {
    var p := ParseItems(ts);
    if ts != [] && p.Parsed? && p.ok {
      if First(ts[0].buf) == ']' {
        assert TokensWords(ts) == TokensWords(ts[1..]);
      } else if First(ts[0].buf) == '{' {
        MembersKeepWords(ts[1..]);
        ItemsKeepWords(ParseMembers(ts[1..]).rest);
      } else {
        ItemsKeepWords(ts[1..]);
      }
    }
  }

  /** So the first word of an accepted tree is the first word among the tokens. */
  lemma RootKeepsWords(ts: seq<Token>)
    requires WordsPlain(ts)
    ensures var o := ParseRoot(ts);
      o.Accepted? && ValueWords(o.root) != [] ==> TokensWords(ts) != [] && TokensWords(ts)[0] == ValueWords(o.root)[0]
  {
    if ts != [] {
      MembersKeepWords(ts[1..]);
      ItemsKeepWords(ts[1..]);
    }
  }

  lemma RootComes(ts: seq<Token>)
    ensures ParseRoot(ts).Accepted? ==> TreeShaped(ParseRoot(ts).root)
  {
    if ts != [] {
      MembersCome(ts[1..]);
      ItemsCome(ts[1..]);
    }
  }

  /** Where no error is reported, a member begins with a string and a colon. */
  lemma NameAndColon(ts: seq<Token>)
    requires ts != [] && First(ts[0].buf) != '}' && First(ts[0].buf) != ','
    ensures ParseMembers(ts).Parsed? && ParseMembers(ts).ok ==>
      |ts| >= 3 && ts[0].kind == String && ts[1].buf == ":"
    ensures |ts| < 3 ==> ParseMembers(ts).Crash?
  {
  }

  // ---- The program ----

  function MembersJoin(a: Members, b: Members): Members {
    if a.NoMember? then b else a.(rest := MembersJoin(a.rest, b))
  }

  function ItemsJoin(a: Items, b: Items): Items {
    if a.NoItem? then b else a.(rest := ItemsJoin(a.rest, b))
  }

  lemma MembersJoinEnd(a: Members, n: string, v: Json, b: Members)
    ensures MembersJoin(MembersJoin(a, Member(n, v, NoMember)), b) == MembersJoin(a, Member(n, v, b))
    ensures MembersJoin(a, NoMember) == a
  {
  }

  lemma ItemsJoinEnd(a: Items, v: Json, b: Items)
    ensures ItemsJoin(ItemsJoin(a, Item(v, NoItem)), b) == ItemsJoin(a, Item(v, b))
    ensures ItemsJoin(a, NoItem) == a
  {
  }

  /** How a loop's children so far and the rest of the tokens make up the whole. */
  ghost predicate MembersSoFar(whole: Parsed<Members>, children: Members, ok: bool, rest: Parsed<Members>) {
    if rest.Crash? then whole.Crash?
    else whole == Parsed(MembersJoin(children, rest.value), rest.rest, ok && rest.ok)
  }

  ghost predicate ItemsSoFar(whole: Parsed<Items>, children: Items, ok: bool, rest: Parsed<Items>) {
    if rest.Crash? then whole.Crash?
    else whole == Parsed(ItemsJoin(children, rest.value), rest.rest, ok && rest.ok)
  }

  /** One turn of each loop. */
  lemma ItemsTurn(whole: Parsed<Items>, children: Items, ok: bool, ts: seq<Token>,
                  child: Json, childOk: bool, rest: seq<Token>)
    requires ts != [] && ItemsSoFar(whole, children, ok, ParseItems(ts))
    requires First(ts[0].buf) != ']' && First(ts[0].buf) != ','
    requires if First(ts[0].buf) == '{' then child.Obj? && ParseMembers(ts[1..]) == Parsed(child.members, rest, childOk)
             else child == Leaf(ts[0].kind, ts[0].buf) && rest == ts[1..] && childOk
    ensures ItemsSoFar(whole, ItemsJoin(children, Item(child, NoItem)), ok && childOk, ParseItems(rest))
  {
    var more := ParseItems(rest);
    if more.Parsed? { ItemsJoinEnd(children, child, more.value); }
  }

  lemma ItemsBegin(whole: Parsed<Items>)
    ensures ItemsSoFar(whole, NoItem, true, whole)
  {
  }

  lemma ItemsOver(whole: Parsed<Items>, children: Items, ok: bool, ts: seq<Token>)
    requires ItemsSoFar(whole, children, ok, ParseItems(ts))
    ensures ts == [] ==> whole == Parsed(children, [], ok)
    ensures ts != [] && First(ts[0].buf) == ']' ==> whole == Parsed(children, ts[1..], ok)
    ensures ts != [] && First(ts[0].buf) == ',' ==> ItemsSoFar(whole, children, ok, ParseItems(ts[1..]))
    ensures ts != [] && First(ts[0].buf) == '{' && ParseMembers(ts[1..]).Crash? ==> whole.Crash?
  {
    ItemsJoinEnd(children, Obj(NoMember), NoItem);
  }

  lemma MembersTurn(whole: Parsed<Members>, children: Members, ok: bool, ts: seq<Token>)
    requires |ts| >= 3 && First(ts[0].buf) != '}' && First(ts[0].buf) != ','
    requires MembersSoFar(whole, children, ok, ParseMembers(ts))
    ensures var v := ParseValue(ts[2..]);
      if v.Crash? then whole.Crash?
      else MembersSoFar(whole, MembersJoin(children, Member(ts[0].buf, v.value, NoMember)),
                        ok && ts[0].kind == String && ts[1].buf == ":" && v.ok, ParseMembers(v.rest))
  {
    var v := ParseValue(ts[2..]);
    if v.Parsed? {
      var more := ParseMembers(v.rest);
      if more.Parsed? { MembersJoinEnd(children, ts[0].buf, v.value, more.value); }
    }
  }

  lemma MembersOver(whole: Parsed<Members>, children: Members, ok: bool, ts: seq<Token>)
    requires MembersSoFar(whole, children, ok, ParseMembers(ts))
    ensures ts == [] ==> whole == Parsed(children, [], ok)
    ensures ts != [] && First(ts[0].buf) == '}' ==> whole == Parsed(children, ts[1..], ok)
    ensures ts != [] && First(ts[0].buf) == ',' ==> MembersSoFar(whole, children, ok, ParseMembers(ts[1..]))
    ensures 0 < |ts| < 3 && First(ts[0].buf) != '}' && First(ts[0].buf) != ',' ==> whole.Crash?
  {
    MembersJoinEnd(children, "", Obj(NoMember), NoMember);
  }

  lemma MembersBegin(whole: Parsed<Members>)
    ensures MembersSoFar(whole, NoMember, true, whole)
  {
  }

  class Parser {
    const tokens: seq<Token>
    var ok: bool

    constructor (ts: seq<Token>)
      ensures tokens == ts && ok
    {
      tokens, ok := ts, true;
    }

    /** parse_object from token `from` on. */
    method ParseObject(from: nat) returns (crash: bool, children: Members, ptr: nat)
      requires from <= |tokens|
      modifies this
      ensures var p := ParseMembers(tokens[from..]);
        if p.Crash? then crash
        else && !crash && children == p.value && ok == (old(ok) && p.ok)
             && from <= ptr <= |tokens| && tokens[ptr..] == p.rest
      decreases |tokens| - from, 1
    {
      hide ParseMembers, ParseValue, MembersSoFar, MembersJoin;
      ghost var whole := ParseMembers(tokens[from..]);
      crash, children, ptr := false, NoMember, from;
      ghost var good := true;
      MembersBegin(whole);
      while ptr < |tokens|
        invariant from <= ptr <= |tokens| && ok == (old(ok) && good)
        invariant MembersSoFar(whole, children, good, ParseMembers(tokens[ptr..]))
      {
        var tok := tokens[ptr];
        ghost var ts, was := tokens[ptr..], good;
        assert ts[1..] == tokens[ptr + 1..];
        MembersOver(whole, children, good, ts);
        if First(tok.buf) == '}' {
          ptr := ptr + 1;
          return;
        }
        if First(tok.buf) == ',' {
          ptr := ptr + 1;
          continue;
        }
        if tok.kind != String { ok, good := false, false; }
        if ptr + 2 >= |tokens| {
          crash := true;
          return;
        }
        if tokens[ptr + 1].buf != ":" { ok, good := false, false; }
        MembersTurn(whole, children, was, ts);
        assert ts[2..] == tokens[ptr + 2..];
        var value;
        crash, value, ptr := ParseChild(ptr + 2);
        if crash { return; }
        good := good && ParseValue(ts[2..]).ok;
        children := MembersJoin(children, Member(tok.buf, value, NoMember));
      }
      MembersOver(whole, children, good, tokens[ptr..]);
    }

    /** The switch on a member's value (parser.c:94-120). */
    method ParseChild(from: nat) returns (crash: bool, child: Json, ptr: nat)
      requires from < |tokens|
      modifies this
      ensures var p := ParseValue(tokens[from..]);
        if p.Crash? then crash
        else !crash && child == p.value && from < ptr <= |tokens| && tokens[ptr..] == p.rest && ok == (old(ok) && p.ok)
      decreases |tokens| - from, 0
    {
      var tok := tokens[from];
      assert tokens[from..][1..] == tokens[from + 1..];
      child := Leaf(tok.kind, tok.buf);
      if First(tok.buf) == '[' {
        var xs;
        crash, xs, ptr := ParseArray(from + 1);
        child := Arr(xs);
      } else if First(tok.buf) == '{' {
        var ms;
        crash, ms, ptr := ParseObject(from + 1);
        child := Obj(ms);
      } else {
        crash, ptr := false, from + 1;
      }
    }

    /** parse_array from token `from` on. */
    method ParseArray(from: nat) returns (crash: bool, children: Items, ptr: nat)
      requires from <= |tokens|
      modifies this
      ensures var p := ParseItems(tokens[from..]);
        if p.Crash? then crash
        else && !crash && children == p.value && ok == (old(ok) && p.ok)
             && from <= ptr <= |tokens| && tokens[ptr..] == p.rest
      decreases |tokens| - from, 1
    {
      hide ParseItems, ParseMembers, ItemsSoFar, ItemsJoin;
      ghost var whole := ParseItems(tokens[from..]);
      crash, children, ptr := false, NoItem, from;
      ghost var good := true;
      ItemsBegin(whole);
      while ptr < |tokens|
        invariant from <= ptr <= |tokens| && ok == (old(ok) && good)
        invariant ItemsSoFar(whole, children, good, ParseItems(tokens[ptr..]))
      {
        var tok := tokens[ptr];
        ghost var ts := tokens[ptr..];
        assert ts[1..] == tokens[ptr + 1..];
        ItemsOver(whole, children, good, ts);
        ghost var childOk := true;
        if First(tok.buf) == ']' {
          ptr := ptr + 1;
          return;
        }
        if First(tok.buf) == ',' {
          ptr := ptr + 1;
          continue;
        }
        var child := Leaf(tok.kind, tok.buf);
        if First(tok.buf) == '{' {
          var ms;
          crash, ms, ptr := ParseObject(ptr + 1);
          if crash { return; }
          child := Obj(ms);
          childOk := ParseMembers(ts[1..]).ok;
        } else {
          ptr := ptr + 1;
        }
        ItemsTurn(whole, children, good, ts, child, childOk, tokens[ptr..]);
        good := good && childOk;
        children := ItemsJoin(children, Item(child, NoItem));
      }
      ItemsOver(whole, children, good, tokens[ptr..]);
    }

    /** parse, after the lexer (parser.c:16-39). */
    method Parse() returns (r: Outcome)
      requires ok
      modifies this
      ensures r == ParseRoot(tokens)
      ensures tokens == [] || (tokens[0].buf != "[" && tokens[0].buf != "{") ==> r == Rejected
    {
      if tokens == [] { return Rejected; }
      var crash, root, ptr := false, Obj(NoMember), 0;
      if tokens[0].buf == "[" {
        var xs;
        crash, xs, ptr := ParseArray(1);
        root := Arr(xs);
      } else if tokens[0].buf == "{" {
        var ms;
        crash, ms, ptr := ParseObject(1);
        root := Obj(ms);
      } else {
        ok := false;
      }
      r := if crash then Died else if ok then Accepted(root) else Rejected;
    }
  }
}
