/** JSON trees and tokens (json/json.h), and the token sequence a tree stands for. */
module Json {
  datatype Kind = Symbol | String | Number | Bool

  datatype Token = Token(kind: Kind, buf: string)

  /** A tree; children form linked lists, and only members of an object have names. */
  datatype Json = Leaf(kind: Kind, value: string) | Obj(members: Members) | Arr(items: Items)
  datatype Members = NoMember | Member(name: string, value: Json, rest: Members)
  datatype Items = NoItem | Item(value: Json, rest: Items)

  function Sym(c: char): Token {
    Token(Symbol, [c])
  }

  /** buf[0] of a C string. */
  function First(s: string): char {
    if s == [] then '\0' else s[0]
  }

  predicate Digit(c: char) {
    '0' <= c <= '9'
  }

  // ---- The tokens of a tree ----

  function ValueTokens(v: Json): seq<Token> {
    match v
    case Leaf(k, s) => [Token(k, s)]
    case Obj(ms) => [Sym('{')] + MembersTokens(ms) + [Sym('}')]
    case Arr(xs) => [Sym('[')] + ItemsTokens(xs) + [Sym(']')]
  }

  function CommaTokens(last: bool): seq<Token> {
    if last then [] else [Sym(',')]
  }

  function MembersTokens(ms: Members): seq<Token> {
    match ms
    case NoMember => []
    case Member(n, v, rest) =>
      [Token(String, n), Sym(':')] + ValueTokens(v) + CommaTokens(rest.NoMember?) + MembersTokens(rest)
  }

  function ItemsTokens(xs: Items): seq<Token> {
    match xs
    case NoItem => []
    case Item(v, rest) => ValueTokens(v) + CommaTokens(rest.NoItem?) + ItemsTokens(rest)
  }

  // ---- Trees that can be printed and read back ----

  /** A string as it stands between quotes: a backslash precedes every quote in it, and
      none hides the closing one. */
  ghost predicate PlainText(s: string) {
    && (forall i :: 0 <= i < |s| && s[i] == '"' ==> i > 0 && s[i - 1] == '\\')
    && (s == [] || s[|s| - 1] != '\\')
  }

  ghost predicate NumberText(s: string) {
    s != [] && Digit(s[0]) && forall i :: 0 <= i < |s| ==> Digit(s[i]) || s[i] == '.'
  }

  ghost predicate LeafText(k: Kind, s: string) {
    || (k == String && PlainText(s)) || (k == Number && NumberText(s))
    || (k == Bool && (s == "true" || s == "false"))
  }

  /** Every name and string can stand between quotes, and every other leaf is a number or
      one of the two words. */
  ghost predicate MembersPlain(ms: Members) {
    ms.Member? ==> PlainText(ms.name) && ValuePlain(ms.value) && MembersPlain(ms.rest)
  }

  ghost predicate ItemsPlain(xs: Items) {
    xs.Item? ==> ValuePlain(xs.value) && ItemsPlain(xs.rest)
  }

  ghost predicate ValuePlain(v: Json) {
    match v
    case Leaf(k, s) => LeafText(k, s)
    case Obj(ms) => MembersPlain(ms)
    case Arr(xs) => ItemsPlain(xs)
  }

  /** The parser looks at the first character of a token whatever its kind, so each place
      has characters that a string there must not start with. */
  ghost predicate MembersShaped(ms: Members) {
    match ms
    case NoMember => true
    case Member(n, v, rest) =>
      && First(n) != '}' && First(n) != ','
      && MembersShaped(rest)
      && match v
         case Leaf(_, s) => First(s) != '[' && First(s) != '{'
         case Obj(inner) => MembersShaped(inner)
         case Arr(xs) => ItemsShaped(xs)
  }

  /** An array holds no array directly. */
  ghost predicate ItemsShaped(xs: Items) {
    match xs
    case NoItem => true
    case Item(v, rest) =>
      && ItemsShaped(rest)
      && match v
         case Leaf(_, s) => First(s) != ']' && First(s) != ',' && First(s) != '{'
         case Obj(inner) => MembersShaped(inner)
         case Arr(_) => false
  }

  ghost predicate TreePlain(t: Json) {
    !t.Leaf? && ValuePlain(t)
  }

  ghost predicate TreeShaped(t: Json) {
    match t
    case Leaf(_, _) => false
    case Obj(ms) => MembersShaped(ms)
    case Arr(xs) => ItemsShaped(xs)
  }

  /** The words of a tree, in the order in which they are printed. */
  ghost function MembersWords(ms: Members): seq<string> {
    if ms.NoMember? then [] else ValueWords(ms.value) + MembersWords(ms.rest)
  }

  ghost function ItemsWords(xs: Items): seq<string> {
    if xs.NoItem? then [] else ValueWords(xs.value) + ItemsWords(xs.rest)
  }

  ghost function ValueWords(v: Json): seq<string> {
    match v
    case Leaf(k, s) => if k == Bool then [s] else []
    case Obj(ms) => MembersWords(ms)
    case Arr(xs) => ItemsWords(xs)
  }

  /** The words among some tokens. */
  ghost function TokensWords(ts: seq<Token>): seq<string> {
    if ts == [] then []
    else (if ts[0].kind == Bool then [ts[0].buf] else []) + TokensWords(ts[1..])
  }

  ghost predicate WordsPlain(ts: seq<Token>) {
    forall i :: 0 <= i < |ts| && ts[i].kind == Bool ==> ts[i].buf == "true" || ts[i].buf == "false"
  }

  lemma NoWords()
    ensures TokensWords([]) == []
  {
  }

  lemma WordsOfFirst(ts: seq<Token>, rest: seq<Token>)
    requires ts != [] && ts[1..] == rest
    ensures TokensWords(ts) == (if ts[0].kind == Bool then [ts[0].buf] else []) + TokensWords(rest)
  {
  }

  lemma {:induction false} TokensWordsConcat(a: seq<Token>, b: seq<Token>)
    ensures TokensWords(a + b) == TokensWords(a) + TokensWords(b)
  {
    hide TokensWords;
    if a == [] {
      assert a + b == b;
      NoWords();
    } else {
      TokensWordsConcat(a[1..], b);
      WordsOfFirst(a + b, a[1..] + b);
      WordsOfFirst(a, a[1..]);
    }
  }

  lemma {:induction false} ValueTokensWords(v: Json)
    ensures TokensWords(ValueTokens(v)) == ValueWords(v)
    decreases v
  {
    match v
    case Leaf(k, s) =>
      assert [Token(k, s)][1..] == [];
    case Obj(ms) =>
      MembersTokensWords(ms);
      Bracketed('{', MembersTokens(ms), '}');
    case Arr(xs) =>
      ItemsTokensWords(xs);
      Bracketed('[', ItemsTokens(xs), ']');
  }

  lemma Bracketed(open: char, body: seq<Token>, close: char)
    ensures TokensWords([Sym(open)] + body + [Sym(close)]) == TokensWords(body)
  {
    TokensWordsConcat([Sym(open)] + body, [Sym(close)]);
    TokensWordsConcat([Sym(open)], body);
    assert [Sym(open)][1..] == [] && [Sym(close)][1..] == [];
  }

  lemma {:induction false} MembersTokensWords(ms: Members)
    ensures TokensWords(MembersTokens(ms)) == MembersWords(ms)
    decreases ms
  {
    hide TokensWords, ValueTokens, ValueWords, CommaTokens;
    if ms.NoMember? {
      NoWords();
    } else {
      var head, comma := [Token(String, ms.name), Sym(':')], CommaTokens(ms.rest.NoMember?);
      ValueTokensWords(ms.value);
      MembersTokensWords(ms.rest);
      TokensWordsConcat(head + ValueTokens(ms.value) + comma, MembersTokens(ms.rest));
      TokensWordsConcat(head + ValueTokens(ms.value), comma);
      TokensWordsConcat(head, ValueTokens(ms.value));
      Wordless(ms.name, ms.rest.NoMember?);
    }
  }

  lemma Wordless(name: string, last: bool)
    ensures TokensWords([Token(String, name), Sym(':')]) == [] && TokensWords(CommaTokens(last)) == []
  {
    assert [Token(String, name), Sym(':')][1..] == [Sym(':')] && [Sym(':')][1..] == [] && [Sym(',')][1..] == [];
  }

  lemma {:induction false} ItemsTokensWords(xs: Items)
    ensures TokensWords(ItemsTokens(xs)) == ItemsWords(xs)
    decreases xs
  {
    hide TokensWords, ValueTokens, ValueWords, CommaTokens;
    if xs.NoItem? {
      NoWords();
    } else {
      var comma := CommaTokens(xs.rest.NoItem?);
      ValueTokensWords(xs.value);
      ItemsTokensWords(xs.rest);
      TokensWordsConcat(ValueTokens(xs.value) + comma, ItemsTokens(xs.rest));
      TokensWordsConcat(ValueTokens(xs.value), comma);
      Wordless("", xs.rest.NoItem?);
    }
  }
}
