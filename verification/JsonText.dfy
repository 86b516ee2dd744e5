/** From a tree to text (json/tostring.c), and back. */
module JsonText {
  import opened Json
  import opened JsonLex
  import opened JsonParser

  datatype Name = Unnamed | Named(name: string)

  const MAX_TAB: nat := 16

  function Tabs(n: nat): string {
    seq(n, _ => '\t')
  }

  function NameText(n: Name): string {
    if n.Unnamed? then "" else ['"'] + n.name + ['"'] + [':'] + [' ']
  }

  function LeafLine(name: Name, kind: Kind, value: string, level: nat, comma: char): string {
    Tabs(level) + NameText(name) + (if kind == String then ['"'] + value + ['"'] else value) + [comma]
  }

  function Comma(last: bool): char {
    if last then ' ' else ','
  }

  // ---- The lines of a tree ----

  function ValueLines(name: Name, v: Json, level: nat, comma: char): seq<string>
    decreases v, 1
  {
    match v
    case Leaf(k, s) => [LeafLine(name, k, s, level, comma)]
    case Obj(ms) => Block(name, "{", MembersLines(ms, level + 1), "}", level, comma)
    case Arr(xs) => Block(name, "[", ItemsLines(xs, level + 1), "]", level, comma)
  }

  function Block(name: Name, open: string, body: seq<string>, close: string, level: nat, comma: char): seq<string> {
    [Tabs(level) + NameText(name) + open] + body + [Tabs(level) + close + [comma]]
  }

  function MembersLines(ms: Members, level: nat): seq<string>
    decreases ms, 0
  {
    match ms
    case NoMember => []
    case Member(n, v, rest) => ValueLines(Named(n), v, level, Comma(rest.NoMember?)) + MembersLines(rest, level)
  }

  /** Objects inside an array are indented twice. */
  function ItemsLines(xs: Items, level: nat): seq<string>
    decreases xs, 0
  {
    match xs
    case NoItem => []
    case Item(v, rest) =>
      ValueLines(Unnamed, v, if v.Obj? then level + 1 else level, Comma(rest.NoItem?)) + ItemsLines(rest, level)
  }

  function Text(lines: seq<string>): string {
    if lines == [] then [] else lines[0] + ['\n'] + Text(lines[1..])
  }

  function ToText(t: Json): string {
    Text(ValueLines(Unnamed, t, 0, ' '))
  }

  // ---- What the printer accepts ----

  /** Anything else ends the program. */
  predicate MembersPrint(ms: Members) {
    match ms
    case NoMember => true
    case Member(_, v, rest) =>
      && MembersPrint(rest)
      && match v
         case Leaf(k, _) => k != Symbol
         case Obj(inner) => MembersPrint(inner)
         case Arr(xs) => ItemsPrint(xs)
  }

  predicate ItemsPrint(xs: Items) {
    match xs
    case NoItem => true
    case Item(v, rest) =>
      && ItemsPrint(rest)
      && match v
         case Leaf(k, _) => k != Symbol
         case Obj(inner) => MembersPrint(inner)
         case Arr(_) => false
  }

  predicate TreePrints(t: Json) {
    match t
    case Leaf(_, _) => false
    case Obj(ms) => MembersPrint(ms)
    case Arr(xs) => ItemsPrint(xs)
  }

  /** The program exits on a leaf that is none of string, number and boolean, and on an
      array directly in an array. */
  lemma NotPrinted(n: string, s: string, xs: Items)
    ensures !TreePrints(Obj(Member(n, Leaf(Symbol, s), NoMember)))
    ensures !TreePrints(Arr(Item(Leaf(Symbol, s), NoItem))) && !TreePrints(Arr(Item(Arr(xs), NoItem)))
  {
  }

  /** The indentation stays within the buffer of `tab` (utils.c:3-10). */
  predicate MembersFit(ms: Members, level: nat)
    decreases ms
  {
    match ms
    case NoMember => true
    case Member(_, v, rest) =>
      && level <= MAX_TAB && MembersFit(rest, level)
      && match v
         case Leaf(_, _) => true
         case Obj(inner) => MembersFit(inner, level + 1)
         case Arr(xs) => ItemsFit(xs, level + 1)
  }

  predicate ItemsFit(xs: Items, level: nat)
    decreases xs
  {
    match xs
    case NoItem => true
    case Item(v, rest) =>
      && level <= MAX_TAB && ItemsFit(rest, level)
      && match v
         case Leaf(_, _) => true
         case Obj(inner) => level + 1 <= MAX_TAB && MembersFit(inner, level + 2)
         case Arr(_) => true
  }

  predicate TreeFits(t: Json) {
    match t
    case Leaf(_, _) => true
    case Obj(ms) => MembersFit(ms, 1)
    case Arr(xs) => ItemsFit(xs, 1)
  }

  lemma {:induction false} ShapedMembersPrint(ms: Members)
    requires MembersShaped(ms) && MembersPlain(ms)
    ensures MembersPrint(ms)
  {
    if ms.Member? {
      ShapedMembersPrint(ms.rest);
      match ms.value
      case Leaf(_, _) =>
      case Obj(inner) => ShapedMembersPrint(inner);
      case Arr(xs) => ShapedItemsPrint(xs);
    }
  }

  lemma {:induction false} ShapedItemsPrint(xs: Items)
    requires ItemsShaped(xs) && ItemsPlain(xs)
    ensures ItemsPrint(xs)
  {
    if xs.Item? {
      ShapedItemsPrint(xs.rest);
      if xs.value.Obj? { ShapedMembersPrint(xs.value.members); }
    }
  }

  // ---- The lexer reads the lines as the tree's tokens ----

  function NameTokens(n: Name): seq<Token> {
    if n.Unnamed? then [] else [Token(String, n.name), Sym(':')]
  }

  lemma {:induction false} TabsRead(n: nat)
    ensures Reads(Tabs(n), [])
  {
    hide Reads;
    if n == 0 {
      ReadsNothing();
      assert Tabs(0) == "";
    } else {
      TabsRead(n - 1);
      ReadsSpace('\t');
      ReadsBoth(Tabs(n - 1), [], ['\t'], []);
      assert Tabs(n) == Tabs(n - 1) + ['\t'];
      var none: seq<Token> := [];
      assert none + none == none;
    }
  }

  lemma NameReads(n: Name)
    requires n.Named? ==> PlainText(n.name)
    ensures Reads(NameText(n), NameTokens(n))
  {
    hide Reads;
    if n.Unnamed? {
      ReadsNothing();
    } else {
      var quoted := ['"'] + n.name + ['"'];
      ReadsString(n.name);
      ReadsSymbol(':');
      ReadsSpace(' ');
      ReadsBoth(quoted, [Token(String, n.name)], [':'], [Sym(':')]);
      assert [Token(String, n.name)] + [Sym(':')] == NameTokens(n);
      ReadsBoth(quoted + [':'], NameTokens(n), [' '], []);
      assert NameTokens(n) + [] == NameTokens(n);
    }
  }

  /** A line is its indentation and name, some text, and a newline. */
  lemma LineReads(name: Name, level: nat, text: string, toks: seq<Token>)
    requires name.Named? ==> PlainText(name.name)
    requires Reads(text, toks)
    ensures Reads(Text([Tabs(level) + NameText(name) + text]), NameTokens(name) + toks)
  {
    hide Reads, NameText, NameTokens;
    var line := Tabs(level) + NameText(name) + text;
    TabsRead(level);
    NameReads(name);
    ReadsSpace('\n');
    ReadsBoth(Tabs(level), [], NameText(name), NameTokens(name));
    assert [] + NameTokens(name) == NameTokens(name);
    ReadsBoth(Tabs(level) + NameText(name), NameTokens(name), text, toks);
    ReadsBoth(line, NameTokens(name) + toks, ['\n'], []);
    assert Text([line][1..]) == [];
    assert Text([line]) == line + ['\n'];
    assert NameTokens(name) + toks + [] == NameTokens(name) + toks;
  }

  lemma {:induction false} TextOfBoth(a: seq<string>, b: seq<string>)
    ensures Text(a + b) == Text(a) + Text(b)
  {
    if a == [] { assert a + b == b; } else {
      TextOfBoth(a[1..], b);
      assert (a + b)[1..] == a[1..] + b;
    }
  }

  lemma LinesBoth(a: seq<string>, x: seq<Token>, b: seq<string>, y: seq<Token>)
    requires Reads(Text(a), x) && Reads(Text(b), y)
    ensures Reads(Text(a + b), x + y)
  {
    hide Reads;
    TextOfBoth(a, b);
    ReadsBoth(Text(a), x, Text(b), y);
  }

  lemma CommaReads(last: bool)
    ensures Reads([Comma(last)], CommaTokens(last))
  {
    if last { ReadsSpace(' '); } else { ReadsSymbol(','); }
  }

  lemma LeafReads(name: Name, k: Kind, s: string, level: nat, last: bool)
    requires (name.Named? ==> PlainText(name.name)) && LeafText(k, s) && k != Bool
    ensures Reads(Text([LeafLine(name, k, s, level, Comma(last))]),
                  NameTokens(name) + [Token(k, s)] + CommaTokens(last))
  {
    hide Reads, NameText, NameTokens, Text, Tabs;
    CommaReads(last);
    var text := (if k == String then ['"'] + s + ['"'] else s) + [Comma(last)];
    if k == String {
      ReadsString(s);
      ReadsBoth(['"'] + s + ['"'], [Token(k, s)], [Comma(last)], CommaTokens(last));
    } else {
      ReadsNumber(s, Comma(last), CommaTokens(last));
    }
    LineReads(name, level, text, [Token(k, s)] + CommaTokens(last));
    assert LeafLine(name, k, s, level, Comma(last)) == Tabs(level) + NameText(name) + text;
    assert NameTokens(name) + [Token(k, s)] + CommaTokens(last)
        == NameTokens(name) + ([Token(k, s)] + CommaTokens(last));
  }

  lemma BlockReads(name: Name, open: char, body: seq<string>, toks: seq<Token>, close: char, level: nat, last: bool)
    requires (name.Named? ==> PlainText(name.name)) && IsSymbol(open) && IsSymbol(close) && Reads(Text(body), toks)
    ensures Reads(Text(Block(name, [open], body, [close], level, Comma(last))),
                  NameTokens(name) + ([Sym(open)] + toks + [Sym(close)]) + CommaTokens(last))
  {
    hide Reads, NameText, NameTokens, Text, Tabs, CommaTokens, Comma, IsSymbol;
    ReadsSymbol(open);
    LineReads(name, level, [open], [Sym(open)]);
    var head := [Tabs(level) + NameText(name) + [open]];
    LinesBoth(head, NameTokens(name) + [Sym(open)], body, toks);
    CommaReads(last);
    ReadsSymbol(close);
    ReadsBoth([close], [Sym(close)], [Comma(last)], CommaTokens(last));
    LineReads(Unnamed, level, [close] + [Comma(last)], [Sym(close)] + CommaTokens(last));
    var foot := [Tabs(level) + NameText(Unnamed) + ([close] + [Comma(last)])];
    var end := NameTokens(Unnamed) + ([Sym(close)] + CommaTokens(last));
    LinesBoth(head + body, NameTokens(name) + [Sym(open)] + toks, foot, end);
    Nameless();
    assert foot[0] == Tabs(level) + [close] + [Comma(last)];
    assert NameTokens(name) + ([Sym(open)] + toks + [Sym(close)]) + CommaTokens(last)
        == NameTokens(name) + [Sym(open)] + toks + end;
  }

  lemma Nameless()
    ensures NameText(Unnamed) == "" && NameTokens(Unnamed) == []
  {
  }

  lemma ReadsNoLines()
    ensures Reads(Text([]), [])
  {
    ReadsNothing();
  }

  lemma {:induction false} ValueReads(name: Name, v: Json, level: nat, last: bool)
    requires (name.Named? ==> PlainText(name.name)) && ValuePlain(v) && ValueWords(v) == []
    ensures Reads(Text(ValueLines(name, v, level, Comma(last))), NameTokens(name) + ValueTokens(v) + CommaTokens(last))
    decreases v
  {
    hide Reads, Text, CommaTokens, NameTokens, Comma, MembersTokens, MembersLines;
    hide ItemsTokens, ItemsLines, LeafLine, Block;
    match v
    case Leaf(k, s) =>
      LeafReads(name, k, s, level, last);
    case Obj(ms) =>
      MembersRead(ms, level + 1);
      BlockReads(name, '{', MembersLines(ms, level + 1), MembersTokens(ms), '}', level, last);
    case Arr(xs) =>
      ItemsRead(xs, level + 1);
      BlockReads(name, '[', ItemsLines(xs, level + 1), ItemsTokens(xs), ']', level, last);
  }

  lemma {:induction false} MembersRead(ms: Members, level: nat)
    requires MembersPlain(ms) && MembersWords(ms) == []
    ensures Reads(Text(MembersLines(ms, level)), MembersTokens(ms))
    decreases ms
  {
    hide Reads, Text, CommaTokens, ValuePlain, PlainText, ValueWords;
    match ms
    case NoMember => ReadsNoLines();
    case Member(n, v, rest) =>
      var last := rest.NoMember?;
      ValueReads(Named(n), v, level, last);
      MembersRead(rest, level);
      LinesBoth(ValueLines(Named(n), v, level, Comma(last)), NameTokens(Named(n)) + ValueTokens(v) + CommaTokens(last),
                MembersLines(rest, level), MembersTokens(rest));
  }

  lemma {:induction false} ItemsRead(xs: Items, level: nat)
    requires ItemsPlain(xs) && ItemsWords(xs) == []
    ensures Reads(Text(ItemsLines(xs, level)), ItemsTokens(xs))
    decreases xs
  {
    hide Reads, Text, CommaTokens, ValuePlain, ValueWords;
    match xs
    case NoItem => ReadsNoLines();
    case Item(v, rest) =>
      var last, deep := rest.NoItem?, if v.Obj? then level + 1 else level;
      ValueReads(Unnamed, v, deep, last);
      ItemsRead(rest, level);
      assert NameTokens(Unnamed) + ValueTokens(v) == ValueTokens(v);
      LinesBoth(ValueLines(Unnamed, v, deep, Comma(last)), ValueTokens(v) + CommaTokens(last),
                ItemsLines(rest, level), ItemsTokens(rest));
  }

  // ---- The lexer misreads the first word of a tree ----

  lemma LinesMisreadAfter(a: seq<string>, x: seq<Token>, b: seq<string>, word: string)
    requires Reads(Text(a), x) && TokensWords(x) == [] && Misreads(Text(b), word)
    ensures Misreads(Text(a + b), word)
  {
    hide Reads, Misreads, Text;
    TextOfBoth(a, b);
    MisreadAfter(Text(a), x, Text(b), word);
  }

  lemma LinesMisreadBefore(a: seq<string>, word: string, b: seq<string>)
    requires Misreads(Text(a), word)
    ensures Misreads(Text(a + b), word)
  {
    hide Misreads, Text;
    TextOfBoth(a, b);
    MisreadBefore(Text(a), word, Text(b));
  }

  lemma LeafMisread(name: Name, word: string, level: nat, comma: char)
    requires (name.Named? ==> PlainText(name.name)) && (word == "true" || word == "false")
    ensures Misreads(Text([LeafLine(name, Bool, word, level, comma)]), word)
  {
    hide Reads, Misreads, NameText, NameTokens, Tabs;
    var front := Tabs(level) + NameText(name);
    TabsRead(level);
    NameReads(name);
    NameWords(name);
    ReadsBoth(Tabs(level), [], NameText(name), NameTokens(name));
    assert [] + NameTokens(name) == NameTokens(name);
    WordMisread(word);
    MisreadAfter(front, NameTokens(name), word, word);
    MisreadBefore(front + word, word, [comma] + ['\n']);
    var line := LeafLine(name, Bool, word, level, comma);
    assert Text([line][1..]) == [];
    assert Text([line]) == front + word + ([comma] + ['\n']);
  }

  lemma NameWords(name: Name)
    ensures TokensWords(NameTokens(name)) == []
  {
    if name.Named? { Wordless(name.name, true); }
  }

  lemma BlockMisread(name: Name, open: char, body: seq<string>, word: string, close: string, level: nat, comma: char)
    requires (name.Named? ==> PlainText(name.name)) && IsSymbol(open) && Misreads(Text(body), word)
    ensures Misreads(Text(Block(name, [open], body, close, level, comma)), word)
  {
    hide Reads, Misreads, NameText, NameTokens, Text, Tabs, IsSymbol;
    ReadsSymbol(open);
    LineReads(name, level, [open], [Sym(open)]);
    var head := [Tabs(level) + NameText(name) + [open]];
    NameWords(name);
    TokensWordsConcat(NameTokens(name), [Sym(open)]);
    assert [Sym(open)][1..] == [];
    LinesMisreadAfter(head, NameTokens(name) + [Sym(open)], body, word);
    LinesMisreadBefore(head + body, word, [Tabs(level) + close + [comma]]);
  }

  lemma {:induction false} ValueMisread(name: Name, v: Json, level: nat, comma: char)
    requires (name.Named? ==> PlainText(name.name)) && ValuePlain(v) && ValueWords(v) != []
    ensures Misreads(Text(ValueLines(name, v, level, comma)), ValueWords(v)[0])
    decreases v
  {
    hide Misreads, Text, MembersLines, ItemsLines, LeafLine, Block, MembersWords, ItemsWords;
    match v
    case Leaf(_, s) =>
      LeafMisread(name, s, level, comma);
    case Obj(ms) =>
      MembersMisread(ms, level + 1);
      BlockMisread(name, '{', MembersLines(ms, level + 1), MembersWords(ms)[0], "}", level, comma);
    case Arr(xs) =>
      ItemsMisread(xs, level + 1);
      BlockMisread(name, '[', ItemsLines(xs, level + 1), ItemsWords(xs)[0], "]", level, comma);
  }

  lemma {:induction false} MembersMisread(ms: Members, level: nat)
    requires MembersPlain(ms) && MembersWords(ms) != []
    ensures Misreads(Text(MembersLines(ms, level)), MembersWords(ms)[0])
    decreases ms
  {
    hide Reads, Misreads, Text, CommaTokens, NameTokens, ValueTokens, ValuePlain, PlainText, ValueWords, ValueLines;
    var name, v, last := Named(ms.name), ms.value, ms.rest.NoMember?;
    var lines := ValueLines(name, v, level, Comma(last));
    if ValueWords(v) != [] {
      ValueMisread(name, v, level, Comma(last));
      LinesMisreadBefore(lines, ValueWords(v)[0], MembersLines(ms.rest, level));
    } else {
      ValueReads(name, v, level, last);
      WordlessValue(name, v, last);
      MembersMisread(ms.rest, level);
      LinesMisreadAfter(lines, NameTokens(name) + ValueTokens(v) + CommaTokens(last),
                        MembersLines(ms.rest, level), MembersWords(ms)[0]);
    }
  }

  lemma WordlessValue(name: Name, v: Json, last: bool)
    requires ValueWords(v) == []
    ensures TokensWords(NameTokens(name) + ValueTokens(v) + CommaTokens(last)) == []
  {
    TokensWordsConcat(NameTokens(name) + ValueTokens(v), CommaTokens(last));
    TokensWordsConcat(NameTokens(name), ValueTokens(v));
    ValueTokensWords(v);
    NameWords(name);
    Wordless("", last);
  }

  lemma {:induction false} ItemsMisread(xs: Items, level: nat)
    requires ItemsPlain(xs) && ItemsWords(xs) != []
    ensures Misreads(Text(ItemsLines(xs, level)), ItemsWords(xs)[0])
    decreases xs
  {
    hide Reads, Misreads, Text, CommaTokens, NameTokens, ValueTokens, ValuePlain, ValueWords, ValueLines;
    var v, last := xs.value, xs.rest.NoItem?;
    var deep := if v.Obj? then level + 1 else level;
    var lines := ValueLines(Unnamed, v, deep, Comma(last));
    if ValueWords(v) != [] {
      ValueMisread(Unnamed, v, deep, Comma(last));
      LinesMisreadBefore(lines, ValueWords(v)[0], ItemsLines(xs.rest, level));
    } else {
      ValueReads(Unnamed, v, deep, last);
      WordlessValue(Unnamed, v, last);
      ItemsMisread(xs.rest, level);
      LinesMisreadAfter(lines, NameTokens(Unnamed) + ValueTokens(v) + CommaTokens(last),
                        ItemsLines(xs.rest, level), ItemsWords(xs)[0]);
    }
  }

  // ---- There and back ----

  /** The text starts with a bracket, so the first token is not lost. */
  lemma StartsWithSymbol(t: Json)
    requires !t.Leaf?
    ensures ToText(t) != [] && IsSymbol(ToText(t)[0])
  {
    hide MembersLines, ItemsLines;
    var lines := ValueLines(Unnamed, t, 0, ' ');
    assert Tabs(0) == "";
    assert lines[0] == if t.Obj? then "{" else "[";
  }

  lemma FirstTokenKept(s: string)
    requires s != [] && IsSymbol(s[0])
    ensures Lex(s, false) == Lex(s, true)
  {
  }

  /** The lexer gives back the tree's tokens exactly when the tree has no word in it;
      otherwise the first word it gives is the wrong one. */
  lemma TextLexes(t: Json)
    requires TreePlain(t)
    ensures Lex(ToText(t), false) == ValueTokens(t) <==> ValueWords(t) == []
    ensures ValueWords(t) != [] ==>
      var ws := TokensWords(Lex(ToText(t), false));
      ws != [] && ws[0] != ValueWords(t)[0]
  {
    hide ToText, ValueTokens, IsSymbol, Reads, Misreads, ValueWords;
    StartsWithSymbol(t);
    FirstTokenKept(ToText(t));
    if ValueWords(t) == [] {
      ValueReads(Unnamed, t, 0, true);
      RootReads(t);
    } else {
      ValueMisread(Unnamed, t, 0, ' ');
      RootMisread(t);
      ValueTokensWords(t);
    }
  }

  lemma RootReads(t: Json)
    requires Reads(Text(ValueLines(Unnamed, t, 0, Comma(true))),
                   NameTokens(Unnamed) + ValueTokens(t) + CommaTokens(true))
    ensures Lex(ToText(t), true) == ValueTokens(t)
  {
    hide ValueLines, ValueTokens, Text;
    assert ToText(t) + "" == ToText(t);
    assert Lex("", true) == [];
  }

  lemma RootMisread(t: Json)
    requires ValueWords(t) != [] && Misreads(Text(ValueLines(Unnamed, t, 0, ' ')), ValueWords(t)[0])
    ensures TokensWords(Lex(ToText(t), true)) != [] && TokensWords(Lex(ToText(t), true))[0] != ValueWords(t)[0]
  {
    hide ValueLines, ValueWords, Text, Lex, TokensWords;
    assert ToText(t) + "" == ToText(t);
  }

  /** Printing a tree and parsing the text gives the tree, exactly when no name or string
      starts with a character that the parser takes for punctuation at its place, and the
      tree holds neither true nor false. */
  lemma RoundTrip(t: Json)
    requires TreePlain(t)
    ensures ParseRoot(Lex(ToText(t), false)) == Accepted(t) <==> TreeShaped(t) && ValueWords(t) == []
  {
    hide ToText, Lex, ParseRoot, ValueTokens, TokensWords, ValueWords;
    var ts := Lex(ToText(t), false);
    TextLexes(t);
    LexWords(ToText(t), false);
    RootKeepsWords(ts);
    RootComes(ts);
    if TreeShaped(t) && ValueWords(t) == [] {
      TokensParse(t, []);
      assert ValueTokens(t) + [] == ValueTokens(t);
    }
  }

  lemma RoundTripPrints(t: Json)
    requires TreePlain(t) && TreeShaped(t)
    ensures TreePrints(t)
  {
    if t.Obj? { ShapedMembersPrint(t.members); } else { ShapedItemsPrint(t.items); }
  }

  // ---- Trees that do not come back ----

  function OneMember(word: string): Json {
    Obj(Member("a", Leaf(Bool, word), NoMember))
  }

  /** The lexer up to the word. */
  lemma OneMemberLexes(word: string)
    ensures Lex(ToText(OneMember(word)), false)
         == [Sym('{'), Token(String, "a"), Sym(':')] + Lex(word + " \n} \n", true)
  {
    hide Lex, Reads, NameText, NameTokens;
    var t := OneMember(word);
    var head, tab, name := ['{'] + ['\n'], Tabs(1), NameText(Named("a"));
    ReadsSymbol('{');
    ReadsSpace('\n');
    ReadsBoth(['{'], [Sym('{')], ['\n'], []);
    TabsRead(1);
    ReadsBoth(head, [Sym('{')] + [], tab, []);
    NameReads(Named("a"));
    ReadsBoth(head + tab, [Sym('{')] + [] + [], name, NameTokens(Named("a")));
    OneMemberText(word);
    StartsWithSymbol(t);
    FirstTokenKept(ToText(t));
    ReadsMeans(head + tab + name, [Sym('{')] + [] + [] + NameTokens(Named("a")), word + " \n} \n");
    NamedTokens();
  }

  lemma NamedTokens()
    ensures [Sym('{')] + [] + [] + NameTokens(Named("a")) == [Sym('{'), Token(String, "a"), Sym(':')]
  {
  }

  lemma ReadsMeans(piece: string, toks: seq<Token>, rest: string)
    requires Reads(piece, toks)
    ensures Lex(piece + rest, true) == toks + Lex(rest, true)
  {
  }

  lemma OneMemberText(word: string)
    ensures ToText(OneMember(word)) == ['{'] + ['\n'] + Tabs(1) + NameText(Named("a")) + (word + " \n} \n")
  {
    hide NameText, Text, ValueLines, Tabs;
    var line := Tabs(1) + NameText(Named("a")) + word + [' '];
    OneMemberLines(word);
    ThreeLines("{", line, "} ");
  }

  lemma ThreeLines(a: string, b: string, c: string)
    ensures Text([a] + [b] + [c]) == a + ['\n'] + (b + ['\n'] + (c + ['\n']))
  {
    TextOfBoth([a] + [b], [c]);
    TextOfBoth([a], [b]);
    assert [a][1..] == [] && [b][1..] == [] && [c][1..] == [];
    assert Text([a]) == a + ['\n'] && Text([b]) == b + ['\n'] && Text([c]) == c + ['\n'];
  }

  lemma OneMemberLines(word: string)
    ensures ValueLines(Unnamed, OneMember(word), 0, ' ')
         == ["{"] + [Tabs(1) + NameText(Named("a")) + word + [' ']] + ["} "]
  {
    hide NameText;
    var line := Tabs(1) + NameText(Named("a")) + word + [' '];
    Nameless();
    assert ValueLines(Named("a"), Leaf(Bool, word), 1, Comma(true)) == [line];
    assert MembersLines(Member("a", Leaf(Bool, word), NoMember), 1) == [line];
    assert Tabs(0) + NameText(Unnamed) + "{" == "{" && Tabs(0) + "}" + [' '] == "} ";
  }

  lemma ReadsBrace()
    ensures Lex("\n} \n", true) == [Sym('}')]
  {
    ReadsSpace('\n');
    ReadsSpace(' ');
    ReadsSymbol('}');
    assert "\n} \n" == ['\n'] + (['}'] + ([' '] + (['\n'] + "")));
    assert Lex("", true) == [];
  }

  /** {"a": true} is printed with a space behind the word, which the lexer reads as part of
      it: the tree comes back with false. */
  lemma TrueComesBackFalse()
    ensures ParseRoot(Lex(ToText(OneMember("true")), false)) == Accepted(OneMember("false"))
  {
    hide ToText;
    OneMemberLexes("true");
    var s := "true" + " \n} \n";
    assert s[..4] == "true" && Drop(s, 5) == "\n} \n";
    LexOther(s, "false", "\n} \n");
    ReadsBrace();
    MemberParses("false", [Sym('}')]);
  }

  lemma MemberParses(word: string, rest: seq<Token>)
    requires word == "true" || word == "false"
    ensures var ts := [Sym('{'), Token(String, "a"), Sym(':')] + ([Token(Bool, word)] + rest);
      ParseRoot(ts) == match ParseMembers(rest)
        case Crash => Died
        case Parsed(ms, _, ok) => if ok then Accepted(Obj(Member("a", Leaf(Bool, word), ms))) else Rejected
  {
    var ts := [Sym('{'), Token(String, "a"), Sym(':')] + ([Token(Bool, word)] + rest);
    assert ts[1..] == [Token(String, "a"), Sym(':')] + ([Token(Bool, word)] + rest);
    assert ts[1..][2..] == [Token(Bool, word)] + rest;
    var v := [Token(Bool, word)] + rest;
    assert v[1..] == rest && v[0] == Token(Bool, word);
    assert First(word) != '[' && First(word) != '{';
    assert ParseValue(v) == Parsed(Leaf(Bool, word), rest, true);
    assert First("a") == 'a' && First(":") == ':';
    assert ts[0] == Sym('{') && ts[1..][0] == Token(String, "a") && ts[1..][1] == Sym(':');
  }

  lemma LexOther(s: string, word: string, rest: string)
    requires s != [] && ('a' <= s[0] <= 'z') && word == WordValue(s) && rest == Drop(s, |word|)
    ensures Lex(s, true) == [Token(Bool, word)] + Lex(rest, true)
  {
  }

  /** {"a": false} loses its closing brace: the lexer reads true for `fals` and again for
      the `e` and the three characters behind it. The parser then takes the second word
      for a name, finds nothing behind it and follows a null pointer. */
  lemma FalseKillsParser()
    ensures ParseRoot(Lex(ToText(OneMember("false")), false)) == Died
  {
    hide ToText;
    hide Lex, ParseRoot;
    OneMemberLexes("false");
    var s, u := "false" + " \n} \n", "e \n} \n";
    assert s[..4] == "fals" && Drop(s, 4) == u;
    assert u[..4] == "e \n}" && Drop(u, 4) == " \n";
    LexOther(s, "true", u);
    LexOther(u, "true", " \n");
    ReadsBlank();
    assert [Token(Bool, "true")] + [] == [Token(Bool, "true")];
    MemberParses("true", [Token(Bool, "true")]);
  }

  lemma ReadsBlank()
    ensures Lex(" \n", true) == []
  {
    ReadsSpace(' ');
    ReadsSpace('\n');
    assert " \n" == [' '] + (['\n'] + "") && Lex("", true) == [];
  }

  /** A string that is a closing bracket ends its array. */
  lemma BracketEndsArray()
    ensures ParseRoot(Lex(ToText(Arr(Item(Leaf(String, "]"), NoItem))), false)) == Accepted(Arr(NoItem))
  {
    hide ToText, Lex;
    var t := Arr(Item(Leaf(String, "]"), NoItem));
    assert ValueWords(t) == [] && ItemsPlain(t.items);
    TextLexes(t);
    var ts := ValueTokens(t);
    assert ts[0] == Sym('[') && ts[1] == Token(String, "]");
    assert ts[1..][0] == ts[1];
  }

  function B(): Members { Member("b", Leaf(String, "x"), NoMember) }

  function OneAndB(): Items { Item(Leaf(Number, "1"), Item(Obj(B()), NoItem)) }

  /** The layout: one tab a level, and objects in an array one level deeper. */
  lemma Layout()
    ensures ValueLines(Unnamed, Obj(Member("a", Arr(OneAndB()), NoMember)), 0, ' ') ==
        ["{", "\t\"a\": [", "\t\t1,", "\t\t\t{", "\t\t\t\t\"b\": \"x\" ", "\t\t\t} ", "\t] ", "} "]
  {
    hide ItemsLines, OneAndB, NameText, Tabs;
    Brackets();
    LayoutOfArray();
    var a := Member("a", Arr(OneAndB()), NoMember);
    assert ValueLines(Named("a"), Arr(OneAndB()), 1, ' ') == ["\t\"a\": ["] + ItemsLines(OneAndB(), 2) + ["\t] "];
    assert MembersLines(a, 1) == ValueLines(Named("a"), Arr(OneAndB()), 1, ' ');
  }

  lemma Brackets()
    ensures Tabs(0) + NameText(Unnamed) + "{" == "{" && Tabs(0) + "}" + [' '] == "} "
    ensures Tabs(1) + NameText(Named("a")) + "[" == "\t\"a\": [" && Tabs(1) + "]" + [' '] == "\t] "
  {
    assert Tabs(0) == "" && Tabs(1) == "\t";
    assert NameText(Unnamed) == "" && NameText(Named("a")) == "\"a\": ";
  }

  lemma LayoutOfArray()
    ensures ItemsLines(OneAndB(), 2) == ["\t\t1,", "\t\t\t{", "\t\t\t\t\"b\": \"x\" ", "\t\t\t} "]
  {
    hide MembersLines;
    LayoutOfObject();
    assert Tabs(2) == "\t\t" && Tabs(3) == "\t\t\t" && NameText(Unnamed) == "";
    assert Tabs(2) + NameText(Unnamed) + "1" + [','] == "\t\t1,";
    assert Tabs(3) + NameText(Unnamed) + "{" == "\t\t\t{" && Tabs(3) + "}" + [' '] == "\t\t\t} ";
    assert ValueLines(Unnamed, Obj(B()), 3, ' ') == ["\t\t\t{"] + MembersLines(B(), 4) + ["\t\t\t} "];
    assert ItemsLines(Item(Obj(B()), NoItem), 2) == ValueLines(Unnamed, Obj(B()), 3, ' ');
    assert ValueLines(Unnamed, Leaf(Number, "1"), 2, ',') == ["\t\t1,"];
  }

  lemma LayoutOfObject()
    ensures MembersLines(B(), 4) == ["\t\t\t\t\"b\": \"x\" "]
  {
    assert Tabs(4) == "\t\t\t\t" && NameText(Named("b")) == "\"b\": ";
    LinesOfOne(B(), 4, "\t\t\t\t\"b\": \"x\" ");
  }

  lemma LinesOfOne(ms: Members, level: nat, line: string)
    requires ms.Member? && ms.rest.NoMember? && ms.value.Leaf?
    requires line == LeafLine(Named(ms.name), ms.value.kind, ms.value.value, level, ' ')
    ensures MembersLines(ms, level) == [line]
  {
    assert ValueLines(Named(ms.name), ms.value, level, ' ') == [line];
  }

  // ---- The program ----

  ghost function MembersSize(ms: Members): nat {
    if ms.NoMember? then 0 else 1 + ValueSize(ms.value) + MembersSize(ms.rest)
  }

  ghost function ItemsSize(xs: Items): nat {
    if xs.NoItem? then 0 else 1 + ValueSize(xs.value) + ItemsSize(xs.rest)
  }

  ghost function ValueSize(v: Json): nat {
    match v
    case Leaf(_, _) => 0
    case Obj(ms) => 1 + MembersSize(ms)
    case Arr(xs) => 1 + ItemsSize(xs)
  }

  method Tab(n: nat) returns (s: string)
    requires n <= MAX_TAB
    ensures s == Tabs(n)
  {
    var tab := new char[17];
    for i := 0 to n
      invariant tab[..i] == Tabs(i)
    {
      tab[i] := '\t';
      assert tab[..i + 1] == tab[..i] + ['\t'];
    }
    tab[n] := '\0';
    s := tab[..n];
  }

  lemma ObjectEnds(was: seq<string>, name: Name, ms: Members, level: nat, comma: char)
    ensures was + [Tabs(level) + NameText(name) + "{"] + MembersLines(ms, level + 1) + [Tabs(level) + "}" + [comma]]
         == was + ValueLines(name, Obj(ms), level, comma)
  {
    hide NameText, Tabs, MembersLines;
  }

  lemma ArrayEnds(was: seq<string>, name: Name, xs: Items, level: nat, comma: char)
    ensures was + [Tabs(level) + NameText(name) + "["] + ItemsLines(xs, level + 1) + [Tabs(level) + "]" + [comma]]
         == was + ValueLines(name, Arr(xs), level, comma)
  {
    hide NameText, Tabs, ItemsLines;
  }

  /** The lines, each with its newline (tostring.c:97-108). */
  method Concatenate(lines: seq<string>) returns (json: string)
    ensures json == Text(lines)
  {
    json := [];
    for i := 0 to |lines|
      invariant json + Text(lines[i..]) == Text(lines)
    {
      json := json + lines[i] + "\n";
      assert lines[i..][1..] == lines[i + 1..];
    }
  }

  /** The printer's global level and its list of lines. Each call answers false where the
      program would exit. */
  class Printer {
    var level: nat
    var lines: seq<string>

    constructor ()
      ensures level == 0 && lines == []
    {
      level, lines := 0, [];
    }

    method AppendLeaf(name: Name, kind: Kind, value: string, comma: char)
      requires level <= MAX_TAB
      modifies this`lines
      ensures lines == old(lines) + [LeafLine(name, kind, value, level, comma)]
    {
      var tab := Tab(level);
      lines := lines + [tab + NameText(name) + (if kind == String then ['"'] + value + ['"'] else value) + [comma]];
    }

    method AppendObject(name: Name, members: Members, comma: char) returns (ok: bool)
      requires level <= MAX_TAB && MembersFit(members, level + 1)
      modifies this
      ensures ok == MembersPrint(members)
      ensures ok ==> level == old(level) && lines == old(lines) + ValueLines(name, Obj(members), level, comma)
      decreases MembersSize(members), 1
    {
      hide ValueLines, NameText, Tabs;
      var tab := Tab(level);
      lines := lines + [tab + NameText(name) + "{"];
      ghost var head := lines;
      level := level + 1;
      var ptr := members;
      while ptr.Member?
        invariant level == old(level) + 1 && MembersFit(ptr, level) && MembersSize(ptr) <= MembersSize(members)
        invariant MembersPrint(members) <==> MembersPrint(ptr)
        invariant lines + MembersLines(ptr, level) == head + MembersLines(members, level)
        decreases ptr
      {
        ok := AppendMember(ptr);
        if !ok { return; }
        ptr := ptr.rest;
      }
      assert lines == head + MembersLines(members, level);
      level := level - 1;
      tab := Tab(level);
      lines := lines + [tab + "}" + [comma]];
      ObjectEnds(old(lines), name, members, level, comma);
      ok := true;
    }

    /** The switch on a member's type (tostring.c:22-43). */
    method AppendMember(ptr: Members) returns (ok: bool)
      requires ptr.Member? && MembersFit(ptr, level)
      modifies this
      ensures ok ==> (MembersPrint(ptr) <==> MembersPrint(ptr.rest))
      ensures !ok ==> !MembersPrint(ptr)
      ensures ok ==> level == old(level)
      ensures ok ==> lines == old(lines) + ValueLines(Named(ptr.name), ptr.value, level, Comma(ptr.rest.NoMember?))
      decreases MembersSize(ptr), 0
    {
      hide LeafLine, Block, MembersLines, ItemsLines, Tabs;
      assert MembersSize(ptr) > ValueSize(ptr.value);
      var name, comma := Named(ptr.name), if ptr.rest.NoMember? then ' ' else ',';
      match ptr.value
      case Leaf(kind, value) =>
        if kind == Symbol { return false; }
        AppendLeaf(name, kind, value, comma);
        ok := true;
      case Arr(items) =>
        ok := AppendArray(name, items, comma);
      case Obj(inner) =>
        ok := AppendObject(name, inner, comma);
    }

    method AppendArray(name: Name, items: Items, comma: char) returns (ok: bool)
      requires level <= MAX_TAB && ItemsFit(items, level + 1)
      modifies this
      ensures ok == ItemsPrint(items)
      ensures ok ==> level == old(level) && lines == old(lines) + ValueLines(name, Arr(items), level, comma)
      decreases ItemsSize(items), 1
    {
      hide ValueLines, NameText, Tabs;
      var tab := Tab(level);
      lines := lines + [tab + NameText(name) + "["];
      ghost var head := lines;
      level := level + 1;
      var ptr := items;
      while ptr.Item?
        invariant level == old(level) + 1 && ItemsFit(ptr, level) && ItemsSize(ptr) <= ItemsSize(items)
        invariant ItemsPrint(items) <==> ItemsPrint(ptr)
        invariant lines + ItemsLines(ptr, level) == head + ItemsLines(items, level)
        decreases ptr
      {
        ok := AppendItem(ptr);
        if !ok { return; }
        ptr := ptr.rest;
      }
      assert lines == head + ItemsLines(items, level);
      level := level - 1;
      tab := Tab(level);
      lines := lines + [tab + "]" + [comma]];
      ArrayEnds(old(lines), name, items, level, comma);
      ok := true;
    }

    /** The switch on an element's type (tostring.c:58-77). */
    method AppendItem(ptr: Items) returns (ok: bool)
      requires ptr.Item? && ItemsFit(ptr, level)
      modifies this
      ensures ok ==> (ItemsPrint(ptr) <==> ItemsPrint(ptr.rest))
      ensures !ok ==> !ItemsPrint(ptr)
      ensures ok ==> level == old(level)
      ensures ok ==>
        lines == old(lines)
                 + ValueLines(Unnamed, ptr.value, if ptr.value.Obj? then level + 1 else level, Comma(ptr.rest.NoItem?))
      decreases ItemsSize(ptr), 0
    {
      hide LeafLine, Block, MembersLines, Tabs;
      assert ItemsSize(ptr) > ValueSize(ptr.value);
      var comma := if ptr.rest.NoItem? then ' ' else ',';
      match ptr.value
      case Obj(inner) =>
        level := level + 1;
        ok := AppendObject(Unnamed, inner, comma);
        if ok { level := level - 1; }
      case Leaf(kind, value) =>
        if kind == Symbol { return false; }
        AppendLeaf(Unnamed, kind, value, comma);
        ok := true;
      case Arr(_) =>
        ok := false;
    }

    /** tostring (tostring.c:84-110). */
    method ToString(root: Json) returns (ok: bool, json: string)
      requires !root.Leaf? && TreeFits(root)
      modifies this
      ensures ok == TreePrints(root)
      ensures ok ==> json == ToText(root)
    {
      hide ValueLines, Text, MembersFit, ItemsFit, MembersPrint, ItemsPrint;
      level, lines, json := 0, [], [];
      if root.Arr? {
        ok := AppendArray(Unnamed, root.items, ' ');
      } else {
        ok := AppendObject(Unnamed, root.members, ' ');
      }
      if ok {
        assert lines == ValueLines(Unnamed, root, 0, ' ');
        json := Concatenate(lines);
      }
    }
  }

  /** parse (parser.c:12-39), and what it does with printed text. */
  method ParseText(json: string) returns (r: Outcome)
    ensures r == ParseRoot(Lex(json, false))
    ensures forall t :: TreePlain(t) && json == ToText(t) ==>
      (r == Accepted(t) <==> TreeShaped(t) && ValueWords(t) == [])
  {
    hide ToText, ValueWords, TreeShaped, TreePlain;
    var tokens := LexAll(json);
    var parser := new Parser(tokens);
    r := parser.Parse();
    forall t | TreePlain(t) && json == ToText(t) ensures r == Accepted(t) <==> TreeShaped(t) && ValueWords(t) == [] {
      RoundTrip(t);
    }
  }

  /** The printer and the parser one after the other. */
  method PrintAndParse(t: Json) returns (printed: bool, r: Outcome)
    requires TreePlain(t) && TreeFits(t)
    ensures printed == TreePrints(t)
    ensures TreeShaped(t) ==> printed
    ensures printed ==> (r == Accepted(t) <==> TreeShaped(t) && ValueWords(t) == [])
  {
    hide ToText, ValueWords, ParseRoot, Lex;
    r := Rejected;
    var printer := new Printer();
    var text;
    printed, text := printer.ToString(t);
    if TreeShaped(t) { RoundTripPrints(t); }
    if printed { r := ParseText(text); }
  }
}
