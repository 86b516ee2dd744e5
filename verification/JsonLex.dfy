/** From text to tokens (json/lex.c). */
module JsonLex {
  import opened Json

  predicate IsSpace(c: char) {
    c == '\n' || c == '\r' || c == '\t' || c == ' '
  }

  predicate IsSymbol(c: char) {
    c == '[' || c == ']' || c == '{' || c == '}' || c == ',' || c == ':'
  }

  predicate InNumber(c: char) {
    Digit(c) || c == '.'
  }

  /** The string ends here: a quote that no backslash precedes. */
  predicate Closes(cur: string, c: char) {
    c == '"' && !(cur != [] && cur[|cur| - 1] == '\\')
  }

  function Drop(s: string, n: nat): (r: string)
    ensures |r| <= |s| && (n > 0 && s != [] ==> |r| < |s|)
  {
    if n <= |s| then s[n..] else []
  }

  predicate StartsWith(s: string, w: string) {
    |w| <= |s| && s[..|w|] == w
  }

  /** A word other than `true` is taken for true, and `true` for false (lex.c:57-72). */
  function WordValue(s: string): string {
    if StartsWith(s, "true") then "false" else "true"
  }

  /** addToken cannot start the list: it changes only its own copy of the pointer, so a
      string or number that would come first is lost (lex.c:99-111). */
  function Added(any: bool, tok: Token): seq<Token> {
    if any then [tok] else []
  }

  /** The tokens of the rest of the text between two tokens; `any`: there are tokens before. */
  function Lex(s: string, any: bool): seq<Token>
    decreases |s|, 0
  {
    if s == [] then []
    else if IsSpace(s[0]) then Lex(s[1..], any)
    else if IsSymbol(s[0]) then [Sym(s[0])] + Lex(s[1..], true)
    else if s[0] == '"' then LexString(s[1..], "", any)
    else if Digit(s[0]) then LexNumber(s[1..], [s[0]], any)
    else [Token(Bool, WordValue(s))] + Lex(Drop(s, |WordValue(s)|), true)
  }

  /** The same inside a string of which `cur` was read. */
  function LexString(s: string, cur: string, any: bool): seq<Token>
    decreases |s|, 1
  {
    if s == [] then []
    else if Closes(cur, s[0]) then Added(any, Token(String, cur)) + Lex(s[1..], any)
    else LexString(s[1..], cur + [s[0]], any)
  }

  /** The same inside a number; the character that ends it is read again. */
  function LexNumber(s: string, cur: string, any: bool): seq<Token>
    decreases |s|, 1
  {
    if s == [] then []
    else if InNumber(s[0]) then LexNumber(s[1..], cur + [s[0]], any)
    else Added(any, Token(Number, cur)) + Lex(s, any)
  }

  // ---- Pieces of text ----

  /** Wherever it stands behind another token, `piece` is read as `toks`. */
  ghost predicate Reads(piece: string, toks: seq<Token>) {
    forall rest: string :: Lex(piece + rest, true) == toks + Lex(rest, true)
  }

  lemma ReadsBoth(a: string, x: seq<Token>, b: string, y: seq<Token>)
    requires Reads(a, x) && Reads(b, y)
    ensures Reads(a + b, x + y)
  {
    hide Lex;
    forall rest: string ensures Lex(a + b + rest, true) == x + y + Lex(rest, true) {
      assert a + b + rest == a + (b + rest);
      assert Lex(a + (b + rest), true) == x + Lex(b + rest, true);
    }
  }

  lemma ReadsSpace(c: char)
    requires IsSpace(c)
    ensures Reads([c], [])
  {
    forall rest: string ensures Lex([c] + rest, true) == [] + Lex(rest, true) {
      assert ([c] + rest)[1..] == rest;
    }
  }

  /** The blanks are these four. */
  lemma BlanksSkipped(c: char)
    requires c == ' ' || c == '\t' || c == '\n' || c == '\r'
    ensures Reads([c], []) && forall rest: string, any :: Lex([c] + rest, any) == Lex(rest, any)
  {
    ReadsSpace(c);
    forall rest: string, any ensures Lex([c] + rest, any) == Lex(rest, any) {
      assert ([c] + rest)[1..] == rest;
    }
  }

  lemma ReadsNothing()
    ensures Reads("", [])
  {
    forall rest: string ensures Lex("" + rest, true) == [] + Lex(rest, true) {
      assert "" + rest == rest;
    }
  }

  lemma ReadsSymbol(c: char)
    requires IsSymbol(c)
    ensures Reads([c], [Sym(c)])
  {
    forall rest: string ensures Lex([c] + rest, true) == [Sym(c)] + Lex(rest, true) {
      assert ([c] + rest)[1..] == rest;
    }
  }

  lemma {:induction false} LexStringBody(s: string, cur: string, rest: string, any: bool)
    requires PlainText(cur + s)
    ensures LexString(s + ['"'] + rest, cur, any) == Added(any, Token(String, cur + s)) + Lex(rest, any)
    decreases |s|
  {
    hide Lex;
    var t := s + ['"'] + rest;
    if s == [] {
      assert t[1..] == rest && cur + s == cur;
    } else {
      assert (cur + s)[|cur|] == s[0];
      assert cur != [] ==> (cur + s)[|cur| - 1] == cur[|cur| - 1];
      assert cur + [s[0]] + s[1..] == cur + s;
      LexStringBody(s[1..], cur + [s[0]], rest, any);
      assert t[1..] == s[1..] + ['"'] + rest;
    }
  }

  lemma QuoteOpens(s: string)
    requires s != [] && s[0] == '"'
    ensures Lex(s, true) == LexString(s[1..], "", true)
  {
  }

  lemma ReadsString(s: string)
    requires PlainText(s)
    ensures Reads(['"'] + s + ['"'], [Token(String, s)])
  {
    hide Lex, LexString;
    forall rest: string ensures Lex(['"'] + s + ['"'] + rest, true) == [Token(String, s)] + Lex(rest, true) {
      assert "" + s == s;
      LexStringBody(s, "", rest, true);
      assert (['"'] + s + ['"'] + rest)[1..] == s + ['"'] + rest;
      QuoteOpens(['"'] + s + ['"'] + rest);
    }
  }

  lemma {:induction false} LexNumberBody(s: string, cur: string, rest: string, any: bool)
    requires forall i :: 0 <= i < |s| ==> InNumber(s[i])
    requires rest != [] && !InNumber(rest[0])
    ensures LexNumber(s + rest, cur, any) == Added(any, Token(Number, cur + s)) + Lex(rest, any)
    decreases |s|
  {
    hide Lex;
    if s == [] {
      assert s + rest == rest && cur + s == cur;
    } else {
      LexNumberBody(s[1..], cur + [s[0]], rest, any);
      assert (s + rest)[1..] == s[1..] + rest;
      assert cur + [s[0]] + s[1..] == cur + s;
    }
  }

  /** A number is read as one when a space or comma follows. */
  lemma ReadsNumber(s: string, end: char, toks: seq<Token>)
    requires NumberText(s) && !InNumber(end) && Reads([end], toks)
    ensures Reads(s + [end], [Token(Number, s)] + toks)
  {
    forall rest: string ensures Lex(s + [end] + rest, true) == [Token(Number, s)] + toks + Lex(rest, true) {
      var t := s + [end] + rest;
      assert t[0] == s[0] && t[1..] == s[1..] + ([end] + rest);
      LexNumberBody(s[1..], [s[0]], [end] + rest, true);
      assert [s[0]] + s[1..] == s;
    }
  }

  // ---- Tokens that are lost ----

  /** A string that would be the first token is lost, ... */
  lemma FirstStringLost(s: string, rest: string)
    requires PlainText(s)
    ensures Lex(['"'] + s + ['"'] + rest, false) == Lex(rest, false)
  {
    hide LexString;
    assert "" + s == s;
    LexStringBody(s, "", rest, false);
    assert (['"'] + s + ['"'] + rest)[1..] == s + ['"'] + rest;
  }

  /** ... and so is a number. */
  lemma FirstNumberLost(s: string, rest: string)
    requires NumberText(s) && rest != [] && rest[0] != '.' && !('0' <= rest[0] <= '9')
    ensures Lex(s + rest, false) == Lex(rest, false)
  {
    hide LexNumber;
    assert (s + rest)[0] == s[0] && (s + rest)[1..] == s[1..] + rest;
    LexNumberBody(s[1..], [s[0]], rest, false);
  }

  /** A number at the end of the text is lost, ... */
  lemma {:induction false} LastNumberLost(s: string, cur: string, any: bool)
    requires forall i :: 0 <= i < |s| ==> InNumber(s[i])
    ensures LexNumber(s, cur, any) == []
    decreases |s|
  {
    if s != [] { LastNumberLost(s[1..], cur + [s[0]], any); }
  }

  /** ... and so is a string without a closing quote. */
  lemma {:induction false} OpenStringLost(s: string, cur: string, any: bool)
    requires forall i :: 0 <= i < |s| ==> s[i] != '"'
    ensures LexString(s, cur, any) == []
    decreases |s|
  {
    if s != [] { OpenStringLost(s[1..], cur + [s[0]], any); }
  }

  // ---- Words ----

  /** Anything that starts otherwise is a word: true is read as false, with the character
      behind it, and everything else as true, four characters of it. */
  lemma AnythingElse(s: string, any: bool)
    requires s != [] && s[0] !in " \t\n\r[]{},:\"" && !('0' <= s[0] <= '9')
    ensures Lex(s, any) ==
      if |s| >= 4 && s[..4] == "true" then [Token(Bool, "false")] + Lex(if |s| >= 5 then s[5..] else [], true)
      else [Token(Bool, "true")] + Lex(if |s| >= 4 then s[4..] else [], true)
  {
  }

  /** Wherever it stands behind another token, the first word read from `piece` and what
      follows is not `word`. */
  ghost predicate Misreads(piece: string, word: string) {
    forall rest: string :: TokensWords(Lex(piece + rest, true)) != [] && TokensWords(Lex(piece + rest, true))[0] != word
  }

  /** `true` is read as false and `false` as true. */
  lemma WordMisread(word: string)
    requires word == "true" || word == "false"
    ensures Misreads(word, word)
  {
    forall rest: string ensures
      TokensWords(Lex(word + rest, true)) != [] && TokensWords(Lex(word + rest, true))[0] != word
    {
      var s := word + rest;
      assert s[0] == word[0];
      assert s[..4][0] == s[0] && (word == "true" ==> s[..4] == word);
      assert Lex(s, true)[0] == Token(Bool, WordValue(s));
    }
  }

  lemma MisreadAfter(a: string, x: seq<Token>, b: string, word: string)
    requires Reads(a, x) && TokensWords(x) == [] && Misreads(b, word)
    ensures Misreads(a + b, word)
  {
    hide Lex;
    forall rest: string ensures
      TokensWords(Lex(a + b + rest, true)) != [] && TokensWords(Lex(a + b + rest, true))[0] != word
    {
      assert a + b + rest == a + (b + rest);
      TokensWordsConcat(x, Lex(b + rest, true));
    }
  }

  lemma MisreadBefore(a: string, word: string, b: string)
    requires Misreads(a, word)
    ensures Misreads(a + b, word)
  {
    hide Lex;
    forall rest: string ensures
      TokensWords(Lex(a + b + rest, true)) != [] && TokensWords(Lex(a + b + rest, true))[0] != word
    {
      assert a + b + rest == a + (b + rest);
    }
  }

  /** The lexer makes no other words than these two. */
  lemma {:induction false} LexWords(s: string, any: bool)
    ensures WordsPlain(Lex(s, any))
    decreases |s|, 0
  {
    if s != [] {
      if IsSpace(s[0]) {
        LexWords(s[1..], any);
      } else if IsSymbol(s[0]) {
        LexWords(s[1..], true);
      } else if s[0] == '"' {
        LexStringWords(s[1..], "", any);
      } else if Digit(s[0]) {
        LexNumberWords(s[1..], [s[0]], any);
      } else {
        LexWords(Drop(s, |WordValue(s)|), true);
      }
    }
  }

  lemma {:induction false} LexStringWords(s: string, cur: string, any: bool)
    ensures WordsPlain(LexString(s, cur, any))
    decreases |s|, 1
  {
    if s != [] {
      if Closes(cur, s[0]) { LexWords(s[1..], any); } else { LexStringWords(s[1..], cur + [s[0]], any); }
    }
  }

  lemma {:induction false} LexNumberWords(s: string, cur: string, any: bool)
    ensures WordsPlain(LexNumber(s, cur, any))
    decreases |s|, 1
  {
    if s != [] {
      if InNumber(s[0]) { LexNumberWords(s[1..], cur + [s[0]], any); } else { LexWords(s, any); }
    }
  }

  // ---- The program ----

  datatype St = Zero | StString | StNumber

  /** What the lexer will still add, by its state. */
  ghost function Rest(json: string, i: nat, st: St, start: nat, any: bool): seq<Token>
    requires start <= i <= |json|
  {
    match st
    case Zero => Lex(json[i..], any)
    case StString => LexString(json[i..], json[start..i], any)
    case StNumber => LexNumber(json[i..], json[start..i], any)
  }

  lemma RestAtSpace(json: string, i: nat, start: nat, any: bool)
    requires start <= i < |json| && IsSpace(json[i])
    ensures Rest(json, i, Zero, start, any) == Rest(json, i + 1, Zero, start, any)
  {
    assert json[i..][1..] == json[i + 1..];
  }

  lemma RestInString(json: string, i: nat, start: nat, any: bool)
    requires 1 <= start <= i < |json| && json[start - 1] == '"'
    ensures Rest(json, i, StString, start, any)
      == if json[i] == '"' && json[i - 1] != '\\'
         then Added(any, Token(String, json[start..i])) + Rest(json, i + 1, Zero, start, any)
         else Rest(json, i + 1, StString, start, any)
  {
    assert json[i..][1..] == json[i + 1..];
    assert json[start..i + 1] == json[start..i] + [json[i]];
  }

  lemma RestInNumber(json: string, i: nat, start: nat, any: bool)
    requires start <= i < |json|
    ensures Rest(json, i, StNumber, start, any)
      == if InNumber(json[i]) then Rest(json, i + 1, StNumber, start, any)
         else Added(any, Token(Number, json[start..i])) + Rest(json, i, Zero, start, any)
  {
    assert json[i..][1..] == json[i + 1..];
    assert json[start..i + 1] == json[start..i] + [json[i]];
  }

  lemma RestBetween(json: string, i: nat, any: bool)
    requires i < |json| && !IsSpace(json[i])
    ensures var c := json[i];
      Rest(json, i, Zero, 0, any)
      == if IsSymbol(c) then [Sym(c)] + Rest(json, i + 1, Zero, 0, true)
         else if c == '"' then Rest(json, i + 1, StString, i + 1, any)
         else if Digit(c) then Rest(json, i + 1, StNumber, i, any)
         else var w := WordValue(json[i..]);
           [Token(Bool, w)] + Rest(json, if i + |w| <= |json| then i + |w| else |json|, Zero, 0, true)
  {
    assert json[i..][1..] == json[i + 1..];
    assert json[i + 1..i + 1] == [] && json[i..i + 1] == [json[i]];
    var w := WordValue(json[i..]);
    assert Drop(json[i..], |w|) == json[if i + |w| <= |json| then i + |w| else |json|..];
  }

  method AddToken(tokens: seq<Token>, kind: Kind, json: string, start: nat, i: nat) returns (r: seq<Token>)
    requires start <= i <= |json|
    ensures r == tokens + Added(tokens != [], Token(kind, json[start..i])) && (r == [] <==> tokens == [])
  {
    if tokens == [] { return tokens; }
    return tokens + [Token(kind, json[start..i])];
  }

  /** One character between tokens (lex.c:33-76). */
  method Between(json: string, i: nat, tokens: seq<Token>) returns (tokens': seq<Token>, st: St, start: nat, next: nat)
    requires i < |json| && !IsSpace(json[i])
    ensures start <= next <= |json| && i < next
    ensures st == StString ==> start >= 1 && json[start - 1] == '"'
    ensures tokens' + Rest(json, next, st, start, tokens' != []) == tokens + Rest(json, i, Zero, 0, tokens != [])
  {
    hide Rest, IsSpace, IsSymbol, StartsWith;
    RestBetween(json, i, tokens != []);
    var ch := json[i];
    tokens', st, start, next := tokens, Zero, 0, i + 1;
    if IsSymbol(ch) {
      tokens' := tokens + [Sym(ch)];
    } else if ch == '"' {
      st, start := StString, i + 1;
    } else if Digit(ch) {
      st, start := StNumber, i;
    } else {
      var word := if StartsWith(json[i..], "true") then "false" else "true";
      tokens' := tokens + [Token(Bool, word)];
      next := if i + |word| <= |json| then i + |word| else |json|;
    }
  }

  /** lex (lex.c:11-97). */
  method LexAll(json: string) returns (tokens: seq<Token>)
    ensures tokens == Lex(json, false)
  {
    hide IsSpace, Rest, Added, InNumber;
    tokens := [];
    var st := Zero;
    var start: nat, i: nat := 0, 0;
    RestStarts(json);
    while i < |json|
      invariant start <= i <= |json|
      invariant st == StString ==> start >= 1 && json[start - 1] == '"'
      invariant tokens + Rest(json, i, st, start, tokens != []) == Lex(json, false)
      decreases |json| - i, if st == StNumber then 1 else 0
    {
      var ch := json[i];
      ghost var any := tokens != [];
      if IsSpace(ch) && st == Zero {
        RestAtSpace(json, i, start, any);
        i := i + 1;
        continue;
      }
      match st
      case Zero =>
        RestZero(json, i, start, any);
        tokens, st, start, i := Between(json, i, tokens);
      case StString =>
        RestInString(json, i, start, any);
        if ch == '"' && !(i > 0 && json[i - 1] == '\\') {
          tokens := AddToken(tokens, String, json, start, i);
          st := Zero;
        }
        i := i + 1;
      case StNumber =>
        RestInNumber(json, i, start, any);
        if !InNumber(ch) {
          tokens := AddToken(tokens, Number, json, start, i);
          st := Zero;
        } else {
          i := i + 1;
        }
    }
    RestOver(json, st, start, tokens != []);
  }

  lemma RestStarts(json: string)
    ensures Rest(json, 0, Zero, 0, false) == Lex(json, false)
  {
    assert json[0..] == json;
  }

  lemma RestZero(json: string, i: nat, start: nat, any: bool)
    requires start <= i <= |json|
    ensures Rest(json, i, Zero, start, any) == Rest(json, i, Zero, 0, any)
  {
  }

  lemma RestOver(json: string, st: St, start: nat, any: bool)
    requires start <= |json|
    ensures Rest(json, |json|, st, start, any) == []
  {
  }
}
