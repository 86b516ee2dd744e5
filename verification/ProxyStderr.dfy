/** Splitting the standard error of a proxy command into log lines (putty/be_misc.c). */
module ProxyStderr {

  /** A call of plug_log: a complete line, with the line end that was stripped from it, or
      a full buffer that holds no line end. */
  datatype Message = Line(text: string, end: string) | Partial(text: string)

  /** What is held back, and what has been logged. */
  datatype State = State(held: string, log: seq<Message>)

  /** Length of `s` without the line ends at its end. */
  function Kept(s: string): (n: nat)
    ensures n <= |s|
  {
    if s != "" && (s[|s| - 1] == '\n' || s[|s| - 1] == '\r') then Kept(s[..|s| - 1]) else |s|
  }

  function LineOf(s: string): Message {
    Line(s[..Kept(s)], s[Kept(s)..] + "\n")
  }

  /** One more character, with room for `n` of them. */
  function Put(n: nat, st: State, c: char): State {
    if c == '\n' then State("", st.log + [LineOf(st.held)])
    else if |st.held| + 1 >= n then State("", st.log + [Partial(st.held + [c])])
    else st.(held := st.held + [c])
  }

  function Feed(n: nat, st: State, data: string): State
    decreases |data|
  {
    if data == "" then st else Feed(n, Put(n, st, data[0]), data[1..])
  }

  /** A state the program can be in between calls. */
  predicate Ready(n: nat, st: State) {
    |st.held| < n && '\n' !in st.held
  }

  /** Feeding in pieces is feeding the whole. */
  lemma {:induction false} FeedConcat(n: nat, st: State, a: string, b: string)
    ensures Feed(n, st, a + b) == Feed(n, Feed(n, st, a), b)
    decreases |a|
  {
    if a == "" {
      assert a + b == b;
    } else {
      assert (a + b)[1..] == a[1..] + b;
      FeedConcat(n, Put(n, st, a[0]), a[1..], b);
    }
  }

  function Concat(chunks: seq<string>): string {
    if chunks == [] then "" else chunks[0] + Concat(chunks[1..])
  }

  function FeedAll(n: nat, st: State, chunks: seq<string>): State
    decreases |chunks|
  {
    if chunks == [] then st else FeedAll(n, Feed(n, st, chunks[0]), chunks[1..])
  }

  /** However the input is cut into chunks, log and leftover depend on its text only. */
  lemma {:induction false} ChunksIrrelevant(n: nat, st: State, chunks: seq<string>)
    ensures FeedAll(n, st, chunks) == Feed(n, st, Concat(chunks))
    decreases |chunks|
  {
    if chunks != [] {
      FeedConcat(n, st, chunks[0], Concat(chunks[1..]));
      ChunksIrrelevant(n, Feed(n, st, chunks[0]), chunks[1..]);
    }
  }

  // ---- Nothing is lost ----

  /** The input that a message accounts for. */
  function Source(m: Message): string {
    m.text + if m.Line? then m.end else ""
  }

  /** The input that a log accounts for. */
  function Spelled(log: seq<Message>): string {
    if log == [] then "" else Spelled(log[..|log| - 1]) + Source(log[|log| - 1])
  }

  /** Carriage returns and then one line feed. */
  predicate IsLineEnd(s: string) {
    |s| > 0 && s[|s| - 1] == '\n' && forall i :: 0 <= i < |s| - 1 ==> s[i] == '\r'
  }

  /** A line's text holds no line feed and has no carriage return at its end; what was
      stripped is the line end; and both came from one buffer. A partial line is a full
      buffer without a line feed. */
  predicate MessageOk(n: nat, m: Message) {
    match m
    case Line(text, end) =>
      && '\n' !in text && (text == "" || text[|text| - 1] != '\r')
      && IsLineEnd(end) && |text| + |end| <= n
    case Partial(text) => |text| == n && '\n' !in text
  }

  predicate LogOk(n: nat, log: seq<Message>) {
    forall i :: 0 <= i < |log| ==> MessageOk(n, log[i])
  }

  lemma {:induction false} KeptEnds(s: string)
    requires '\n' !in s
    ensures forall i :: Kept(s) <= i < |s| ==> s[i] == '\r'
    ensures Kept(s) > 0 ==> s[Kept(s) - 1] != '\r'
  {
    if s != "" && s[|s| - 1] == '\r' {
      KeptEnds(s[..|s| - 1]);
    }
  }

  lemma LineOk(n: nat, s: string)
    requires '\n' !in s && |s| < n
    ensures MessageOk(n, LineOf(s)) && Source(LineOf(s)) == s + ['\n']
  {
    KeptEnds(s);
    assert s == s[..Kept(s)] + s[Kept(s)..];
  }

  lemma PutKeeps(n: nat, st: State, c: char)
    requires Ready(n, st) && LogOk(n, st.log)
    ensures var t := Put(n, st, c);
            Ready(n, t) && LogOk(n, t.log) && Spelled(t.log) + t.held == Spelled(st.log) + st.held + [c]
  {
    hide LineOf, Spelled, MessageOk, LogOk, Source;
    LineOk(n, st.held);
    if c == '\n' {
      LogGrows(n, st.log, LineOf(st.held));
    } else if |st.held| + 1 >= n {
      PartialOk(n, st.held + [c]);
      LogGrows(n, st.log, Partial(st.held + [c]));
    }
  }

  lemma PartialOk(n: nat, s: string)
    requires |s| == n && '\n' !in s
    ensures MessageOk(n, Partial(s)) && Source(Partial(s)) == s
  {
  }

  lemma LogGrows(n: nat, log: seq<Message>, m: Message)
    requires LogOk(n, log) && MessageOk(n, m)
    ensures LogOk(n, log + [m]) && Spelled(log + [m]) == Spelled(log) + Source(m)
  {
    hide MessageOk;
    assert (log + [m])[..|log|] == log;
    SpelledLast(log + [m]);
  }

  /** Every character is logged, stripped as part of a line end, or still held; and the log
      keeps its form. */
  lemma {:induction false} NothingLost(n: nat, st: State, data: string)
    requires Ready(n, st) && LogOk(n, st.log)
    ensures var t := Feed(n, st, data);
            Ready(n, t) && LogOk(n, t.log) && Spelled(t.log) + t.held == Spelled(st.log) + st.held + data
    decreases |data|
  {
    hide LogOk;
    if data != "" {
      PutKeeps(n, st, data[0]);
      NothingLost(n, Put(n, st, data[0]), data[1..]);
      assert data == [data[0]] + data[1..];
    }
  }

  // ---- There is only one such log ----

  lemma {:induction false} SpelledFront(log: seq<Message>)
    requires log != []
    ensures Spelled(log) == Source(log[0]) + Spelled(log[1..])
    decreases |log|
  {
    hide Spelled, Source;
    var last := |log| - 1;
    SpelledLast(log);
    NothingSpelled();
    if last == 0 {
      assert log[..0] == [] && log[1..] == [];
    } else {
      SpelledFront(log[..last]);
      SpelledLast(log[1..]);
      assert log[..last][1..] == log[1..][..last - 1];
    }
  }

  lemma SpelledLast(log: seq<Message>)
    requires log != []
    ensures Spelled(log) == Spelled(log[..|log| - 1]) + Source(log[|log| - 1])
  {
  }

  /** A message is fixed by the text that begins with it. */
  lemma SameMessage(n: nat, m: Message, k: Message, s: string, t: string)
    requires MessageOk(n, m) && MessageOk(n, k) && Source(m) + s == Source(k) + t
    ensures m == k && s == t
  {
    var x, y := Source(m), Source(k);
    assert forall i :: 0 <= i < |x| && i < |y| ==> x[i] == (x + s)[i] == y[i];
    LineFeedLast(n, m);
    LineFeedLast(n, k);
    assert |x| == |y|;
    assert m.Line? ==> x[|x| - 1] == '\n';
    assert k.Line? ==> y[|y| - 1] == '\n';
    assert x == (x + s)[..|x|] && y == (y + t)[..|y|] && s == (x + s)[|x|..] && t == (y + t)[|y|..];
    if m.Line? {
      assert x == y && |m.text| == |k.text|;
      assert m.text == x[..|m.text|] && k.text == y[..|k.text|];
      assert m.end == x[|m.text|..] && k.end == y[|k.text|..];
    } else {
      assert m.text == x && k.text == y;
    }
  }

  /** The only line feed of a line is its last character; a partial line has none. */
  lemma LineFeedLast(n: nat, m: Message)
    requires MessageOk(n, m)
    ensures m.Line? ==>
      && |Source(m)| > 0 && Source(m)[|Source(m)| - 1] == '\n' && |Source(m)| <= n
      && (forall i :: 0 <= i < |Source(m)| - 1 ==> Source(m)[i] != '\n')
      && (forall i :: |m.text| <= i < |Source(m)| - 1 ==> Source(m)[i] == '\r')
      && (m.text != "" ==> Source(m)[|m.text| - 1] != '\r')
    ensures m.Partial? ==> |Source(m)| == n && forall i :: 0 <= i < n ==> Source(m)[i] != '\n'
  {
  }

  /** Log and leftover are the only ones of that form that account for the input. */
  lemma {:induction false} OnlyOneLog(n: nat, a: State, b: State)
    requires Ready(n, a) && Ready(n, b) && LogOk(n, a.log) && LogOk(n, b.log)
    requires Spelled(a.log) + a.held == Spelled(b.log) + b.held
    ensures a == b
    decreases |a.log|
  {
    hide Spelled, MessageOk;
    NothingSpelled();
    if a.log == [] && b.log == [] {
      assert "" + a.held == a.held && "" + b.held == b.held;
    } else if a.log == [] {
      SpelledFront(b.log);
      assert Spelled(b.log) + b.held == Source(b.log[0]) + (Spelled(b.log[1..]) + b.held);
      assert Spelled(a.log) + a.held == a.held;
      HoldsNone(n, a.held, b.log[0], Spelled(b.log[1..]) + b.held);
    } else if b.log == [] {
      SpelledFront(a.log);
      assert Spelled(a.log) + a.held == Source(a.log[0]) + (Spelled(a.log[1..]) + a.held);
      assert Spelled(b.log) + b.held == b.held;
      HoldsNone(n, b.held, a.log[0], Spelled(a.log[1..]) + a.held);
    } else {
      SpelledFront(a.log);
      SpelledFront(b.log);
      var s, t := Spelled(a.log[1..]) + a.held, Spelled(b.log[1..]) + b.held;
      assert Source(a.log[0]) + s == Spelled(a.log) + a.held && Source(b.log[0]) + t == Spelled(b.log) + b.held;
      SameMessage(n, a.log[0], b.log[0], s, t);
      OnlyOneLog(n, State(a.held, a.log[1..]), State(b.held, b.log[1..]));
    }
  }

  lemma NothingSpelled()
    ensures Spelled([]) == ""
  {
  }

  /** What is held back begins with no message. */
  lemma HoldsNone(n: nat, held: string, m: Message, rest: string)
    requires |held| < n && '\n' !in held && MessageOk(n, m)
    ensures held != Source(m) + rest
  {
    LineFeedLast(n, m);
    var s := Source(m) + rest;
    assert m.Line? ==> s[|Source(m)| - 1] == '\n';
  }

  /** So the input decides log and leftover: they are the lines and full buffers it is made of. */
  lemma InputDecides(n: nat, data: string, t: State)
    requires n > 0 && Ready(n, t) && LogOk(n, t.log) && Spelled(t.log) + t.held == data
    ensures Feed(n, State("", []), data) == t
  {
    NothingLost(n, State("", []), data);
    assert Spelled([]) + "" + data == data;
    OnlyOneLog(n, Feed(n, State("", []), data), t);
  }

  /** "error\r\n" is logged as "error". */
  lemma CarriageReturnStripped()
    ensures Feed(100, State("", []), "error\r\n") == State("", [Line("error", "\r\n")])
  {
    var log := [Line("error", "\r\n")];
    assert log[..0] == [] && Spelled(log) == "error\r\n";
    InputDecides(100, "error\r\n", State("", log));
  }

  // ---- Feeding a whole buffer ----

  /** Text without a line end, up to the end of the buffer. */
  lemma {:induction false} FeedPlain(n: nat, st: State, a: string)
    requires Ready(n, st) && '\n' !in a && |st.held| + |a| <= n && a != ""
    ensures Feed(n, st, a) ==
            if |st.held| + |a| == n then State("", st.log + [Partial(st.held + a)])
            else State(st.held + a, st.log)
    decreases |a|
  {
    var u := Put(n, st, a[0]);
    assert a == [a[0]] + a[1..];
    if a[1..] != "" {
      assert st.held + [a[0]] + a[1..] == st.held + a;
      FeedPlain(n, u, a[1..]);
    } else {
      assert a == [a[0]];
    }
  }

  /** Text up to and including its first line end. */
  lemma FeedLine(n: nat, st: State, a: string, b: string)
    requires Ready(n, st) && '\n' !in a && |st.held| + |a| < n
    ensures Feed(n, st, a + "\n" + b) == Feed(n, State("", st.log + [LineOf(st.held + a)]), b)
  {
    if a != "" {
      FeedPlain(n, st, a);
    }
    assert st.held + "" == st.held;
    var u := Feed(n, st, a);
    FeedConcat(n, st, a, "\n" + b);
    assert a + "\n" + b == a + ("\n" + b);
    assert ("\n" + b)[1..] == b;
  }

  lemma FeedNext(n: nat, log: seq<Message>, w: string, pos: nat, q: nat)
    requires pos <= q < |w| <= n && '\n' !in w[pos..q] && w[q] == '\n'
    ensures Feed(n, State("", log), w[pos..]) == Feed(n, State("", log + [LineOf(w[pos..q])]), w[q + 1..])
  {
    assert w[pos..] == w[pos..q] + "\n" + w[q + 1..];
    assert "" + w[pos..q] == w[pos..q];
    FeedLine(n, State("", log), w[pos..q], w[q + 1..]);
  }

  /** The held text may be taken as new input. */
  lemma FeedHeld(n: nat, st: State, a: string)
    requires Ready(n, st)
    ensures Feed(n, st, a) == Feed(n, State("", st.log), st.held + a)
  {
    var u := State("", st.log);
    FeedConcat(n, u, st.held, a);
    if st.held != "" {
      FeedPlain(n, u, st.held);
      assert "" + st.held == st.held;
    }
  }

  lemma KeptStep(w: string, n: nat)
    requires n <= |w|
    ensures n == 0 || (w[n - 1] != '\n' && w[n - 1] != '\r') ==> Kept(w[..n]) == n
    ensures n > 0 && (w[n - 1] == '\n' || w[n - 1] == '\r') ==> Kept(w[..n]) == Kept(w[..n - 1])
  {
    assert n > 0 ==> w[..n][..n - 1] == w[..n - 1];
  }

  class StderrBuf {
    const buf: array<char>
    var size: nat
    var log: seq<Message>

    ghost predicate Valid()
      reads this, buf
    {
      size < buf.Length && '\n' !in buf[..size]
    }

    ghost function Abs(): State
      requires size <= buf.Length
      reads this, buf
    {
      State(buf[..size], log)
    }

    constructor (capacity: nat)
      requires capacity > 0
      ensures Valid() && buf.Length == capacity && Abs() == State("", []) && fresh(buf)
    {
      buf := new char[capacity](_ => ' ');
      size, log := 0, [];
    }

    /** log_proxy_stderr. The program's assertion that the buffer has room on entry to the
        loop is the invariant `Valid()`. */
    method Log(data: string)
      requires Valid()
      modifies this, buf
      ensures Valid() && Abs() == Feed(buf.Length, old(Abs()), data)
    {
      var k := 0;
      while k < |data|
        invariant 0 <= k <= |data| && Valid()
        invariant Feed(buf.Length, Abs(), data[k..]) == Feed(buf.Length, old(Abs()), data)
      {
        assert size < buf.Length;
        var m := if |data| - k < buf.Length - size then |data| - k else buf.Length - size;
        ghost var st := Abs();
        FeedConcat(buf.Length, st, data[k..k + m], data[k + m..]);
        assert data[k..] == data[k..k + m] + data[k + m..];
        FeedHeld(buf.Length, st, data[k..k + m]);
        Fill(data[k..k + m]);
        Drain();
        k := k + m;
      }
      assert data[k..] == "";
    }

    /** Copies `a` behind the held text. */
    method Fill(a: string)
      requires size + |a| <= buf.Length
      modifies this`size, buf
      ensures size == old(size) + |a| && buf[..size] == old(buf[..size]) + a
    {
      ghost var was := buf[..size];
      var i := 0;
      while i < |a|
        invariant 0 <= i <= |a| && size == old(size)
        invariant buf[..size + i] == was + a[..i]
      {
        buf[size + i] := a[i];
        i := i + 1;
      }
      size := size + |a|;
      assert buf[..size] == was + a[..|a|];
    }

    /** Position of the first line feed from `pos` on, or `size` (memchr). */
    method FindLineFeed(pos: nat) returns (q: nat)
      requires pos <= size <= buf.Length
      ensures pos <= q <= size && '\n' !in buf[pos..q] && (q < size ==> buf[q] == '\n')
    {
      q := pos;
      while q < size && buf[q] != '\n'
        invariant pos <= q <= size && '\n' !in buf[pos..q]
      {
        q := q + 1;
      }
    }

    /** Where buf[pos..q] ends without its line ends. */
    method TrimEnd(pos: nat, q: nat) returns (e: nat)
      requires pos <= q <= buf.Length
      ensures e == pos + Kept(buf[pos..q])
    {
      hide Kept;
      e := q;
      ghost var w := buf[pos..q];
      assert w[..q - pos] == w;
      while e > pos && (buf[e - 1] == '\n' || buf[e - 1] == '\r')
        invariant pos <= e <= q && Kept(w[..e - pos]) == Kept(w)
      {
        assert w[e - pos - 1] == buf[e - 1];
        KeptStep(w, e - pos);
        e := e - 1;
      }
      assert e > pos ==> w[e - pos - 1] == buf[e - 1];
      KeptStep(w, e - pos);
    }

    /** Logs the line in buf[pos..q] without the line ends at its end. */
    method LogLine(pos: nat, q: nat)
      requires pos <= q <= buf.Length
      modifies this`log
      ensures log == old(log) + [LineOf(buf[pos..q])]
    {
      var e := TrimEnd(pos, q);
      ghost var w := buf[pos..q];
      assert w[..e - pos] == buf[pos..e] && w[e - pos..] == buf[e..q];
      log := log + [Line(buf[pos..e], buf[e..q] + "\n")];
    }

    /** Logs every complete line in the buffer; `pos` is where the rest begins. */
    method LogLines() returns (pos: nat)
      requires 0 < buf.Length && size <= buf.Length
      modifies this`log
      ensures pos <= size && '\n' !in buf[pos..size]
      ensures Feed(buf.Length, State("", log), buf[pos..size]) == Feed(buf.Length, State("", old(log)), buf[..size])
    {
      hide Feed, LineOf;
      var n := buf.Length;
      ghost var w := buf[..size];
      pos := 0;
      while pos < size
        invariant pos <= size
        invariant Feed(n, State("", log), w[pos..]) == Feed(n, State("", old(log)), w)
      {
        var q := FindLineFeed(pos);
        if q == size {
          break;
        }
        assert buf[pos..q] == w[pos..q];
        FeedNext(n, log, w, pos, q);
        LogLine(pos, q);
        pos := q + 1;
      }
      assert w[pos..] == buf[pos..size];
    }

    /** Logs every complete line in the buffer, or the whole of a full buffer that has
        none, and moves the rest to the front. */
    method Drain()
      requires 0 < buf.Length && size <= buf.Length
      modifies this, buf
      ensures Valid() && Abs() == Feed(buf.Length, State("", old(log)), old(buf[..size]))
    {
      var pos := LogLines();
      ghost var rest := buf[pos..size];
      if rest != "" {
        FeedPlain(buf.Length, State("", log), rest);
        assert "" + rest == rest;
      }
      if pos == 0 && size == buf.Length {
        assert buf[..size] == rest;
        log := log + [Partial(buf[..size])];
        pos, size := 0, 0;
      }
      MoveDown(pos);
    }

    /** memmove of buf[pos..size] to the front. */
    method MoveDown(pos: nat)
      requires pos <= size <= buf.Length
      modifies this`size, buf
      ensures size == old(size) - pos && buf[..size] == old(buf[pos..size])
    {
      var m := size - pos;
      var i := 0;
      while i < m
        invariant 0 <= i <= m && size == old(size)
        invariant forall j :: 0 <= j < i ==> buf[j] == old(buf[pos + j])
        invariant forall j :: pos + i <= j < size ==> buf[j] == old(buf[j])
      {
        buf[i] := buf[pos + i];
        i := i + 1;
      }
      size := m;
    }
  }
}
