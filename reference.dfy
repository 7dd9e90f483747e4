/** A pure reference definition of what the JSMin class computes.

    The class reads its input through get(), which hands out the bytes of a
    stream: the buffered look-ahead byte, if any, followed by the unread input,
    every byte folded (Base.Fold). Each function here takes that stream as a
    sequence and returns what the corresponding member of the class returns,
    together with the part of the stream it leaves unread. The class in
    jsmin.dfy is proved to follow these functions step for step; the lemmas in
    the *_props.dfy files state what they promise. */
module Reference {
  import opened Base

  /** A byte (or end of input) read from the stream, and the stream after it. */
  datatype Read = Read(c: Option<Byte>, rest: seq<Byte>)

  /** Bytes copied to the output by a literal scanner, and the stream after the
      literal. */
  datatype Scanned = Scanned(copied: seq<Byte>, rest: seq<Byte>)

  /** The state the action chain and the main loop work on: the current pair
      (a, b), the unread stream, and the output so far. */
  datatype Config = Config(a: Option<Byte>, b: Option<Byte>, pending: seq<Byte>, output: seq<Byte>)

  /** The commands action() is called with: ACTION_KEEP_A, ACTION_DELETE_A and
      ACTION_DELETE_A_B. */
  const ACTION_KEEP_A := 1
  const ACTION_DELETE_A := 2
  const ACTION_DELETE_A_B := 3

  type Command = c: int | ACTION_KEEP_A <= c <= ACTION_DELETE_A_B witness ACTION_KEEP_A

  /** get() on the stream: the first byte, or null when it is exhausted. */
  function Pop(p: seq<Byte>): (r: Read)
    ensures r.c.None? <==> p == []
    ensures |r.rest| == if p == [] then 0 else |p| - 1
  {
    if p == [] then Read(None, []) else Read(Some(p[0]), p[1..])
  }

  function Drop(p: seq<Byte>, n: nat): seq<Byte> {
    if |p| <= n then [] else p[n..]
  }

  /** The stream the constructor sets up for an input text. */
  function Source(js: seq<Byte>): (r: seq<Byte>)
    ensures |r| <= |js|
    ensures AllFolded(r)
  {
    FoldAll(ReplaceCrlf(js))
  }

  // ---------------------------------------------------------------------------
  // The comment-skipping reader, next()

  /** The `//` loop of next(): read until a byte whose ord is at most ORD_LF
      (a line feed, or null at end of input) and return that byte. */
  function SkipLine(p: seq<Byte>): (r: Read)
    ensures |r.rest| <= |p|
    ensures r.c.None? ==> r.rest == []
    decreases |p|
  {
    var Read(c, rest) := Pop(p);
    if Ord(c) <= ORD_LF then Read(c, rest) else SkipLine(rest)
  }

  /** The block-comment loop of next(), entered once the slash and star are read: find `*` followed
      by `/` and return a single space for the whole comment. */
  function SkipBlock(p: seq<Byte>): (r: Result<Read>)
    ensures r.Ok? ==> r.value.c == Some(' ') && |r.value.rest| < |p|
    ensures r.Thrown? ==> r.error == UnterminatedComment
    ensures !r.Spins?
    decreases |p|
  {
    var Read(c, rest) := Pop(p);
    if c == Some('*') && Pop(rest).c == Some('/') then Ok(Read(Some(' '), Pop(rest).rest))
    else if c.None? then Thrown(UnterminatedComment)
    else SkipBlock(rest)
  }

  /** next(): get() with comments removed. */
  function NextSpec(p: seq<Byte>): (r: Result<Read>)
    ensures !r.Spins?
    ensures r.Thrown? ==> r.error == UnterminatedComment
    ensures r.Ok? ==> |r.value.rest| <= |p|
    ensures r.Ok? && p != [] ==> |r.value.rest| < |p|
    ensures p == [] ==> r == Ok(Read(None, []))
    ensures r.Ok? && r.value.c.None? ==> r.value.rest == []
  {
    var Read(c, rest) := Pop(p);
    if c == Some('/') then
      var peeked := Pop(rest).c;
      if peeked == Some('/') then Ok(SkipLine(rest))
      else if peeked == Some('*') then SkipBlock(Pop(rest).rest)
      else Ok(Read(c, rest))
    else Ok(Read(c, rest))
  }

  // ---------------------------------------------------------------------------
  // The literal scanners

  function Prepend(s: seq<Byte>, r: Result<Scanned>): Result<Scanned> {
    match r
    case Ok(Scanned(copied, rest)) => Ok(Scanned(s + copied, rest))
    case _ => r
  }

  /** processString(): copy the body of a literal opened by quote q. A
      backslash and the byte after it are copied as they are; the literal ends
      at the next q, which is not copied; a byte whose ord is at most ORD_LF
      (a line feed, or null) ends it with an exception. */
  function ScanString(p: seq<Byte>, q: Byte): (r: Result<Scanned>)
    ensures r.Ok? ==> |r.value.rest| < |p|
    ensures r.Thrown? ==> r.error == UnterminatedString
    ensures !r.Spins?
    decreases |p|
  {
    var Read(c, rest) := Pop(p);
    if c == Some('\\') then
      var Read(e, rest2) := Pop(rest);
      Prepend(['\\'] + Emitted(e), ScanString(rest2, q))
    else if c == Some(q) then Ok(Scanned([], rest))
    else if Ord(c) <= ORD_LF then Thrown(UnterminatedString)
    else Prepend(Emitted(c), ScanString(rest, q))
  }

  /** The `do ... while ($this->a !== ']')` loop of processRegex(): output the
      current byte c, read the next, stop before a `]`. At end of input get()
      keeps returning null and the loop never ends. */
  function ClassFrom(c: Option<Byte>, p: seq<Byte>): (r: Result<Scanned>)
    ensures r.Ok? ==> |r.value.rest| < |p|
    ensures !r.Thrown?
    decreases |p|
  {
    var Read(d, rest) := Pop(p);
    if d == Some(']') then Ok(Scanned(Emitted(c), rest))
    else if d.None? then Spins
    else Prepend(Emitted(c), ClassFrom(d, rest))
  }

  /** The `for (;;)` loop of processRegex(): copy the body of a regular
      expression literal up to the first `/` that is neither escaped nor inside
      `[...]`; that `/` is not copied. */
  function ScanRegex(p: seq<Byte>): (r: Result<Scanned>)
    ensures r.Ok? ==> |r.value.rest| < |p|
    ensures r.Thrown? ==> r.error == UnterminatedRegex
    decreases |p|
  {
    var Read(c, rest) := Pop(p);
    if c == Some('[') then
      match ClassFrom(c, rest)
      case Ok(Scanned(cls, after)) => Prepend(cls + [']'], ScanRegex(after))
      case failed => failed
    else if c == Some('/') then Ok(Scanned([], rest))
    else if c == Some('\\') then
      var Read(e, rest2) := Pop(rest);
      Prepend(['\\'] + Emitted(e), ScanRegex(rest2))
    else if Ord(c) <= ORD_LF then Thrown(UnterminatedRegex)
    else Prepend(Emitted(c), ScanRegex(rest))
  }

  /** processRegex() as a whole: the scan, then `$this->b = $this->next()`. */
  function RegexLiteral(p: seq<Byte>): (r: Result<(seq<Byte>, Read)>)
    ensures r.Ok? ==> |r.value.1.rest| < |p|
    ensures r.Thrown? ==> r.error == UnterminatedRegex || r.error == UnterminatedComment
  {
    var s :- ScanRegex(p);
    var n :- NextSpec(s.rest);
    Ok((s.copied, n))
  }

  // ---------------------------------------------------------------------------
  // The action chain, action()

  function Measure(m: Config): nat {
    2 * |m.pending| + Count(m.a) + Count(m.b)
  }

  /** Step ACTION_KEEP_A: output a, a line feed as a space (inString and
      inRegex are always false when this step runs). */
  function KeepA(m: Config): (r: Config)
    ensures r.output == m.output + Emitted(r.a)
    ensures r.a != Some('\n')
    ensures r.a.Some? == m.a.Some? && r.b == m.b && r.pending == m.pending
    ensures m.a != Some('\n') ==> r.a == m.a
    ensures m.a == Some('\n') ==> r.a == Some(' ')
  {
    var a := if m.a == Some('\n') then Some(' ') else m.a;
    m.(a := a, output := m.output + Emitted(a))
  }

  /** Step ACTION_DELETE_A: a := b; a quote in a opens a string, whose opening
      quote and body are output by processString(). */
  function DeleteA(m: Config): (r: Result<Config>)
    ensures r.Ok? ==> r.value.a == m.b && r.value.b == m.b
    ensures r.Ok? ==> |r.value.pending| <= |m.pending| && m.output <= r.value.output
    ensures r.Thrown? ==> r.error == UnterminatedString
    ensures !r.Spins?
  {
    var m1 := m.(a := m.b);
    if m1.a.Some? && m1.a.value in QUOTES then
      var s :- ScanString(m1.pending, m1.a.value);
      Ok(m1.(pending := s.rest, output := m1.output + [m1.a.value] + s.copied))
    else Ok(m1)
  }

  /** Whether a `/` read into b opens a regular expression, given a. */
  predicate OpensRegex(a: Option<Byte>, b: Option<Byte>)
    ensures IsAlphaNum(a) ==> !OpensRegex(a, b)
    ensures a == Some('\n') ==> (OpensRegex(a, b) <==> b == Some('/'))
  {
    b == Some('/') && a.Some? && a.value in REGEX_PREFIX
  }

  /** Step ACTION_DELETE_A_B: b := next(); a `/` in b after one of
      REGEX_PREFIX in a opens a regular expression: a and the `/` are output,
      processRegex() copies the body, leaves a = `/` and refills b. */
  function DeleteAB(m: Config): (r: Result<Config>)
    ensures r.Ok? ==> Measure(r.value) <= Measure(m) && m.output <= r.value.output
    ensures r.Ok? && (m.b.Some? || m.pending != []) ==> Measure(r.value) < Measure(m)
    ensures r.Ok? ==> r.value.a.Some? == m.a.Some?
  {
    var n :- NextSpec(m.pending);
    var m1 := m.(b := n.c, pending := n.rest);
    if OpensRegex(m1.a, m1.b) then
      var lit :- RegexLiteral(m1.pending);
      Ok(Config(Some('/'), lit.1.c, lit.1.rest, m1.output + [m1.a.value, '/'] + lit.0))
    else Ok(m1)
  }

  /** action(cmd): the switch falls through, so every step whose constant is
      at least cmd runs, in order. */
  function Action(cmd: Command, m: Config): (r: Result<Config>)
    ensures r.Ok? ==> m.output <= r.value.output
    ensures r.Ok? && m.a.Some? && (cmd == ACTION_DELETE_A_B ==> m.b.Some?) ==> Measure(r.value) < Measure(m)
  {
    var m1 := if cmd <= ACTION_KEEP_A then KeepA(m) else m;
    var m2 :- if cmd <= ACTION_DELETE_A then DeleteA(m1) else Ok(m1);
    DeleteAB(m2)
  }

  // ---------------------------------------------------------------------------
  // The main loop, min()

  /** The command the main loop issues for the pair (a, b), once a line feed
      in a has been turned into a space. */
  function Decide(a: Option<Byte>, b: Option<Byte>): (cmd: Command)
    ensures cmd == ACTION_DELETE_A_B ==> b == Some(' ') || b == Some('\n')
    ensures a == Some(' ') && cmd == ACTION_KEEP_A ==> IsAlphaNum(b)
    ensures a != Some(' ') && b == Some(' ') ==> (cmd == ACTION_KEEP_A <==> IsAlphaNum(a))
    ensures a != Some(' ') && b == Some('\n') ==> cmd == ACTION_DELETE_A_B
    ensures a != Some(' ') && b != Some(' ') && b != Some('\n') ==> cmd == ACTION_KEEP_A
    ensures cmd == ACTION_DELETE_A <==> a == Some(' ') && !IsAlphaNum(b)
  {
    if a == Some(' ') then
      if IsAlphaNum(b) then ACTION_KEEP_A else ACTION_DELETE_A
    else if b == Some(' ') then
      if IsAlphaNum(a) then ACTION_KEEP_A else ACTION_DELETE_A_B
    else if b == Some('\n') then
      ACTION_DELETE_A_B
    else
      ACTION_KEEP_A
  }

  /** The `while ($this->a !== null)` loop of min(). */
  function Run(m: Config): (r: Result<seq<Byte>>)
    ensures r.Ok? ==> m.output <= r.value
    decreases Measure(m)
  {
    if m.a.None? then Ok(m.output)
    else
      var m1 := m.(a := if m.a == Some('\n') then Some(' ') else m.a);
      var m2 :- Action(Decide(m1.a, m1.b), m1);
      Run(m2)
  }

  /** The byte-order-mark check of min(): a leading 0xEF (as seen by peek())
      makes three get() calls discard three bytes. */
  function SkipBom(p: seq<Byte>): (r: seq<Byte>)
    ensures Pop(p).c != Some(BOM_LEAD) ==> r == p
    ensures Pop(p).c == Some(BOM_LEAD) ==> |r| == (if |p| <= 3 then 0 else |p| - 3) && r == p[|p| - |r|..]
  {
    if Pop(p).c == Some(BOM_LEAD) then Drop(p, 3) else p
  }

  /** min() on a stream p with output `out` so far: skip a byte-order mark,
      prime a with a line feed, fill b with ACTION_DELETE_A_B, loop. */
  function MinFrom(p: seq<Byte>, out: seq<Byte>): (r: Result<seq<Byte>>)
    ensures r.Ok? ==> out <= r.value
  {
    var m :- DeleteAB(Config(Some('\n'), None, SkipBom(p), out));
    Run(m)
  }

  /** JSMin::minify(js). */
  function MinifySpec(js: seq<Byte>): (r: Result<seq<Byte>>)
    ensures js == [] ==> r == Ok([])
  {
    MinFrom(Source(js), [])
  }
}
