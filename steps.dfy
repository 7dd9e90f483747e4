/** One-step equations of the reference functions in module Reference: how
    each of them unfolds after one get(), in the form the loops of the JSMin
    class consume them. */
module Steps {
  import opened Base
  import opened Reference

  /** What is left of processRegex()'s `[...]` loop when it is about to test
      the byte a (the loop stops at `]` and spins at end of input). */
  ghost function ClassRest(a: Option<Byte>, p: seq<Byte>): Result<Scanned> {
    if a == Some(']') then Ok(Scanned([], p))
    else if a.None? then Spins
    else ClassFrom(a, p)
  }

  lemma PopFront(x: Byte, rest: seq<Byte>)
    ensures Pop([x] + rest) == Read(Some(x), rest)
  {
    assert ([x] + rest)[1..] == rest;
  }

  lemma PrependAssoc(s: seq<Byte>, t: seq<Byte>, r: Result<Scanned>)
    ensures Prepend(s, Prepend(t, r)) == Prepend(s + t, r)
  {
    if r.Ok? {
      assert s + (t + r.value.copied) == (s + t) + r.value.copied;
    }
  }

  lemma PrefixAppend(x: seq<Byte>, y: seq<Byte>)
    ensures x <= x + y
  {
  }

  lemma AppendAssoc(x: seq<Byte>, y: seq<Byte>, z: seq<Byte>)
    ensures x + y + z == x + (y + z)
  {
  }

  lemma PrependNothing(r: Result<Scanned>)
    ensures Prepend([], r) == r
  {
    if r.Ok? {
      assert [] + r.value.copied == r.value.copied;
    }
  }

  lemma ClassFromStep(c: Option<Byte>, p: seq<Byte>)
    ensures ClassFrom(c, p) == Prepend(Emitted(c), ClassRest(Pop(p).c, Pop(p).rest))
  {
    if Pop(p).c == Some(']') {
      assert Emitted(c) + [] == Emitted(c);
    }
  }

  lemma ScanStringClose(p: seq<Byte>, q: Byte, done: seq<Byte>)
    requires Pop(p).c == Some(q) && q != '\\'
    ensures Prepend(done, ScanString(p, q)) == Ok(Scanned(done, Pop(p).rest))
  {
    assert done + [] == done;
  }

  lemma StringEscape(p: seq<Byte>, p': seq<Byte>, q: Byte, e: Option<Byte>, rest: seq<Byte>)
    requires Pop(p) == Read(Some('\\'), p') && Pop(p') == Read(e, rest)
    ensures ScanString(p, q) == Prepend(['\\'] + Emitted(e), ScanString(rest, q))
  {
  }

  lemma StringCopy(p: seq<Byte>, q: Byte, c: Option<Byte>, rest: seq<Byte>)
    requires Pop(p) == Read(c, rest) && c != Some('\\') && c != Some(q) && Ord(c) > ORD_LF
    ensures ScanString(p, q) == Prepend(Emitted(c), ScanString(rest, q))
  {
  }

  /** A `[...]` class inside a regular expression, scanned up to its `]`. */
  lemma ScanRegexClass(p: seq<Byte>, cls: seq<Byte>, rest: seq<Byte>)
    requires Pop(p).c == Some('[')
    requires ClassFrom(Some('['), Pop(p).rest) == Ok(Scanned(cls, rest))
    ensures ScanRegex(p) == Prepend(cls + [']'], ScanRegex(rest))
  {
  }

  lemma RegexEscape(p: seq<Byte>, p': seq<Byte>, e: Option<Byte>, rest: seq<Byte>)
    requires Pop(p) == Read(Some('\\'), p') && Pop(p') == Read(e, rest)
    ensures ScanRegex(p) == Prepend(['\\'] + Emitted(e), ScanRegex(rest))
  {
  }

  lemma RegexCopy(p: seq<Byte>, c: Option<Byte>, rest: seq<Byte>)
    requires Pop(p) == Read(c, rest) && c != Some('[') && c != Some('/') && c != Some('\\') && Ord(c) > ORD_LF
    ensures ScanRegex(p) == Prepend(Emitted(c), ScanRegex(rest))
  {
  }

  lemma RegexLiteralScanned(p0: seq<Byte>, copied: seq<Byte>, rest: seq<Byte>)
    requires ScanRegex(p0) == Ok(Scanned(copied, rest))
    ensures NextSpec(rest).Ok? ==> RegexLiteral(p0) == Ok((copied, NextSpec(rest).value))
    ensures !NextSpec(rest).Ok? ==> RegexLiteral(p0) == NextSpec(rest).PropagateFailure()
  {
  }

  lemma ScanRegexClose(p: seq<Byte>, done: seq<Byte>)
    requires Pop(p).c == Some('/')
    ensures Prepend(done, ScanRegex(p)) == Ok(Scanned(done, Pop(p).rest))
  {
    assert done + [] == done;
  }

  /** One turn of the main loop, as Run takes it. */
  lemma RunStep(m: Config, m1: Config, cmd: Command)
    requires m.a.Some? && m1 == m.(a := if m.a == Some('\n') then Some(' ') else m.a)
    requires cmd == Decide(m1.a, m1.b)
    ensures Reference.Action(cmd, m1).Ok? ==> Run(m) == Run(Reference.Action(cmd, m1).value)
    ensures !Reference.Action(cmd, m1).Ok? ==> Run(m) == Reference.Action(cmd, m1).PropagateFailure()
    ensures Reference.Action(cmd, m1).Ok? ==> Measure(Reference.Action(cmd, m1).value) < Measure(m)
  {
  }

  /** The three get() calls that discard a byte-order mark. */
  lemma BomSkipped(p: seq<Byte>, q1: seq<Byte>, q2: seq<Byte>, q3: seq<Byte>, c2: Option<Byte>, c3: Option<Byte>)
    requires Pop(p) == Read(Some(BOM_LEAD), q1) && Pop(q1) == Read(c2, q2) && Pop(q2) == Read(c3, q3)
    ensures SkipBom(p) == q3
  {
  }

  lemma NoBom(p: seq<Byte>)
    requires Pop(p).c != Some(BOM_LEAD)
    ensures SkipBom(p) == p
  {
  }

  /** A failure keeps its kind whatever the type of value it stands in for. */
  lemma FailureCarried<T, U>(x: Result<T>, y: Result<U>)
    requires !y.Ok? && x == y.PropagateFailure()
    ensures !x.Ok? && x.PropagateFailure<seq<Byte>>() == y.PropagateFailure<seq<Byte>>()
  {
  }

  lemma RunDone(m: Config)
    requires m.a.None?
    ensures Run(m) == Ok(m.output)
  {
  }

  /** min() up to the end of its priming call action(ACTION_DELETE_A_B). */
  lemma MinFromPrimed(p: seq<Byte>, out: seq<Byte>, m: Config)
    requires m.a == Some('\n') && m.pending == SkipBom(p) && m.output == out
    ensures Reference.Action(ACTION_DELETE_A_B, m).Ok? ==> MinFrom(p, out) == Run(Reference.Action(ACTION_DELETE_A_B, m).value)
    ensures !Reference.Action(ACTION_DELETE_A_B, m).Ok? ==> MinFrom(p, out) == Reference.Action(ACTION_DELETE_A_B, m).PropagateFailure()
  {
    DeleteABIgnoresB(m, None);
    assert m.(b := None) == Config(Some('\n'), None, SkipBom(p), out);
  }

  /** ACTION_DELETE_A_B overwrites b before reading it. */
  lemma DeleteABIgnoresB(m: Config, b: Option<Byte>)
    ensures DeleteAB(m) == DeleteAB(m.(b := b))
  {
  }

  lemma DeleteAQuote(m: Config, s: Result<Scanned>)
    requires m.b.Some? && m.b.value in QUOTES && s == ScanString(m.pending, m.b.value)
    ensures s.Ok? ==> DeleteA(m) == Ok(Config(m.b, m.b, s.value.rest, m.output + [m.b.value] + s.value.copied))
    ensures !s.Ok? ==> DeleteA(m) == s.PropagateFailure()
  {
  }

  lemma DeleteAOther(m: Config)
    requires !(m.b.Some? && m.b.value in QUOTES)
    ensures DeleteA(m) == Ok(m.(a := m.b))
  {
  }

  lemma DeleteABFails(m: Config)
    requires !NextSpec(m.pending).Ok?
    ensures DeleteAB(m) == NextSpec(m.pending).PropagateFailure()
  {
  }

  lemma DeleteABKeeps(m: Config, n: Read)
    requires NextSpec(m.pending) == Ok(n) && !OpensRegex(m.a, n.c)
    ensures DeleteAB(m) == Ok(m.(b := n.c, pending := n.rest))
  {
  }

  lemma DeleteABRegex(m: Config, n: Read, lit: Result<(seq<Byte>, Read)>)
    requires NextSpec(m.pending) == Ok(n) && OpensRegex(m.a, n.c) && lit == RegexLiteral(n.rest)
    ensures lit.Ok? ==> DeleteAB(m) == Ok(Config(Some('/'), lit.value.1.c, lit.value.1.rest, m.output + [m.a.value, '/'] + lit.value.0))
    ensures !lit.Ok? ==> DeleteAB(m) == lit.PropagateFailure()
  {
  }
}
