/** What min() promises about its output: it only ever appends, a regular
    expression is recognised exactly after one of the REGEX_PREFIX bytes, a
    byte-order mark is dropped, a first word byte gets a leading space, and
    for code with no slash and no quote (so no literal, no comment and no
    division) the output is exactly Compacted of the input: the blanks
    removed except one space between two word bytes that a space separated. */
module EmissionProps {
  import opened Base
  import opened Reference
  import opened Steps
  import ReaderProps

  // ---------------------------------------------------------------------------
  // The output only grows (Run's own contract states it for the whole loop)

  /** What ACTION_KEEP_A writes stays at the front of what the rest of the
      chain adds. */
  lemma KeepAThenMore(m: Config)
    requires Reference.Action(ACTION_KEEP_A, m).Ok?
    ensures KeepA(m).output <= Reference.Action(ACTION_KEEP_A, m).value.output
  {
    var m2 := DeleteA(KeepA(m)).value;
    assert KeepA(m).output <= m2.output;
    assert m2.output <= DeleteAB(m2).value.output;
  }

  /** ACTION_DELETE_A_B writes something exactly when the byte it reads into
      b is a `/` that opens a regular expression, and then it writes a and
      the `/` first. */
  lemma DeleteABWritesOnlyRegex(m: Config)
    requires m.a.Some? && DeleteAB(m).Ok?
    ensures NextSpec(m.pending).Ok?
    ensures OpensRegex(m.a, NextSpec(m.pending).value.c) <==> |DeleteAB(m).value.output| > |m.output|
    ensures OpensRegex(m.a, NextSpec(m.pending).value.c) ==> m.output + [m.a.value, '/'] <= DeleteAB(m).value.output
    ensures !OpensRegex(m.a, NextSpec(m.pending).value.c) ==> DeleteAB(m).value.output == m.output
  {
    var n := NextSpec(m.pending).value;
    if OpensRegex(m.a, n.c) {
      var lit := RegexLiteral(n.rest);
      DeleteABRegex(m, n, lit);
      AppendAssoc(m.output, [m.a.value, '/'], lit.value.0);
      PrefixAppend(m.output + [m.a.value, '/'], lit.value.0);
    } else {
      DeleteABKeeps(m, n);
    }
  }

  // ---------------------------------------------------------------------------
  // The byte-order mark and the leading space

  /** The constructor's rewrite leaves the first byte alone, unless it starts a
      "\r\n" pair. */
  lemma ReplaceCrlfHead(s: seq<Byte>)
    requires s != []
    ensures ReplaceCrlf(s) != []
    ensures ReplaceCrlf(s)[0] == s[0] || ReplaceCrlf(s)[0] == '\n'
    ensures s[0] != '\r' ==> ReplaceCrlf(s)[0] == s[0]
  {
  }

  /** The rewrite passes a prefix without carriage returns through unchanged. */
  lemma ReplaceCrlfPrefix(x: Byte, s: seq<Byte>)
    requires x != '\r'
    ensures ReplaceCrlf([x] + s) == [x] + ReplaceCrlf(s)
  {
    assert ([x] + s)[1..] == s;
  }

  lemma FoldAllAppend(s: seq<Byte>, t: seq<Byte>)
    ensures FoldAll(s + t) == FoldAll(s) + FoldAll(t)
  {
  }

  /** An input that starts with the byte 0xEF loses its first three bytes;
      the other two bytes of the mark are not looked at. */
  lemma MinifySkipsByteOrderMark(x: Byte, y: Byte, js: seq<Byte>)
    requires x != '\r' && y != '\r'
    requires js == [] || js[0] != BOM_LEAD
    ensures MinifySpec([BOM_LEAD, x, y] + js) == MinifySpec(js)
  {
    var p := Source([BOM_LEAD, x, y] + js);
    SourceAfterMark(x, y, js);
    assert SkipBom(p) == Source(js);
    if js != [] {
      ReplaceCrlfHead(js);
    }
    NoBom(Source(js));
  }

  /** The constructor's stream for an input that starts with a byte-order
      mark: the three bytes, folded, then the stream of the rest. */
  lemma SourceAfterMark(x: Byte, y: Byte, js: seq<Byte>)
    requires x != '\r' && y != '\r'
    ensures Source([BOM_LEAD, x, y] + js) == FoldAll([BOM_LEAD, x, y]) + Source(js)
    ensures |FoldAll([BOM_LEAD, x, y])| == 3 && FoldAll([BOM_LEAD, x, y])[0] == BOM_LEAD
  {
    ReplaceCrlfPrefix(y, js);
    ReplaceCrlfPrefix(x, [y] + js);
    ReplaceCrlfPrefix(BOM_LEAD, [x, y] + js);
    assert [BOM_LEAD] + ([x] + ([y] + js)) == [BOM_LEAD, x, y] + js;
    var r := ReplaceCrlf(js);
    assert ReplaceCrlf([BOM_LEAD, x, y] + js) == [BOM_LEAD, x, y] + r;
    FoldAllAppend([BOM_LEAD, x, y], r);
  }

  /** The primed line feed in a acts as a space before the first token: when
      the input starts with blanks (or nothing) and then a word byte, the
      output starts with a space, whatever follows. */
  lemma MinifyLeadingSpace(w: seq<Byte>, c: Byte, rest: seq<Byte>)
    requires Significant(w) == [] && IsAlphaNum(Some(c))
    requires (w + [c] + rest)[0] != BOM_LEAD
    ensures MinifySpec(w + [c] + rest).Ok? ==>
      |MinifySpec(w + [c] + rest).value| > 0 && MinifySpec(w + [c] + rest).value[0] == ' '
  {
    var b := SourceBlankPrefix(w, c, rest);
    var p := b + [c] + Source(rest);
    assert p[0] == (if b == [] then c else b[0]);
    NoBom(p);
    var m0 := Config(Some('\n'), None, p, []);
    assert p == [p[0]] + p[1..];
    ReaderProps.NextOtherByte(p[0], p[1..]);
    DeleteABKeeps(m0, Read(Some(p[0]), p[1..]));
    assert Reference.Action(ACTION_DELETE_A_B, m0) == DeleteAB(m0);
    MinFromPrimed(p, [], m0);
    PopFront(p[0], p[1..]);
    LeadingBlanksRun(Some('\n'), b, c, Source(rest));
  }

  predicate Blanks(s: seq<Byte>) {
    forall k :: 0 <= k < |s| ==> s[k] == ' ' || s[k] == '\n'
  }

  /** The main loop from a blank a, with only blanks before a word byte c
      still to come: the first byte written is a space. */
  lemma {:induction false} LeadingBlanksRun(a: Option<Byte>, b: seq<Byte>, c: Byte, s: seq<Byte>)
    requires a == Some(' ') || a == Some('\n')
    requires Blanks(b) && IsAlphaNum(Some(c))
    ensures var p := b + [c] + s; var r := Run(Config(a, Pop(p).c, Pop(p).rest, []));
      r.Ok? ==> [' '] <= r.value
    decreases |b|
  {
    var p := b + [c] + s;
    if b == [] {
      assert p == [c] + s;
      PopFront(c, s);
      LeadingWordRun(a, c, s);
    } else {
      var d := b[0];
      var q := b[1..] + [c] + s;
      assert p == [d] + q;
      PopFront(d, q);
      assert q[0] == (if b[1..] == [] then c else b[1..][0]);
      LeadingBlankStep(a, d, q);
      LeadingBlanksRun(Some(d), b[1..], c, s);
    }
  }

  /** A blank in b after a blank in a is dropped. */
  lemma LeadingBlankStep(a: Option<Byte>, d: Byte, q: seq<Byte>)
    requires a == Some(' ') || a == Some('\n')
    requires d == ' ' || d == '\n'
    requires q != [] && q[0] != '/'
    ensures Run(Config(a, Some(d), q, [])) == Run(Config(Some(d), Pop(q).c, Pop(q).rest, []))
  {
    var m := Config(a, Some(d), q, []);
    var m1 := m.(a := Some(' '));
    RunStep(m, m1, ACTION_DELETE_A);
    DeleteAOther(m1);
    assert q == [q[0]] + q[1..];
    ReaderProps.NextOtherByte(q[0], q[1..]);
    DeleteABKeeps(m1.(a := Some(d)), Read(Some(q[0]), q[1..]));
    PopFront(q[0], q[1..]);
  }

  /** A word byte in b after a blank in a: the blank is written as a space. */
  lemma LeadingWordRun(a: Option<Byte>, c: Byte, s: seq<Byte>)
    requires a == Some(' ') || a == Some('\n')
    requires IsAlphaNum(Some(c))
    ensures Run(Config(a, Some(c), s, [])).Ok? ==> [' '] <= Run(Config(a, Some(c), s, [])).value
  {
    var m := Config(a, Some(c), s, []);
    var m1 := m.(a := Some(' '));
    RunStep(m, m1, ACTION_KEEP_A);
    if Run(m).Ok? {
      KeepAThenMore(m1);
    }
  }

  /** The stream of an input made of blanks, a byte above space, and a rest:
      blanks, that byte, then the stream of the rest. */
  lemma SourceBlankPrefix(w: seq<Byte>, c: Byte, rest: seq<Byte>) returns (b: seq<Byte>)
    requires Significant(w) == [] && c as int > ORD_SPACE
    ensures Source(w + [c] + rest) == b + [c] + Source(rest)
    ensures Blanks(b) && (b == [] ==> w == [])
  {
    ReplaceCrlfBreak(w, [c] + rest);
    assert w + [c] + rest == w + ([c] + rest);
    ReplaceCrlfPrefix(c, rest);
    BlankBytes(w);
    assert PlainSeq(w);
    var r := ReplaceCrlf(w);
    ReplaceCrlfPlain(w);
    FoldAllPlain(r);
    b := FoldAll(r);
    BlankBytes(b);
    FoldAllAppend(r, [c] + ReplaceCrlf(rest));
    FoldAllAppend([c], ReplaceCrlf(rest));
    assert FoldAll([c]) == [c];
    if w != [] {
      ReplaceCrlfHead(w);
    }
  }

  /** A text with no significant byte holds only bytes at or below space. */
  lemma {:induction false} BlankBytes(s: seq<Byte>)
    requires Significant(s) == []
    ensures forall k :: 0 <= k < |s| ==> s[k] as int <= ORD_SPACE
    decreases |s|
  {
    if s != [] {
      BlankBytes(s[1..]);
      assert forall k :: 1 <= k < |s| ==> s[k] == s[1..][k - 1];
    }
  }

  /** The rewrite works on the two sides of a point not followed by a line
      feed separately. */
  lemma {:induction false} ReplaceCrlfBreak(w: seq<Byte>, t: seq<Byte>)
    requires t != [] && t[0] != '\n'
    ensures ReplaceCrlf(w + t) == ReplaceCrlf(w) + ReplaceCrlf(t)
    decreases |w|
  {
    if w == [] {
      assert w + t == t;
    } else if |w| >= 2 && w[0] == '\r' && w[1] == '\n' {
      assert (w + t)[2..] == w[2..] + t;
      ReplaceCrlfBreak(w[2..], t);
      AppendAssoc(['\n'], ReplaceCrlf(w[2..]), ReplaceCrlf(t));
    } else {
      assert (w + t)[0] == w[0] && (w + t)[1] == (if |w| >= 2 then w[1] else t[0]);
      assert (w + t)[1..] == w[1..] + t;
      ReplaceCrlfBreak(w[1..], t);
      AppendAssoc([w[0]], ReplaceCrlf(w[1..]), ReplaceCrlf(t));
    }
  }

  // ---------------------------------------------------------------------------
  // Code without literals and comments

  /** A byte that cannot start a string, a comment or a regular expression. */
  predicate Plain(c: Byte) {
    c != '/' && c !in QUOTES
  }

  predicate PlainOpt(c: Option<Byte>) {
    c.None? || Plain(c.value)
  }

  predicate PlainSeq(s: seq<Byte>) {
    forall k :: 0 <= k < |s| ==> Plain(s[k])
  }

  /** The bytes of s that are neither whitespace nor control bytes. */
  function Significant(s: seq<Byte>): (r: seq<Byte>)
    ensures |r| <= |s|
    decreases |s|
  {
    if s == [] then []
    else (if s[0] as int > ORD_SPACE then [s[0]] else []) + Significant(s[1..])
  }

  lemma {:induction false} SignificantAppend(s: seq<Byte>, t: seq<Byte>)
    ensures Significant(s + t) == Significant(s) + Significant(t)
    decreases |s|
  {
    if s != [] {
      var h := if s[0] as int > ORD_SPACE then [s[0]] else [];
      assert (s + t)[0] == s[0];
      assert (s + t)[1..] == s[1..] + t;
      SignificantAppend(s[1..], t);
      AppendAssoc(h, Significant(s[1..]), Significant(t));
    } else {
      assert s + t == t;
    }
  }

  predicate NoLineFeed(s: seq<Byte>) {
    forall k :: 0 <= k < |s| ==> s[k] != '\n'
  }

  /** Every space has an alphanumeric byte (or the start of the output) on
      its left and an alphanumeric byte (or the end of the output) on its
      right. */
  predicate SpacesBetweenWords(s: seq<Byte>) {
    forall k :: 0 <= k < |s| && s[k] == ' ' ==>
      (k == 0 || IsAlphaNum(Some(s[k - 1]))) && (k + 1 < |s| ==> IsAlphaNum(Some(s[k + 1])))
  }

  predicate EndsWithSpace(s: seq<Byte>) {
    |s| > 0 && s[|s| - 1] == ' '
  }

  /** Everything that still has to be read or written, reduced to its
      significant bytes. */
  function Remaining(m: Config): seq<Byte> {
    Significant(m.output) + Significant(Emitted(m.a)) + Significant(Emitted(m.b)) + Significant(m.pending)
  }

  /** The invariant of the main loop on plain code. */
  predicate Good(m: Config) {
    && PlainOpt(m.a) && PlainOpt(m.b) && PlainSeq(m.pending)
    && (m.b.None? ==> m.pending == [])
    && (m.a.None? ==> m.b.None?)
    && NoLineFeed(m.output) && SpacesBetweenWords(m.output)
    && (EndsWithSpace(m.output) ==> IsAlphaNum(m.a))
    && (m.a == Some(' ') || m.a == Some('\n') ==> m.output == [] || IsAlphaNum(Some(m.output[|m.output| - 1])))
  }

  /** next() on plain code is get(). */
  lemma NextPlain(p: seq<Byte>)
    requires PlainSeq(p)
    ensures NextSpec(p) == Ok(Pop(p))
  {
  }

  /** Taking the first byte off a stream splits its significant bytes. */
  lemma SignificantPop(p: seq<Byte>)
    ensures Significant(p) == Significant(Emitted(Pop(p).c)) + Significant(Pop(p).rest)
  {
    if p != [] {
      assert p == [p[0]] + p[1..];
      SignificantAppend([p[0]], p[1..]);
    }
  }

  /** A space or a line feed is not significant. */
  lemma BlankInsignificant(c: Option<Byte>)
    requires c == Some(' ') || c == Some('\n')
    ensures Significant(Emitted(c)) == []
  {
  }

  /** The main loop's pair after one turn on plain code: a and b are shifted
      by one byte (keep is true) or b alone is refilled (keep is false), and
      x, when present, is written. */
  function Shifted(m1: Config, shift: bool, x: Option<Byte>): Config {
    Config(if shift then m1.b else m1.a, Pop(m1.pending).c, Pop(m1.pending).rest, m1.output + Emitted(x))
  }

  /** The action chain on plain code: no literal opens and next() is get(). */
  lemma PlainAction(cmd: Command, m1: Config)
    requires m1.a.Some? && m1.a != Some('\n') && PlainOpt(m1.b) && PlainSeq(m1.pending)
    ensures Reference.Action(cmd, m1) ==
      Ok(Shifted(m1, cmd != ACTION_DELETE_A_B, if cmd == ACTION_KEEP_A then m1.a else None))
  {
    var k := if cmd <= ACTION_KEEP_A then KeepA(m1) else m1;
    assert cmd == ACTION_KEEP_A ==> k == m1.(output := m1.output + Emitted(m1.a));
    assert cmd != ACTION_KEEP_A ==> k == m1.(output := m1.output + Emitted(None));
    var d := if cmd <= ACTION_DELETE_A then k.(a := k.b) else k;
    if cmd <= ACTION_DELETE_A {
      DeleteAOther(k);
    }
    NextPlain(d.pending);
    DeleteABKeeps(d, Pop(d.pending));
  }

  /** The first turn's conversion of a line feed in a to a space. */
  function Converted(m: Config): Config {
    m.(a := if m.a == Some('\n') then Some(' ') else m.a)
  }

  /** Each turn keeps the invariant. */
  lemma GoodStep(m: Config)
    requires Good(m) && m.a.Some?
    ensures var m1 := Converted(m); var cmd := Decide(m1.a, m1.b);
      Good(Shifted(m1, cmd != ACTION_DELETE_A_B, if cmd == ACTION_KEEP_A then m1.a else None))
  {
    var m1 := Converted(m);
    var cmd := Decide(m1.a, m1.b);
    if cmd == ACTION_KEEP_A {
      var x := m1.a.value;
      var out := m.output + [x];
      assert Emitted(m1.a) == [x];
      assert forall i :: 0 <= i < |m.output| ==> out[i] == m.output[i];
      assert SpacesBetweenWords(out);
    } else {
      assert m1.output + Emitted(None) == m.output;
    }
  }

  /** The significant bytes still to be written after a turn that writes x
      and leaves a' in a. */
  lemma RemainingShift(m1: Config, x: Option<Byte>, a': Option<Byte>)
    ensures Remaining(Config(a', Pop(m1.pending).c, Pop(m1.pending).rest, m1.output + Emitted(x))) ==
      Significant(m1.output) + Significant(Emitted(x)) + Significant(Emitted(a')) + Significant(m1.pending)
  {
    SignificantAppend(m1.output, Emitted(x));
    SignificantPop(m1.pending);
  }

  /** Each turn keeps the significant bytes still to be written. */
  lemma RemainingStep(m: Config)
    requires Good(m) && m.a.Some?
    ensures var m1 := Converted(m); var cmd := Decide(m1.a, m1.b);
      Remaining(Shifted(m1, cmd != ACTION_DELETE_A_B, if cmd == ACTION_KEEP_A then m1.a else None)) == Remaining(m)
  {
    var m1 := Converted(m);
    var cmd := Decide(m1.a, m1.b);
    var x := if cmd == ACTION_KEEP_A then m1.a else None;
    var a' := if cmd != ACTION_DELETE_A_B then m1.b else m1.a;
    RemainingShift(m1, x, a');
    assert Significant(Emitted(m1.a)) == Significant(Emitted(m.a)) by {
      if m.a == Some('\n') {
        BlankInsignificant(m.a);
        BlankInsignificant(m1.a);
      }
    }
    if cmd == ACTION_DELETE_A {
      BlankInsignificant(m1.a);
    } else if cmd == ACTION_DELETE_A_B {
      BlankInsignificant(m1.b);
    }
  }

  /** The main loop on plain code: it cannot fail, and what it writes keeps
      every significant byte, in order, with no line feed and with spaces only
      between alphanumeric bytes, never at the end. */
  lemma {:induction false} RunPlain(m: Config)
    requires Good(m)
    ensures Run(m).Ok?
    ensures NoLineFeed(Run(m).value) && SpacesBetweenWords(Run(m).value)
    ensures !EndsWithSpace(Run(m).value)
    ensures Significant(Run(m).value) == Remaining(m)
    decreases Measure(m)
  {
    if m.a.None? {
      RunDone(m);
    } else {
      var m1 := Converted(m);
      var cmd := Decide(m1.a, m1.b);
      RunStep(m, m1, cmd);
      PlainAction(cmd, m1);
      GoodStep(m);
      RemainingStep(m);
      RunPlain(Reference.Action(cmd, m1).value);
    }
  }

  /** The rewrite and the folding keep plain text plain. */
  lemma ReplaceCrlfPlain(s: seq<Byte>)
    requires PlainSeq(s)
    ensures PlainSeq(ReplaceCrlf(s))
    ensures Significant(ReplaceCrlf(s)) == Significant(s)
  {
    ReplaceCrlfStaysPlain(s);
    ReplaceCrlfSignificant(s);
  }

  lemma {:induction false} ReplaceCrlfStaysPlain(s: seq<Byte>)
    requires PlainSeq(s)
    ensures PlainSeq(ReplaceCrlf(s))
    decreases |s|
  {
    if |s| >= 2 && s[0] == '\r' && s[1] == '\n' {
      ReplaceCrlfStaysPlain(s[2..]);
    } else if s != [] {
      ReplaceCrlfStaysPlain(s[1..]);
    }
  }

  lemma {:induction false} ReplaceCrlfSignificant(s: seq<Byte>)
    ensures Significant(ReplaceCrlf(s)) == Significant(s)
    decreases |s|
  {
    if |s| >= 2 && s[0] == '\r' && s[1] == '\n' {
      ReplaceCrlfSignificant(s[2..]);
      SignificantAppend(['\n'], ReplaceCrlf(s[2..]));
      assert s == ['\r', '\n'] + s[2..];
      SignificantAppend(['\r', '\n'], s[2..]);
    } else if s != [] {
      ReplaceCrlfSignificant(s[1..]);
      SignificantAppend([s[0]], ReplaceCrlf(s[1..]));
      assert s == [s[0]] + s[1..];
      SignificantAppend([s[0]], s[1..]);
    }
  }

  lemma {:induction false} FoldAllPlain(s: seq<Byte>)
    requires PlainSeq(s)
    ensures PlainSeq(FoldAll(s))
    ensures Significant(FoldAll(s)) == Significant(s)
    decreases |s|
  {
    if s != [] {
      FoldAllPlain(s[1..]);
      assert FoldAll(s)[1..] == FoldAll(s[1..]);
    }
  }

  /** The constructor's stream for plain code: plain, with the same
      significant bytes, and not starting with 0xEF unless the input does. */
  lemma SourcePlain(js: seq<Byte>)
    requires PlainSeq(js) && (js == [] || js[0] != BOM_LEAD)
    ensures PlainSeq(Source(js)) && Significant(Source(js)) == Significant(js)
    ensures Pop(Source(js)).c != Some(BOM_LEAD)
  {
    ReplaceCrlfPlain(js);
    FoldAllPlain(ReplaceCrlf(js));
    if js != [] {
      ReplaceCrlfHead(js);
    }
  }

  /** min() up to its main loop on a plain stream without a byte-order
      mark: b holds the first byte and nothing is written. */
  lemma PrimedPlain(p: seq<Byte>) returns (m: Config)
    requires PlainSeq(p) && Pop(p).c != Some(BOM_LEAD)
    ensures m == Config(Some('\n'), Pop(p).c, Pop(p).rest, [])
    ensures MinFrom(p, []) == Run(m)
    ensures Good(m) && Remaining(m) == Significant(p)
  {
    NoBom(p);
    var m0 := Config(Some('\n'), None, p, []);
    NextPlain(p);
    DeleteABKeeps(m0, Pop(p));
    m := Config(Some('\n'), Pop(p).c, Pop(p).rest, []);
    assert Reference.Action(ACTION_DELETE_A_B, m0) == DeleteAB(m0) == Ok(m);
    MinFromPrimed(p, [], m0);
    StartGood(p);
    StartRemaining(p);
  }

  lemma StartGood(p: seq<Byte>)
    requires PlainSeq(p)
    ensures Good(Config(Some('\n'), Pop(p).c, Pop(p).rest, []))
  {
    if p != [] {
      assert forall k :: 0 <= k < |p| - 1 ==> Pop(p).rest[k] == p[k + 1];
    }
  }

  lemma StartRemaining(p: seq<Byte>)
    ensures Remaining(Config(Some('\n'), Pop(p).c, Pop(p).rest, [])) == Significant(p)
  {
    var m0 := Config(Some('\n'), None, p, []);
    RemainingShift(m0, None, Some('\n'));
    assert m0.output + Emitted(None) == [];
    BlankInsignificant(Some('\n'));
    assert Significant([]) == [];
  }

  /** JSMin::minify on code without quotes and slashes (so without strings,
      comments and regular expressions): the result is never an exception,
      keeps every significant byte of the input in order, has no line feed,
      and keeps a space only between two alphanumeric bytes (the first byte
      excepted), never at its end. */
  lemma MinifyPlain(js: seq<Byte>)
    requires PlainSeq(js) && (js == [] || js[0] != BOM_LEAD)
    ensures MinifySpec(js).Ok?
    ensures NoLineFeed(MinifySpec(js).value) && SpacesBetweenWords(MinifySpec(js).value)
    ensures !EndsWithSpace(MinifySpec(js).value)
    ensures Significant(MinifySpec(js).value) == Significant(js)
    ensures MinifySpec(js) == Ok(Compacted(Source(js), true, true))
  {
    var p := Source(js);
    SourcePlain(js);
    var m := PrimedPlain(p);
    RunPlain(m);
    RunCompacted(m);
    PopRejoin(p);
    assert [] + Tail(m) == Compacted(p, true, true);
  }

  /** The leading space in the smallest case: minify("a") is " a". */
  lemma MinifyOneLetter()
    ensures MinifySpec(['a']) == Ok([' ', 'a'])
  {
    var p := Source(['a']);
    assert p == ['a'];
    PopFront('a', []);
    var m := PrimedPlain(p);
    var m1 := m.(a := Some(' '));
    RunStep(m, m1, ACTION_KEEP_A);
    PlainAction(ACTION_KEEP_A, m1);
    var m2 := Config(Some('a'), None, [], [' ']);
    assert Shifted(m1, true, m1.a) == m2;
    RunStep(m2, m2, ACTION_KEEP_A);
    PlainAction(ACTION_KEEP_A, m2);
    assert Shifted(m2, true, m2.a) == Config(None, None, [], [' ', 'a']);
    RunDone(Config(None, None, [], [' ', 'a']));
  }

  // ---------------------------------------------------------------------------
  // The exact output on code without literals and comments

  /** The minified form of a plain stream, read left to right: line feeds
      and spaces are dropped and every other byte is kept; one space goes
      before a word byte that is the first byte kept, or that follows a word
      byte across blanks among which is a space. wordBefore says whether the
      last byte kept is a word byte, owed whether a space is due before the
      next word byte. */
  function Compacted(p: seq<Byte>, wordBefore: bool, owed: bool): seq<Byte>
    decreases |p|
  {
    if p == [] then []
    else if p[0] == '\n' then Compacted(p[1..], wordBefore, owed)
    else if p[0] == ' ' then Compacted(p[1..], wordBefore, owed || wordBefore)
    else (if owed && IsAlphaNum(Some(p[0])) then [' '] else []) + [p[0]] + Compacted(p[1..], IsAlphaNum(Some(p[0])), false)
  }

  lemma CompactedCons(y: Byte, p: seq<Byte>, wordBefore: bool, owed: bool)
    ensures Compacted([y] + p, wordBefore, owed) ==
      if y == '\n' then Compacted(p, wordBefore, owed)
      else if y == ' ' then Compacted(p, wordBefore, owed || wordBefore)
      else (if owed && IsAlphaNum(Some(y)) then [' '] else []) + [y] + Compacted(p, IsAlphaNum(Some(y)), false)
  {
    assert ([y] + p)[1..] == p;
  }

  lemma PopRejoin(p: seq<Byte>)
    ensures Emitted(Pop(p).c) + Pop(p).rest == p
  {
    if p != [] {
      assert p == [p[0]] + p[1..];
    }
  }

  /** What the loop still has to write from a state: a blank a stands for a
      space due before a following word byte; any other a is written next. */
  function Tail(m: Config): seq<Byte> {
    match m.a
    case None => []
    case Some(x) =>
      if x == ' ' || x == '\n' then Compacted(Emitted(m.b) + m.pending, true, true)
      else [x] + Compacted(Emitted(m.b) + m.pending, IsAlphaNum(m.a), false)
  }

  /** A turn from a blank a keeps the output plus what is still to be written. */
  lemma TailStepBlank(m: Config)
    requires Good(m) && (m.a == Some(' ') || m.a == Some('\n'))
    ensures var m1 := Converted(m); var cmd := Decide(m1.a, m1.b);
      var m' := Shifted(m1, cmd != ACTION_DELETE_A_B, if cmd == ACTION_KEEP_A then m1.a else None);
      m'.output + Tail(m') == m.output + Tail(m)
  {
    var m1 := Converted(m);
    var cmd := Decide(m1.a, m1.b);
    var m' := Shifted(m1, cmd != ACTION_DELETE_A_B, if cmd == ACTION_KEEP_A then m1.a else None);
    PopRejoin(m.pending);
    if m.b.None? {
      assert m'.output == m.output + [];
    } else if IsAlphaNum(m.b) {
      TailBlankWord(m.output, m.b.value, m.pending);
    } else {
      assert cmd == ACTION_DELETE_A;
      assert m' == Config(m.b, Pop(m.pending).c, Pop(m.pending).rest, m.output + []);
      CompactedCons(m.b.value, m.pending, true, true);
    }
  }

  lemma TailBlankWord(out: seq<Byte>, y: Byte, p: seq<Byte>)
    requires IsAlphaNum(Some(y))
    ensures out + [' '] + Tail(Config(Some(y), Pop(p).c, Pop(p).rest, out + [' '])) ==
      out + Compacted([y] + p, true, true)
  {
    PopRejoin(p);
    CompactedCons(y, p, true, true);
    AppendAssoc(out, [' '], [y] + Compacted(p, true, false));
  }

  /** A turn from any other a keeps the output plus what is still to be
      written. */
  lemma TailStepWord(m: Config)
    requires Good(m) && m.a.Some? && m.a != Some(' ') && m.a != Some('\n')
    ensures var cmd := Decide(m.a, m.b);
      var m' := Shifted(m, cmd != ACTION_DELETE_A_B, if cmd == ACTION_KEEP_A then m.a else None);
      m'.output + Tail(m') == m.output + Tail(m)
  {
    var x := m.a.value;
    if m.b.None? {
      assert Tail(m) == [x] + [];
      assert Emitted(m.a) == [x];
    } else if m.b == Some(' ') || m.b == Some('\n') {
      TailWordBlank(m);
    } else {
      TailWordWord(m.output, x, m.b.value, m.pending);
      assert Emitted(m.a) == [x];
    }
  }

  lemma TailWordBlank(m: Config)
    requires Good(m) && m.a.Some? && m.a != Some(' ') && m.a != Some('\n')
    requires m.b == Some(' ') || m.b == Some('\n')
    ensures var cmd := Decide(m.a, m.b);
      var m' := Shifted(m, cmd != ACTION_DELETE_A_B, if cmd == ACTION_KEEP_A then m.a else None);
      m'.output + Tail(m') == m.output + Tail(m)
  {
    var cmd := Decide(m.a, m.b);
    var m' := Shifted(m, cmd != ACTION_DELETE_A_B, if cmd == ACTION_KEEP_A then m.a else None);
    PopRejoin(m.pending);
    CompactedCons(m.b.value, m.pending, IsAlphaNum(m.a), false);
    if cmd == ACTION_DELETE_A_B {
      assert m'.output == m.output + [];
    }
  }

  lemma TailWordWord(out: seq<Byte>, x: Byte, y: Byte, p: seq<Byte>)
    requires x != ' ' && x != '\n' && y != ' ' && y != '\n'
    ensures out + [x] + Tail(Config(Some(y), Pop(p).c, Pop(p).rest, out + [x])) ==
      out + Tail(Config(Some(x), Some(y), p, out))
  {
    PopRejoin(p);
    CompactedCons(y, p, IsAlphaNum(Some(x)), false);
    assert Emitted(Some(y)) + p == [y] + p;
    AppendAssoc(out, [x], [y] + Compacted(p, IsAlphaNum(Some(y)), false));
  }

  /** The main loop on plain code writes exactly the compacted stream. */
  lemma {:induction false} RunCompacted(m: Config)
    requires Good(m)
    ensures Run(m) == Ok(m.output + Tail(m))
    decreases Measure(m)
  {
    if m.a.None? {
      RunDone(m);
      assert m.output + [] == m.output;
    } else {
      var m1 := Converted(m);
      var cmd := Decide(m1.a, m1.b);
      RunStep(m, m1, cmd);
      PlainAction(cmd, m1);
      GoodStep(m);
      if m.a == Some(' ') || m.a == Some('\n') {
        TailStepBlank(m);
      } else {
        TailStepWord(m);
      }
      RunCompacted(Reference.Action(cmd, m1).value);
    }
  }

  /** Blanks between two bytes change nothing but whether a space is due:
      one is due after a word byte exactly when the blanks hold a space. */
  lemma {:induction false} CompactedBlanks(r: seq<Byte>, t: seq<Byte>, wordBefore: bool, owed: bool)
    requires Blanks(r)
    ensures Compacted(r + t, wordBefore, owed) == Compacted(t, wordBefore, owed || (wordBefore && ' ' in r))
    decreases |r|
  {
    if r == [] {
      assert r + t == t;
    } else {
      assert r + t == [r[0]] + (r[1..] + t);
      assert r == [r[0]] + r[1..];
      CompactedCons(r[0], r[1..] + t, wordBefore, owed);
      CompactedBlanks(r[1..], t, wordBefore, if r[0] == ' ' then owed || wordBefore else owed);
    }
  }

  /** Compacting a stream in two parts: the compacted first part, then the
      second part compacted from the state the first leaves. */
  lemma {:induction false} CompactedSplit(s: seq<Byte>, t: seq<Byte>, wordBefore: bool, owed: bool)
    returns (pre: seq<Byte>, wordAfter: bool, owedAfter: bool)
    ensures pre == Compacted(s, wordBefore, owed)
    ensures Compacted(s + t, wordBefore, owed) == pre + Compacted(t, wordAfter, owedAfter)
    decreases |s|
  {
    if s == [] {
      assert s + t == t;
      pre, wordAfter, owedAfter := [], wordBefore, owed;
    } else {
      var y := s[0];
      assert s + t == [y] + (s[1..] + t);
      assert s == [y] + s[1..];
      CompactedCons(y, s[1..] + t, wordBefore, owed);
      CompactedCons(y, s[1..], wordBefore, owed);
      if y == '\n' {
        pre, wordAfter, owedAfter := CompactedSplit(s[1..], t, wordBefore, owed);
      } else if y == ' ' {
        pre, wordAfter, owedAfter := CompactedSplit(s[1..], t, wordBefore, owed || wordBefore);
      } else {
        var h := (if owed && IsAlphaNum(Some(y)) then [' '] else []) + [y];
        var p2;
        p2, wordAfter, owedAfter := CompactedSplit(s[1..], t, IsAlphaNum(Some(y)), false);
        pre := h + p2;
        AppendAssoc(h, p2, Compacted(t, wordAfter, owedAfter));
      }
    }
  }

  /** In the compacted stream, two word bytes with only blanks between them
      are separated by one space when the blanks hold a space, and by
      nothing otherwise. */
  lemma CompactedSeparates(u: seq<Byte>, x: Byte, r: seq<Byte>, y: Byte, v: seq<Byte>) returns (pre: seq<Byte>)
    requires IsAlphaNum(Some(x)) && IsAlphaNum(Some(y)) && Blanks(r)
    ensures Compacted(u + [x] + r + [y] + v, true, true) ==
      pre + [x] + (if ' ' in r then [' '] else []) + [y] + Compacted(v, true, false)
  {
    var t := [x] + (r + ([y] + v));
    assert u + [x] + r + [y] + v == u + t;
    var p0, wb, o := CompactedSplit(u, t, true, true);
    var s0 := CompactedPair(x, r, y, v, wb, o);
    pre := p0 + s0;
    var sep: seq<Byte> := if ' ' in r then [' '] else [];
    var tail := Compacted(v, true, false);
    assert p0 + (s0 + [x] + sep + [y] + tail) == pre + [x] + sep + [y] + tail;
  }

  lemma CompactedPair(x: Byte, r: seq<Byte>, y: Byte, v: seq<Byte>, wordBefore: bool, owed: bool) returns (s0: seq<Byte>)
    requires IsAlphaNum(Some(x)) && IsAlphaNum(Some(y)) && Blanks(r)
    ensures Compacted([x] + (r + ([y] + v)), wordBefore, owed) ==
      s0 + [x] + (if ' ' in r then [' '] else []) + [y] + Compacted(v, true, false)
  {
    CompactedCons(x, r + ([y] + v), wordBefore, owed);
    CompactedBlanks(r, [y] + v, true, false);
    CompactedCons(y, v, true, ' ' in r);
    s0 := if owed then [' '] else [];
    var sep: seq<Byte> := if ' ' in r then [' '] else [];
    var tail := Compacted(v, true, false);
    assert s0 + [x] + (sep + [y] + tail) == s0 + [x] + sep + [y] + tail;
  }
}
