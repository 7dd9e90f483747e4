/** Worked inputs: what JSMin::minify returns for a handful of short scripts,
    each derived step by step through the main loop. They pin the places
    where the code does something a reader of its comments might not expect:
    line breaks between words, block comments between words, a slash that is
    division, a literal that runs into a line break or the end of input, and
    a script that opens with a regular expression. */
module Behaviour {
  import opened Base
  import opened Reference
  import opened Steps
  import opened ReaderProps
  import opened ScannerProps
  import EmissionProps

  // ---------------------------------------------------------------------------
  // One turn of the main loop with its inputs spelled out

  /** Text without carriage returns or control bytes reaches get() as it is. */
  lemma SourcePrintable(js: seq<Byte>)
    requires forall k :: 0 <= k < |js| ==> js[k] == '\n' || js[k] as int >= ORD_SPACE
    ensures Source(js) == js
  {
    SourceWithoutCr(js);
  }

  /** min() up to its main loop, when the first next() gives n. */
  lemma Started(js: seq<Byte>, n: Read)
    requires Source(js) == js && js != [] && js[0] != BOM_LEAD
    requires NextSpec(js) == Ok(n) && !OpensRegex(Some('\n'), n.c)
    ensures MinifySpec(js) == Run(Config(Some('\n'), n.c, n.rest, []))
  {
    NoBom(js);
    var m0 := Config(Some('\n'), None, js, []);
    DeleteABKeeps(m0, n);
    assert Reference.Action(ACTION_DELETE_A_B, m0) == DeleteAB(m0);
    MinFromPrimed(js, [], m0);
  }

  /** A turn that runs ACTION_KEEP_A and reads n into b, opening nothing. */
  lemma RunKeep(m: Config, n: Read)
    requires m.a.Some? && Decide(if m.a == Some('\n') then Some(' ') else m.a, m.b) == ACTION_KEEP_A
    requires !(m.b.Some? && m.b.value in QUOTES)
    requires NextSpec(m.pending) == Ok(n) && !OpensRegex(m.b, n.c)
    ensures Run(m) == Run(Config(m.b, n.c, n.rest, m.output + [if m.a == Some('\n') then ' ' else m.a.value]))
  {
    var m1 := m.(a := if m.a == Some('\n') then Some(' ') else m.a);
    RunStep(m, m1, ACTION_KEEP_A);
    var k := KeepA(m1);
    DeleteAOther(k);
    DeleteABKeeps(k.(a := k.b), n);
  }

  /** A turn that runs ACTION_DELETE_A_B and reads n into b, opening nothing. */
  lemma RunDeleteBoth(m: Config, n: Read)
    requires m.a.Some? && m.a != Some('\n') && Decide(m.a, m.b) == ACTION_DELETE_A_B
    requires NextSpec(m.pending) == Ok(n) && !OpensRegex(m.a, n.c)
    ensures Run(m) == Run(Config(m.a, n.c, n.rest, m.output))
  {
    RunStep(m, m, ACTION_DELETE_A_B);
    DeleteABKeeps(m, n);
  }

  // ---------------------------------------------------------------------------
  // Worked inputs

  /** Bytes get() hands out unchanged. */
  predicate Printable(s: seq<Byte>) {
    forall k :: 0 <= k < |s| ==> s[k] == '\n' || s[k] as int >= ORD_SPACE
  }

  /** An alphanumeric byte is printable and opens nothing. */
  lemma AlphaNumPlain(x: Byte)
    requires IsAlphaNum(Some(x))
    ensures x as int >= ORD_SPACE && x != '/' && x !in QUOTES && x != '*'
    ensures x !in REGEX_PREFIX && x != ' '
  {
  }

  /** The last turn: a byte other than a space or line feed in a, nothing in
      b, and the loop writes a and stops. */
  lemma RunLast(x: Byte, out: seq<Byte>)
    requires x != ' ' && x != '\n'
    ensures Run(Config(Some(x), None, [], out)) == Ok(out + [x])
  {
    RunKeep(Config(Some(x), None, [], out), Read(None, []));
    RunDone(Config(None, None, [], out + [x]));
  }

  /** The last two turns, both ACTION_KEEP_A. */
  lemma RunLastTwo(x: Byte, y: Byte, out: seq<Byte>)
    requires x != '\n' && Decide(Some(x), Some(y)) == ACTION_KEEP_A
    requires y != ' ' && y != '\n' && y !in QUOTES
    ensures Run(Config(Some(x), Some(y), [], out)) == Ok(out + [x, y])
  {
    RunKeep(Config(Some(x), Some(y), [], out), Read(None, []));
    RunLast(y, out + [x]);
    assert out + [x] + [y] == out + [x, y];
  }

  /** A line break between two words is dropped, not kept as a separator:
      minify("a\nb") is " ab". */
  lemma MinifyJoinsLines(x: Byte, y: Byte)
    requires IsAlphaNum(Some(x)) && IsAlphaNum(Some(y)) && x != BOM_LEAD
    ensures MinifySpec([x, '\n', y]) == Ok([' ', x, y])
  {
    AlphaNumPlain(x);
    AlphaNumPlain(y);
    var t: seq<Byte> := ['\n', y];
    var js := [x] + t;
    assert js == [x, '\n', y];
    SourcePrintable(js);
    NextOtherByte(x, t);
    Started(js, Read(Some(x), t));
    JoinsLinesLoop(x, y);
  }

  lemma JoinsLinesLoop(x: Byte, y: Byte)
    requires IsAlphaNum(Some(x)) && IsAlphaNum(Some(y))
    ensures Run(Config(Some('\n'), Some(x), ['\n', y], [])) == Ok([' ', x, y])
  {
    AlphaNumPlain(x);
    AlphaNumPlain(y);
    NextOtherByte('\n', [y]);
    assert ['\n', y] == ['\n'] + [y];
    assert [] + [' '] == [' '];
    RunKeep(Config(Some('\n'), Some(x), ['\n', y], []), Read(Some('\n'), [y]));
    NextOtherByte(y, []);
    assert [y] == [y] + [];
    RunDeleteBoth(Config(Some(x), Some('\n'), [y], [' ']), Read(Some(y), []));
    RunLastTwo(x, y, [' ']);
    assert [' '] + [x, y] == [' ', x, y];
  }

  /** A block comment between two words becomes a space that is kept: the
      word, a slash-star comment, and a second word minify to a leading
      space, the first word, one space and the second word. */
  lemma MinifyBlockCommentSeparates(x: Byte, body: seq<Byte>, y: Byte)
    requires IsAlphaNum(Some(x)) && IsAlphaNum(Some(y)) && x != BOM_LEAD
    requires InBlockComment(body) && Printable(body)
    ensures MinifySpec([x, '/', '*'] + body + ['*', '/', y]) == Ok([' ', x, ' ', y])
  {
    AlphaNumPlain(x);
    AlphaNumPlain(y);
    var tail := ['/', '*'] + body + ['*', '/'] + [y];
    var js := [x] + tail;
    assert js == [x, '/', '*'] + body + ['*', '/', y];
    SourcePrintable(js);
    NextOtherByte(x, tail);
    Started(js, Read(Some(x), tail));
    NextBlockComment(body, [y]);
    assert [] + [' '] == [' '];
    RunKeep(Config(Some('\n'), Some(x), tail, []), Read(Some(' '), [y]));
    BlockCommentLoop(x, y);
  }

  lemma BlockCommentLoop(x: Byte, y: Byte)
    requires IsAlphaNum(Some(x)) && IsAlphaNum(Some(y))
    ensures Run(Config(Some(x), Some(' '), [y], [' '])) == Ok([' ', x, ' ', y])
  {
    AlphaNumPlain(y);
    NextOtherByte(y, []);
    assert [y] == [y] + [];
    RunKeep(Config(Some(x), Some(' '), [y], [' ']), Read(Some(y), []));
    assert [' '] + [x] == [' ', x];
    RunLastTwo(' ', y, [' ', x]);
    assert [' ', x] + [' ', y] == [' ', x, ' ', y];
  }

  /** A `/` after a name is division, copied like any other byte:
      minify("a/b/c") is " a/b/c". */
  lemma MinifyKeepsDivision(x: Byte, y: Byte, z: Byte)
    requires IsAlphaNum(Some(x)) && IsAlphaNum(Some(y)) && IsAlphaNum(Some(z)) && x != BOM_LEAD
    ensures MinifySpec([x, '/', y, '/', z]) == Ok([' ', x, '/', y, '/', z])
  {
    DivisionStart(x, y, z);
    DivisionLoop(x, y, z);
  }

  lemma DivisionStart(x: Byte, y: Byte, z: Byte)
    requires IsAlphaNum(Some(x)) && IsAlphaNum(Some(y)) && IsAlphaNum(Some(z)) && x != BOM_LEAD
    ensures MinifySpec([x, '/', y, '/', z]) == Run(Config(Some('\n'), Some(x), ['/', y, '/', z], []))
  {
    AlphaNumPlain(x);
    AlphaNumPlain(y);
    AlphaNumPlain(z);
    var t0: seq<Byte> := ['/', y, '/', z];
    var js := [x] + t0;
    assert js == [x, '/', y, '/', z];
    SourcePrintable(js);
    NextOtherByte(x, t0);
    Started(js, Read(Some(x), t0));
  }

  lemma DivisionLoop(x: Byte, y: Byte, z: Byte)
    requires IsAlphaNum(Some(x)) && IsAlphaNum(Some(y)) && IsAlphaNum(Some(z))
    ensures Run(Config(Some('\n'), Some(x), ['/', y, '/', z], [])) == Ok([' ', x, '/', y, '/', z])
  {
    AlphaNumPlain(x);
    AlphaNumPlain(y);
    NextOtherByte('/', [y, '/', z]);
    assert ['/', y, '/', z] == ['/'] + [y, '/', z];
    assert [] + [' '] == [' '];
    RunKeep(Config(Some('\n'), Some(x), ['/', y, '/', z], []), Read(Some('/'), [y, '/', z]));
    DivisionLoopMid(x, y, z);
  }

  lemma DivisionLoopMid(x: Byte, y: Byte, z: Byte)
    requires IsAlphaNum(Some(x)) && IsAlphaNum(Some(y)) && IsAlphaNum(Some(z))
    ensures Run(Config(Some(x), Some('/'), [y, '/', z], [' '])) == Ok([' ', x, '/', y, '/', z])
  {
    AlphaNumPlain(y);
    NextOtherByte(y, ['/', z]);
    assert [y, '/', z] == [y] + ['/', z];
    RunKeep(Config(Some(x), Some('/'), [y, '/', z], [' ']), Read(Some(y), ['/', z]));
    assert [' '] + [x] == [' ', x];
    DivisionLoopRest(x, y, z);
  }

  lemma DivisionLoopRest(x: Byte, y: Byte, z: Byte)
    requires IsAlphaNum(Some(y)) && IsAlphaNum(Some(z))
    ensures Run(Config(Some('/'), Some(y), ['/', z], [' ', x])) == Ok([' ', x, '/', y, '/', z])
  {
    AlphaNumPlain(z);
    NextOtherByte('/', [z]);
    assert ['/', z] == ['/'] + [z];
    RunKeep(Config(Some('/'), Some(y), ['/', z], [' ', x]), Read(Some('/'), [z]));
    assert [' ', x] + ['/'] == [' ', x, '/'];
    DivisionLoopEnd(x, y, z);
  }

  lemma DivisionLoopEnd(x: Byte, y: Byte, z: Byte)
    requires IsAlphaNum(Some(y)) && IsAlphaNum(Some(z))
    ensures Run(Config(Some(y), Some('/'), [z], [' ', x, '/'])) == Ok([' ', x, '/', y, '/', z])
  {
    AlphaNumPlain(y);
    AlphaNumPlain(z);
    NextOtherByte(z, []);
    assert [z] == [z] + [];
    RunKeep(Config(Some(y), Some('/'), [z], [' ', x, '/']), Read(Some(z), []));
    assert [' ', x, '/'] + [y] == [' ', x, '/', y];
    RunLastTwo('/', z, [' ', x, '/', y]);
    assert [' ', x, '/', y] + ['/', z] == [' ', x, '/', y, '/', z];
  }

  /** A string or template literal whose body runs into a raw line feed or
      into the end of input throws "Unterminated string literal", even when
      the closing quote follows the line feed: minify("'abc") and
      minify("'a\nb'") both throw. */
  lemma MinifyUnterminatedString(q: Byte, body: seq<Byte>, tail: seq<Byte>)
    requires q in QUOTES && StringBody(body, q) && Printable(body) && Printable(tail)
    requires tail == [] || tail[0] == '\n'
    ensures MinifySpec([q] + body + tail) == Thrown(UnterminatedString)
  {
    var rest := body + tail;
    var js := [q] + rest;
    assert js == [q] + body + tail;
    SourcePrintable(js);
    NextOtherByte(q, rest);
    Started(js, Read(Some(q), rest));
    var m := Config(Some('\n'), Some(q), rest, []);
    var m1 := m.(a := Some(' '));
    RunStep(m, m1, ACTION_DELETE_A);
    ScanStringUnterminated(body, q, tail);
    DeleteAQuote(m1, ScanString(rest, q));
  }

  /** Two word bytes with only blanks between them, on code without
      literals or comments: they stay separated by exactly one space when
      the blanks include a space, and are joined when the blanks are only
      line feeds. What follows the second one is compacted on its own. */
  lemma MinifySeparatesWords(u: seq<Byte>, x: Byte, r: seq<Byte>, y: Byte, v: seq<Byte>) returns (pre: seq<Byte>)
    requires EmissionProps.PlainSeq(u + [x] + r + [y] + v) && Printable(u + [x] + r + [y] + v)
    requires (u + [x] + r + [y] + v)[0] != BOM_LEAD
    requires IsAlphaNum(Some(x)) && IsAlphaNum(Some(y)) && EmissionProps.Blanks(r)
    ensures MinifySpec(u + [x] + r + [y] + v) ==
      Ok(pre + [x] + (if ' ' in r then [' '] else []) + [y] + EmissionProps.Compacted(v, true, false))
  {
    var js := u + [x] + r + [y] + v;
    SourcePrintable(js);
    EmissionProps.MinifyPlain(js);
    pre := EmissionProps.CompactedSeparates(u, x, r, y, v);
  }

  /** A control byte other than a line feed or carriage return inside a
      string literal reaches processString() as a space and is copied as
      one: minify("'a<TAB>b'") keeps a space where the tab was. */
  lemma MinifyStringControl(q: Byte, t: Byte)
    requires q in QUOTES && t as int < ORD_SPACE && t != '\n' && t != '\r'
    ensures MinifySpec([q, t, q]) == Ok([q, ' ', q])
  {
    StringControlStart(q, t);
    StringControlLoop(q);
  }

  lemma StringControlStart(q: Byte, t: Byte)
    requires q in QUOTES && t as int < ORD_SPACE && t != '\n' && t != '\r'
    ensures MinifySpec([q, t, q]) == Run(Config(Some('\n'), Some(q), [' ', q], []))
  {
    var js := [q, t, q];
    ReplaceCrlfWithoutCr(js);
    var p := [q, ' ', q];
    assert FoldAll(js) == p;
    NoBom(p);
    var m0 := Config(Some('\n'), None, p, []);
    assert p == [q] + [' ', q];
    NextOtherByte(q, [' ', q]);
    DeleteABKeeps(m0, Read(Some(q), [' ', q]));
    assert Reference.Action(ACTION_DELETE_A_B, m0) == DeleteAB(m0);
    MinFromPrimed(p, [], m0);
  }

  lemma StringControlLoop(q: Byte)
    requires q in QUOTES
    ensures Run(Config(Some('\n'), Some(q), [' ', q], [])) == Ok([q, ' ', q])
  {
    var m := Config(Some('\n'), Some(q), [' ', q], []);
    var m1 := m.(a := Some(' '));
    RunStep(m, m1, ACTION_DELETE_A);
    assert [' '] + [q] + [] == [' ', q];
    assert StringBody([' '], q) by {
      assert [' '][1..] == [];
    }
    ScanStringBody([' '], q, []);
    DeleteAQuote(m1, ScanString([' ', q], q));
    var m2 := Config(Some(q), Some(q), [], [q, ' ']);
    assert [] + [q] + [' '] == [q, ' '];
    assert DeleteA(m1) == Ok(m2);
    DeleteABKeeps(m2, Read(None, []));
    assert Reference.Action(ACTION_DELETE_A, m1) == Ok(Config(Some(q), None, [], [q, ' ']));
    RunLast(q, [q, ' ']);
    assert [q, ' '] + [q] == [q, ' ', q];
  }

  /** Inside a string, a tab (9) and a vertical tab (11) are folded to a
      space and copied. */
  lemma MinifyStringControlBytes(q: Byte)
    requires q in QUOTES
    ensures MinifySpec([q, 9 as char, q]) == Ok([q, ' ', q])
    ensures MinifySpec([q, 11 as char, q]) == Ok([q, ' ', q])
  {
    MinifyStringControl(q, 9 as char);
    MinifyStringControl(q, 11 as char);
  }

  /** Inside a string, a line feed (10), unlike the control bytes around it,
      ends the string with an exception, even when the closing quote follows. */
  lemma MinifyStringLineFeed(q: Byte)
    requires q in QUOTES
    ensures MinifySpec([q, '\n', q]) == Thrown(UnterminatedString)
  {
    MinifyUnterminatedString(q, [], ['\n', q]);
    assert [q] + [] + ['\n', q] == [q, '\n', q];
  }

  /** A script that opens with a regular expression keeps the primed line
      feed as a raw line feed: a is still that line feed when the first `/`
      reaches b, and a line feed may precede a regular expression, so
      "delete a and b" writes a, then the `/` and the literal.
      minify("/x/") is "\n/x/". */
  lemma MinifyOpensWithRegex(x: Byte)
    requires IsAlphaNum(Some(x)) && x != '\\'
    ensures MinifySpec(['/', x, '/']) == Ok(['\n', '/', x, '/'])
  {
    var m := RegexStart(x);
    RegexStartLoop(x, m);
  }

  /** The priming "delete a and b" of min() on "/x/" copies the literal. */
  lemma RegexStart(x: Byte) returns (m: Config)
    requires IsAlphaNum(Some(x)) && x != '\\'
    ensures m == Config(Some('/'), None, [], ['\n', '/', x])
    ensures MinifySpec(['/', x, '/']) == Run(m)
  {
    AlphaNumPlain(x);
    var js: seq<Byte> := ['/', x, '/'];
    SourcePrintable(js);
    NoBom(js);
    assert js[1..] == [x, '/'];
    assert NextSpec(js) == Ok(Read(Some('/'), [x, '/']));
    assert [x, '/'][1..] == ['/'];
    assert ScanRegex(['/']) == Ok(Scanned([], []));
    assert Pop([x, '/']) == Read(Some(x), ['/']) && Ord(Some(x)) > ORD_LF;
    assert [x] + [] == [x];
    assert Prepend([x], Ok(Scanned([], []))) == Ok(Scanned([x], []));
    assert ScanRegex([x, '/']) == Ok(Scanned([x], []));
    assert RegexLiteral([x, '/']) == Ok(([x], Read(None, [])));
    var m0 := Config(Some('\n'), None, js, []);
    m := Config(Some('/'), None, [], ['\n', '/', x]);
    assert [] + ['\n', '/'] + [x] == ['\n', '/', x];
    assert Reference.Action(ACTION_DELETE_A_B, m0) == Ok(m);
    MinFromPrimed(js, [], m0);
  }

  /** After the literal, the closing `/` in a is written and the loop ends. */
  lemma RegexStartLoop(x: Byte, m: Config)
    requires m == Config(Some('/'), None, [], ['\n', '/', x])
    ensures Run(m) == Ok(['\n', '/', x, '/'])
  {
    RunLast('/', ['\n', '/', x]);
    assert ['\n', '/', x] + ['/'] == ['\n', '/', x, '/'];
  }
}
