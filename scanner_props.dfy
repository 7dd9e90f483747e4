/** What the literal scanners promise: processString() and processRegex()
    copy exactly the body of a well-formed literal and stop after its closing
    delimiter; a line feed or the end of input inside the body is an
    exception, except inside a `[...]` class of a regular expression, where
    the end of input makes the source loop forever. */
module ScannerProps {
  import opened Base
  import opened Reference
  import opened Steps

  // ---------------------------------------------------------------------------
  // String and template literals

  /** A byte copied as it is inside a literal opened by q. */
  predicate StringByte(x: Byte, q: Byte) {
    x != q && x != '\\' && x as int > ORD_LF
  }

  /** The body of a literal opened by q: plain bytes and backslash escapes,
      each escape a backslash and any byte after it. */
  predicate StringBody(body: seq<Byte>, q: Byte)
    decreases |body|
  {
    if body == [] then true
    else if body[0] == '\\' then |body| >= 2 && StringBody(body[2..], q)
    else StringByte(body[0], q) && StringBody(body[1..], q)
  }

  /** processString() copies the body of a literal and leaves the stream just
      after the closing quote, which it does not copy. */
  lemma {:induction false} ScanStringBody(body: seq<Byte>, q: Byte, rest: seq<Byte>)
    requires q != '\\' && StringBody(body, q)
    ensures ScanString(body + [q] + rest, q) == Ok(Scanned(body, rest))
    decreases |body|
  {
    var p := body + [q] + rest;
    if body == [] {
      assert p == [q] + rest;
      PopFront(q, rest);
      ScanStringClose(p, q, []);
      PrependNothing(ScanString(p, q));
    } else if body[0] == '\\' {
      var t := body[2..] + [q] + rest;
      assert p == ['\\'] + ([body[1]] + t);
      PopFront('\\', [body[1]] + t);
      PopFront(body[1], t);
      StringEscape(p, [body[1]] + t, q, Some(body[1]), t);
      ScanStringBody(body[2..], q, rest);
      assert ['\\'] + [body[1]] + body[2..] == body;
    } else {
      var t := body[1..] + [q] + rest;
      assert p == [body[0]] + t;
      PopFront(body[0], t);
      StringCopy(p, q, Some(body[0]), t);
      ScanStringBody(body[1..], q, rest);
      assert [body[0]] + body[1..] == body;
    }
  }

  /** A raw line feed, or the end of input, after a literal's body is the
      "Unterminated string literal" exception; template literals included. */
  lemma {:induction false} ScanStringUnterminated(body: seq<Byte>, q: Byte, tail: seq<Byte>)
    requires q != '\\' && q != '\n' && StringBody(body, q)
    requires tail == [] || tail[0] == '\n'
    ensures ScanString(body + tail, q) == Thrown(UnterminatedString)
    decreases |body|
  {
    var p := body + tail;
    if body == [] {
      assert p == tail;
    } else if body[0] == '\\' {
      var t := body[2..] + tail;
      assert p == ['\\'] + ([body[1]] + t);
      PopFront('\\', [body[1]] + t);
      PopFront(body[1], t);
      StringEscape(p, [body[1]] + t, q, Some(body[1]), t);
      ScanStringUnterminated(body[2..], q, tail);
    } else {
      var t := body[1..] + tail;
      assert p == [body[0]] + t;
      PopFront(body[0], t);
      StringCopy(p, q, Some(body[0]), t);
      ScanStringUnterminated(body[1..], q, tail);
    }
  }

  // ---------------------------------------------------------------------------
  // Regular expression literals

  /** A byte copied as it is inside a regular expression, outside a class. */
  predicate RegexByte(x: Byte) {
    x != '/' && x != '[' && x != '\\' && x as int > ORD_LF
  }

  /** The inside of a `[...]` class: anything but `]`, so a `/`, a line feed
      or a backslash inside it is copied too. */
  predicate ClassBody(cls: seq<Byte>) {
    forall k :: 0 <= k < |cls| ==> cls[k] != ']'
  }

  /** The body of a regular expression literal: plain bytes, backslash
      escapes and complete classes, each class given by the index n of its
      `]`. */
  predicate RegexBody(body: seq<Byte>)
    decreases |body|
  {
    if body == [] then true
    else if body[0] == '\\' then |body| >= 2 && RegexBody(body[2..])
    else if body[0] == '[' then
      exists n :: 1 <= n < |body| && ClassAt(body, n) && RegexBody(body[n + 1..])
    else RegexByte(body[0]) && RegexBody(body[1..])
  }

  /** body starts with a class whose `]` is at index n. */
  predicate ClassAt(body: seq<Byte>, n: int) {
    1 <= n < |body| && body[0] == '[' && body[n] == ']' && ClassBody(body[1..n])
  }

  /** The do-while loop over a class copies it up to (not including) its `]`. */
  lemma {:induction false} ClassFromBody(c: Byte, cls: seq<Byte>, rest: seq<Byte>)
    requires ClassBody(cls)
    ensures ClassFrom(Some(c), cls + [']'] + rest) == Ok(Scanned([c] + cls, rest))
    decreases |cls|
  {
    var p := cls + [']'] + rest;
    if cls == [] {
      assert p == [']'] + rest;
      PopFront(']', rest);
      assert [c] + cls == [c];
    } else {
      var t := cls[1..] + [']'] + rest;
      assert p == [cls[0]] + t;
      PopFront(cls[0], t);
      ClassFromBody(cls[0], cls[1..], rest);
      assert [c] + ([cls[0]] + cls[1..]) == [c] + cls;
    }
  }

  /** A class with no `]` before the end of input: the loop never ends. */
  lemma {:induction false} ClassFromSpins(c: Byte, cls: seq<Byte>)
    requires ClassBody(cls)
    ensures ClassFrom(Some(c), cls) == Spins
    decreases |cls|
  {
    if cls != [] {
      assert cls == [cls[0]] + cls[1..];
      PopFront(cls[0], cls[1..]);
      ClassFromSpins(cls[0], cls[1..]);
    }
  }

  /** One unit of a regular expression body (a plain byte, an escape or a
      whole class) is copied as it is, whatever follows the body. */
  lemma RegexBodyStep(body: seq<Byte>, tail: seq<Byte>) returns (k: nat)
    requires RegexBody(body) && body != []
    ensures 0 < k <= |body| && RegexBody(body[k..])
    ensures ScanRegex(body + tail) == Prepend(body[..k], ScanRegex(body[k..] + tail))
  {
    if body[0] == '\\' {
      k := 2;
      RegexEscapeUnit(body, tail);
    } else if body[0] == '[' {
      var n :| 1 <= n < |body| && ClassAt(body, n) && RegexBody(body[n + 1..]);
      k := n + 1;
      RegexClassUnit(body, n, tail);
    } else {
      k := 1;
      RegexByteUnit(body, tail);
    }
  }

  lemma RegexEscapeUnit(body: seq<Byte>, tail: seq<Byte>)
    requires |body| >= 2 && body[0] == '\\'
    ensures ScanRegex(body + tail) == Prepend(body[..2], ScanRegex(body[2..] + tail))
  {
    var p := body + tail;
    var t := body[2..] + tail;
    assert p == ['\\'] + ([body[1]] + t);
    PopFront('\\', [body[1]] + t);
    PopFront(body[1], t);
    RegexEscape(p, [body[1]] + t, Some(body[1]), t);
    assert ['\\'] + [body[1]] == body[..2];
  }

  lemma RegexClassUnit(body: seq<Byte>, n: int, tail: seq<Byte>)
    requires ClassAt(body, n)
    ensures ScanRegex(body + tail) == Prepend(body[..n + 1], ScanRegex(body[n + 1..] + tail))
  {
    var p := body + tail;
    var t := body[n + 1..] + tail;
    ClassSplit(body, n, tail);
    PopFront('[', body[1..n] + [']'] + t);
    ClassFromBody('[', body[1..n], t);
    ScanRegexClass(p, ['['] + body[1..n], t);
  }

  lemma ClassSplit(body: seq<Byte>, n: int, tail: seq<Byte>)
    requires ClassAt(body, n)
    ensures body + tail == ['['] + (body[1..n] + [']'] + (body[n + 1..] + tail))
    ensures ['['] + body[1..n] + [']'] == body[..n + 1]
  {
    assert body == ['['] + body[1..n] + [']'] + body[n + 1..];
  }

  lemma RegexByteUnit(body: seq<Byte>, tail: seq<Byte>)
    requires body != [] && RegexByte(body[0])
    ensures ScanRegex(body + tail) == Prepend(body[..1], ScanRegex(body[1..] + tail))
  {
    var p := body + tail;
    var t := body[1..] + tail;
    assert p == [body[0]] + t;
    PopFront(body[0], t);
    assert Ord(Some(body[0])) == body[0] as int;
    RegexCopy(p, Some(body[0]), t);
    assert Emitted(Some(body[0])) == body[..1];
  }

  /** processRegex()'s loop copies the body of a literal and leaves the stream
      just after the first `/` that is neither escaped nor inside a class. */
  lemma {:induction false} ScanRegexBody(body: seq<Byte>, rest: seq<Byte>)
    requires RegexBody(body)
    ensures ScanRegex(body + ['/'] + rest) == Ok(Scanned(body, rest))
    decreases |body|
  {
    var tail := ['/'] + rest;
    AppendAssoc(body, ['/'], rest);
    if body == [] {
      assert body + tail == tail;
      PopFront('/', rest);
      ScanRegexClose(tail, []);
      PrependNothing(ScanRegex(tail));
    } else {
      var k := RegexBodyStep(body, tail);
      AppendAssoc(body[k..], ['/'], rest);
      ScanRegexBody(body[k..], rest);
      assert body[..k] + body[k..] == body;
    }
  }

  /** A raw line feed, or the end of input, outside a class is the
      "Unterminated regex literal" exception. */
  lemma {:induction false} ScanRegexUnterminated(body: seq<Byte>, tail: seq<Byte>)
    requires RegexBody(body)
    requires tail == [] || tail[0] == '\n'
    ensures ScanRegex(body + tail) == Thrown(UnterminatedRegex)
    decreases |body|
  {
    if body == [] {
      assert body + tail == tail;
    } else {
      var k := RegexBodyStep(body, tail);
      ScanRegexUnterminated(body[k..], tail);
    }
  }

  /** A class still open at the end of input: processRegex() never returns. */
  lemma {:induction false} ScanRegexOpenClass(body: seq<Byte>, cls: seq<Byte>)
    requires RegexBody(body) && ClassBody(cls)
    ensures ScanRegex(body + ['['] + cls) == Spins
    decreases |body|
  {
    var tail := ['['] + cls;
    AppendAssoc(body, ['['], cls);
    if body == [] {
      assert body + tail == tail;
      PopFront('[', cls);
      ClassFromSpins('[', cls);
    } else {
      var k := RegexBodyStep(body, tail);
      AppendAssoc(body[k..], ['['], cls);
      ScanRegexOpenClass(body[k..], cls);
    }
  }
}
