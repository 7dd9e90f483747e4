/** What the character source and the comment-skipping reader promise: the
    line-ending rewrite of the constructor, and the three cases of next(). */
module ReaderProps {
  import opened Base
  import opened Reference

  // ---------------------------------------------------------------------------
  // The constructor's line-ending rewrite

  /** Windows line endings: every line feed preceded by a carriage return. */
  function WithCrlf(s: seq<Byte>): seq<Byte>
  {
    if s == [] then []
    else if s[0] == '\n' then ['\r', '\n'] + WithCrlf(s[1..])
    else [s[0]] + WithCrlf(s[1..])
  }

  /** Text without carriage returns passes the rewrite unchanged. */
  lemma {:induction false} ReplaceCrlfWithoutCr(s: seq<Byte>)
    requires forall k :: 0 <= k < |s| ==> s[k] != '\r'
    ensures ReplaceCrlf(s) == s
  {
    if s != [] {
      ReplaceCrlfWithoutCr(s[1..]);
    }
  }

  /** The rewrite undoes Windows line endings: "\r\n" everywhere comes back
      as "\n". */
  lemma {:induction false} ReplaceCrlfUndoesCrlf(s: seq<Byte>)
    requires forall k :: 0 <= k < |s| ==> s[k] != '\r'
    ensures ReplaceCrlf(WithCrlf(s)) == s
  {
    if s != [] {
      ReplaceCrlfUndoesCrlf(s[1..]);
      if s[0] == '\n' {
        assert WithCrlf(s)[2..] == WithCrlf(s[1..]);
      } else {
        assert WithCrlf(s)[1..] == WithCrlf(s[1..]);
      }
    }
  }

  /** What get() hands out from a text never holds a carriage return or a
      control byte other than the line feed. */
  lemma SourceFolded(js: seq<Byte>)
    ensures forall k :: 0 <= k < |Source(js)| ==> IsFolded(Source(js)[k]) && Source(js)[k] != '\r'
  {
  }

  /** Without carriage returns, get() hands out the text byte for byte,
      each folded. */
  lemma SourceWithoutCr(js: seq<Byte>)
    requires forall k :: 0 <= k < |js| ==> js[k] != '\r'
    ensures Source(js) == FoldAll(js)
  {
    ReplaceCrlfWithoutCr(js);
  }

  // ---------------------------------------------------------------------------
  // next(): line comments

  /** Bytes that do not end a line comment: ord above ORD_LF. */
  predicate InLineComment(body: seq<Byte>) {
    forall k :: 0 <= k < |body| ==> body[k] as int > ORD_LF
  }

  lemma {:induction false} SkipLineToNewline(body: seq<Byte>, rest: seq<Byte>)
    requires InLineComment(body)
    ensures SkipLine(body + ['\n'] + rest) == Read(Some('\n'), rest)
    ensures SkipLine(body) == Read(None, [])
  {
    if body != [] {
      SkipLineToNewline(body[1..], rest);
      assert (body + ['\n'] + rest)[1..] == body[1..] + ['\n'] + rest;
    } else {
      assert [] + ['\n'] + rest == ['\n'] + rest;
    }
  }

  /** `//` swallows the comment and next() returns the line feed that ends
      it, or null at end of input. */
  lemma NextLineComment(body: seq<Byte>, rest: seq<Byte>)
    requires InLineComment(body)
    ensures NextSpec(['/', '/'] + body + ['\n'] + rest) == Ok(Read(Some('\n'), rest))
    ensures NextSpec(['/', '/'] + body) == Ok(Read(None, []))
  {
    SkipLineToNewline(body, rest);
    assert (['/', '/'] + body + ['\n'] + rest)[1..][1..] == body + ['\n'] + rest;
    assert (['/', '/'] + body)[1..][1..] == body;
  }

  // ---------------------------------------------------------------------------
  // next(): block comments

  /** A block comment's body: no `*` directly followed by `/`. */
  predicate InBlockComment(body: seq<Byte>) {
    forall k :: 0 <= k < |body| - 1 ==> !(body[k] == '*' && body[k + 1] == '/')
  }

  lemma {:induction false} SkipBlockToCloser(body: seq<Byte>, rest: seq<Byte>)
    requires InBlockComment(body)
    ensures SkipBlock(body + ['*', '/'] + rest) == Ok(Read(Some(' '), rest))
  {
    var p := body + ['*', '/'] + rest;
    if body == [] {
      assert p == ['*', '/'] + rest;
      assert p[1..][1..] == rest;
    } else {
      assert InBlockComment(body[1..]) by {
        forall k | 0 <= k < |body[1..]| - 1
          ensures !(body[1..][k] == '*' && body[1..][k + 1] == '/')
        {
          assert body[1..][k] == body[k + 1] && body[1..][k + 1] == body[k + 2];
        }
      }
      SkipBlockToCloser(body[1..], rest);
      assert p[1..] == body[1..] + ['*', '/'] + rest;
      if body[0] == '*' {
        assert Pop(p[1..]).c != Some('/') by {
          if |body| > 1 {
            assert body[1] != '/';
          }
        }
      }
    }
  }

  lemma {:induction false} SkipBlockToEnd(body: seq<Byte>)
    requires InBlockComment(body)
    ensures SkipBlock(body) == Thrown(UnterminatedComment)
  {
    if body != [] {
      assert InBlockComment(body[1..]) by {
        forall k | 0 <= k < |body[1..]| - 1
          ensures !(body[1..][k] == '*' && body[1..][k + 1] == '/')
        {
          assert body[1..][k] == body[k + 1] && body[1..][k + 1] == body[k + 2];
        }
      }
      SkipBlockToEnd(body[1..]);
      if body[0] == '*' && |body| > 1 {
        assert body[1] != '/';
      }
    }
  }

  /** A block comment becomes a single space; one that is not closed before
      the end of input is the "Unterminated comment" exception. */
  lemma NextBlockComment(body: seq<Byte>, rest: seq<Byte>)
    requires InBlockComment(body)
    ensures NextSpec(['/', '*'] + body + ['*', '/'] + rest) == Ok(Read(Some(' '), rest))
    ensures NextSpec(['/', '*'] + body) == Thrown(UnterminatedComment)
  {
    SkipBlockToCloser(body, rest);
    SkipBlockToEnd(body);
    assert (['/', '*'] + body + ['*', '/'] + rest)[1..][1..] == body + ['*', '/'] + rest;
    assert (['/', '*'] + body)[1..][1..] == body;
  }

  /** A `/` that opens no comment is returned as it is, and the byte after it
      stays unread (peek() buffered it). Any other byte is returned as it
      is. */
  lemma NextOtherByte(c: Byte, rest: seq<Byte>)
    requires c == '/' ==> Pop(rest).c != Some('/') && Pop(rest).c != Some('*')
    ensures NextSpec([c] + rest) == Ok(Read(Some(c), rest))
  {
    assert ([c] + rest)[1..] == rest;
  }
}
