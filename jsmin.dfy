/** The JSMin class: a one-pass minifier over a byte buffer, with the fields
    and members of the PHP class. Every member is proved to do what its
    reference function in module Reference describes, on the abstract stream
    Pending() that get() reads from. */
module Minifier {
  import opened Base
  import opened Reference
  import opened Steps

  class JSMin {
    /** The input after the constructor's line-ending rewrite; never changed. */
    const input: seq<Byte>
    const inputLength: nat
    /** The input as get() folds it, byte for byte. */
    ghost const folded: seq<Byte>
    var inputIndex: nat
    /** The byte peek() buffered for the next get(), or null. */
    var lookAhead: Option<Byte>
    /** The current pair: a is decided, b is the byte after it. */
    var a: Option<Byte>
    var b: Option<Byte>
    var output: seq<Byte>
    var inString: bool
    var inRegex: bool
    /** The quote that opened the current string; the source starts it as the
        empty string, modelled as None. */
    var stringChar: Option<Byte>

    ghost predicate Valid()
      reads this`inputIndex
    {
      inputLength == |input| && inputIndex <= inputLength && folded == FoldAll(input)
    }

    /** The bytes get() will hand out, in order, before it starts returning
        null: the buffered byte, then the unread input, each folded. */
    ghost function Pending(): seq<Byte>
      reads this`inputIndex, this`lookAhead
      requires Valid()
    {
      (match lookAhead case None => [] case Some(c) => [Fold(c)]) + folded[inputIndex..]
    }

    ghost function Cfg(): Config
      reads this`inputIndex, this`lookAhead, this`a, this`b, this`output
      requires Valid()
    {
      Config(a, b, Pending(), output)
    }

    /** __construct: rewrite "\r\n" to "\n"; nothing is read yet. The source
        starts a and b as empty strings; min() sets both before reading them. */
    constructor (js: seq<Byte>)
      ensures Valid() && Pending() == Source(js) && lookAhead == None
      ensures output == [] && !inString && !inRegex
    {
      var normalised := ReplaceCrlf(js);
      input := normalised;
      inputLength := |normalised|;
      folded := FoldAll(normalised);
      inputIndex := 0;
      lookAhead := None;
      a, b := None, None;
      output := [];
      inString, inRegex := false, false;
      stringChar := None;
    }

    /** get(): the buffered byte or the next input byte, "\r" turned into
        "\n" and other control bytes into a space; null at end of input. */
    method Get() returns (c: Option<Byte>)
      requires Valid()
      modifies this`inputIndex, this`lookAhead
      ensures Valid() && lookAhead == None
      ensures Pop(old(Pending())) == Read(c, Pending())
    {
      c := lookAhead;
      lookAhead := None;
      if c == None {
        if inputIndex < inputLength {
          c := Some(input[inputIndex]);
          inputIndex := inputIndex + 1;
        } else {
          c := None;
        }
      }
      if c == Some('\r') {
        return Some('\n');
      }
      c := if c == None || c == Some('\n') || c.value as int >= ORD_SPACE then c else Some(' ');
    }

    /** peek(): get() a byte and buffer it, so the next get() returns it. */
    method Peek() returns (c: Option<Byte>)
      requires Valid()
      modifies this`inputIndex, this`lookAhead
      ensures Valid() && Pending() == old(Pending())
      ensures c == Pop(old(Pending())).c && lookAhead == c
    {
      lookAhead := Get();
      c := lookAhead;
    }

    /** next(): get() with `//` comments removed up to the line feed (or
        null) that ends them, block comments replaced by one space, and an
        unterminated block comment thrown as an exception. */
    method Next() returns (r: Result<Option<Byte>>)
      requires Valid()
      modifies this`inputIndex, this`lookAhead
      ensures Valid()
      ensures r.Ok? ==> NextSpec(old(Pending())) == Ok(Read(r.value, Pending()))
      ensures !r.Ok? ==> NextSpec(old(Pending())) == r.PropagateFailure()
      ensures r == Ok(Some('/')) ==> lookAhead == Pop(Pending()).c
    {
      var c := Get();
      if c == Some('/') {
        ghost var p1 := Pending();
        var peeked := Peek();
        if peeked == Some('/') {
          c := Get();
          while Ord(c) > ORD_LF
            invariant Valid()
            invariant SkipLine(p1) == if Ord(c) <= ORD_LF then Read(c, Pending()) else SkipLine(Pending())
            decreases |Pending()| + Count(c)
          {
            c := Get();
          }
          return Ok(c);
        } else if peeked == Some('*') {
          c := Get();
          ghost var p2 := Pending();
          while true
            invariant Valid()
            invariant SkipBlock(p2) == SkipBlock(Pending())
            decreases |Pending()|
          {
            c := Get();
            if c == Some('*') {
              var after := Peek();
              if after == Some('/') {
                c := Get();
                return Ok(Some(' '));
              }
            } else if c == None {
              return Thrown(UnterminatedComment);
            }
          }
        } else {
          return Ok(c);
        }
      }
      return Ok(c);
    }

    /** processString(): copy a string or template literal's body after its
        opening quote stringChar, up to (not including) the closing quote,
        which is left in a. */
    method ProcessString() returns (r: Result<()>, ghost copied: seq<Byte>)
      requires Valid() && stringChar.Some?
      modifies this`inputIndex, this`lookAhead, this`a, this`output, this`inString
      ensures Valid() && output == old(output) + copied
      ensures r.Ok? ==> ScanString(old(Pending()), stringChar.value) == Ok(Scanned(copied, Pending()))
      ensures r.Ok? ==> a == stringChar && !inString
      ensures !r.Ok? ==> ScanString(old(Pending()), stringChar.value) == r.PropagateFailure()
    {
      ghost var p0 := Pending();
      ghost var o0 := output;
      copied := [];
      PrependNothing(ScanString(p0, stringChar.value));
      while true
        invariant Valid() && output == o0 + copied
        invariant ScanString(p0, stringChar.value) == Prepend(copied, ScanString(Pending(), stringChar.value))
        decreases |Pending()|
      {
        ghost var p := Pending();
        a := Get();
        ghost var step: seq<Byte>;
        if a == Some('\\') {
          ghost var p' := Pending();
          output := output + Emitted(a);
          a := Get();
          step := ['\\'] + Emitted(a);
          StringEscape(p, p', stringChar.value, a, Pending());
          AppendAssoc(o0 + copied, ['\\'], Emitted(a));
        } else if a == stringChar {
          ScanStringClose(p, stringChar.value, copied);
          inString := false;
          break;
        } else if Ord(a) <= ORD_LF {
          return Thrown(UnterminatedString), copied;
        } else {
          step := Emitted(a);
          StringCopy(p, stringChar.value, a, Pending());
        }
        output := output + Emitted(a);
        PrependAssoc(copied, step, ScanString(Pending(), stringChar.value));
        AppendAssoc(o0, copied, step);
        copied := copied + step;
      }
      return Ok(()), copied;
    }

    /** The `do ... while` loop of processRegex() over a `[...]` class: output
        a and get() the next byte until that byte is `]`, which is left in a.
        At end of input get() keeps returning null and the loop never ends. */
    method CopyClass(ghost p: seq<Byte>) returns (r: Result<()>, ghost cls: seq<Byte>)
      requires Valid() && a == Some('[') && Pop(p) == Read(a, Pending())
      modifies this`inputIndex, this`lookAhead, this`a, this`output
      ensures Valid() && output == old(output) + cls
      ensures r.Ok? ==> a == Some(']') && ScanRegex(p) == Prepend(cls + [']'], ScanRegex(Pending()))
      ensures r.Ok? ==> |Pending()| < |p|
      ensures !r.Ok? ==> r == Spins && ScanRegex(p) == Spins
    {
      ghost var o := output;
      ghost var c0 := a;
      ghost var p1 := Pending();
      cls := [];
      PrependNothing(ClassFrom(a, p1));
      while true
        invariant Valid() && a.Some? && output == o + cls
        invariant ClassFrom(c0, p1) == Prepend(cls, ClassFrom(a, Pending()))
        decreases |Pending()|
      {
        ClassFromStep(a, Pending());
        PrependAssoc(cls, Emitted(a), ClassRest(Pop(Pending()).c, Pop(Pending()).rest));
        output := output + Emitted(a);
        AppendAssoc(o, cls, Emitted(a));
        cls := cls + Emitted(a);
        a := Get();
        if a == Some(']') {
          assert cls + [] == cls;
          ScanRegexClass(p, cls, Pending());
          return Ok(()), cls;
        } else if a == None {
          // the source's loop would go on forever
          return Spins, cls;
        }
      }
    }

    /** The `for (;;)` loop of processRegex(): copy a regular expression
        literal's body after its opening `/` up to (not including) the closing
        `/`, which is left in a. */
    method CopyRegexBody() returns (r: Result<()>, ghost copied: seq<Byte>)
      requires Valid()
      modifies this`inputIndex, this`lookAhead, this`a, this`output
      ensures Valid() && output == old(output) + copied
      ensures r.Ok? ==> ScanRegex(old(Pending())) == Ok(Scanned(copied, Pending())) && a == Some('/')
      ensures !r.Ok? ==> ScanRegex(old(Pending())) == r.PropagateFailure()
    {
      ghost var p0 := Pending();
      ghost var o0 := output;
      copied := [];
      PrependNothing(ScanRegex(p0));
      while true
        invariant Valid() && output == o0 + copied
        invariant ScanRegex(p0) == Prepend(copied, ScanRegex(Pending()))
        decreases |Pending()|
      {
        ghost var p := Pending();
        a := Get();
        ghost var step: seq<Byte>;
        if a == Some('[') {
          var inClass;
          ghost var cls;
          inClass, cls := CopyClass(p);
          if !inClass.Ok? {
            AppendAssoc(o0, copied, cls);
            return inClass, copied + cls;
          }
          AppendAssoc(o0 + copied, cls, [']']);
          step := cls + [']'];
        } else if a == Some('/') {
          ScanRegexClose(p, copied);
          return Ok(()), copied;
        } else if a == Some('\\') {
          ghost var p' := Pending();
          output := output + Emitted(a);
          a := Get();
          step := ['\\'] + Emitted(a);
          RegexEscape(p, p', a, Pending());
          AppendAssoc(o0 + copied, ['\\'], Emitted(a));
        } else if Ord(a) <= ORD_LF {
          return Thrown(UnterminatedRegex), copied;
        } else {
          step := Emitted(a);
          RegexCopy(p, a, Pending());
        }
        output := output + Emitted(a);
        PrependAssoc(copied, step, ScanRegex(Pending()));
        AppendAssoc(o0, copied, step);
        copied := copied + step;
      }
    }

    /** processRegex(): the body of a regular expression literal, then
        `b = next()`. */
    method ProcessRegex() returns (r: Result<()>, ghost copied: seq<Byte>)
      requires Valid()
      modifies this`inputIndex, this`lookAhead, this`a, this`b, this`output
      ensures Valid() && output == old(output) + copied
      ensures r.Ok? ==> RegexLiteral(old(Pending())) == Ok((copied, Read(b, Pending())))
      ensures r.Ok? ==> a == Some('/')
      ensures !r.Ok? ==> RegexLiteral(old(Pending())) == r.PropagateFailure()
    {
      ghost var p0 := Pending();
      r, copied := CopyRegexBody();
      if !r.Ok? {
        return;
      }
      RegexLiteralScanned(p0, copied, Pending());
      var next :- Next();
      b := next;
      return Ok(()), copied;
    }

    /** The ACTION_KEEP_A case of action(): output a, a line feed as a space
        outside strings and regular expressions. */
    method KeepAStep()
      requires Valid() && !inString && !inRegex
      modifies this`a, this`output
      ensures Valid() && Cfg() == KeepA(old(Cfg()))
    {
      if a == Some('\n') && !inString && !inRegex {
        a := Some(' ');
      }
      output := output + Emitted(a);
    }

    /** The ACTION_DELETE_A case of action(): a := b, and a quote in a opens
        a string whose opening quote and body are copied by processString(). */
    method DeleteAStep() returns (r: Result<()>)
      requires Valid() && !inString && !inRegex
      modifies this`inputIndex, this`lookAhead, this`a, this`output, this`inString, this`stringChar
      ensures Valid()
      ensures r.Ok? ==> DeleteA(old(Cfg())) == Ok(Cfg()) && !inString
      ensures !r.Ok? ==> DeleteA(old(Cfg())) == r.PropagateFailure()
    {
      ghost var m := Cfg();
      a := b;
      if a == Some('\'') || a == Some('"') || a == Some('`') {
        inString := true;
        stringChar := a;
        output := output + Emitted(a);
        assert output == m.output + [m.b.value];
        ghost var copied;
        r, copied := ProcessString();
        DeleteAQuote(m, ScanString(m.pending, m.b.value));
        if r.Ok? {
          assert Cfg() == Config(m.b, m.b, Pending(), m.output + [m.b.value] + copied);
        }
        return;
      }
      DeleteAOther(m);
      return Ok(());
    }

    /** The ACTION_DELETE_A_B case of action(): b := next(), and a `/` in b
        after one of REGEX_PREFIX in a opens a regular expression: a and the
        `/` are output and processRegex() copies the rest. */
    method DeleteABStep() returns (r: Result<()>)
      requires Valid() && !inString && !inRegex
      modifies this`inputIndex, this`lookAhead, this`a, this`b, this`output, this`inRegex
      ensures Valid() && !inRegex
      ensures r.Ok? ==> DeleteAB(old(Cfg())) == Ok(Cfg())
      ensures !r.Ok? ==> DeleteAB(old(Cfg())) == r.PropagateFailure()
    {
      ghost var m := Cfg();
      var next := Next();
      if !next.Ok? {
        DeleteABFails(m);
        return next.PropagateFailure();
      }
      b := next.value;
      ghost var n := Read(b, Pending());
      if b == Some('/') && !inString && a.Some? && a.value in REGEX_PREFIX {
        inRegex := true;
        output := output + Emitted(a) + Emitted(b);
        assert output == m.output + [m.a.value, '/'];
        ghost var copied;
        r, copied := ProcessRegex();
        DeleteABRegex(m, n, RegexLiteral(n.rest));
        inRegex := false;
        return;
      }
      DeleteABKeeps(m, n);
      return Ok(());
    }

    /** action(command): the switch falls through from one case into the
        next, so every step whose constant is at least command runs, in
        order. */
    method Action(command: Command) returns (r: Result<()>)
      requires Valid() && !inString && !inRegex
      modifies this`inputIndex, this`lookAhead, this`a, this`b, this`output, this`inString, this`inRegex, this`stringChar
      ensures Valid()
      ensures r.Ok? ==> Reference.Action(command, old(Cfg())) == Ok(Cfg()) && !inString && !inRegex
      ensures !r.Ok? ==> Reference.Action(command, old(Cfg())) == r.PropagateFailure()
    {
      if command <= ACTION_KEEP_A {
        KeepAStep();
      }
      ghost var m1 := Cfg();
      if command <= ACTION_DELETE_A {
        r := DeleteAStep();
        if !r.Ok? {
          return;
        }
      }
      r := DeleteABStep();
    }

    /** The start of min(): when peek() sees 0xEF, three get() calls discard
        a UTF-8 byte-order mark. */
    method SkipByteOrderMark()
      requires Valid()
      modifies this`inputIndex, this`lookAhead
      ensures Valid() && Pending() == SkipBom(old(Pending()))
    {
      ghost var p0 := Pending();
      var first := Peek();
      if first == Some(BOM_LEAD) {
        var skipped := Get();
        ghost var q1 := Pending();
        var c2 := Get();
        ghost var q2 := Pending();
        var c3 := Get();
        BomSkipped(p0, q1, q2, Pending(), c2, c3);
      } else {
        NoBom(p0);
      }
    }

    /** min(): skip a byte-order mark, prime a with a line feed, and apply the
        emission policy to the pair (a, b) until a is null. */
    method Min() returns (r: Result<seq<Byte>>)
      requires Valid() && !inString && !inRegex
      modifies this`inputIndex, this`lookAhead, this`a, this`b, this`output, this`inString, this`inRegex, this`stringChar
      ensures r == MinFrom(old(Pending()), old(output))
    {
      ghost var p0 := Pending();
      SkipByteOrderMark();
      a := Some('\n');
      ghost var m0 := Cfg();
      MinFromPrimed(p0, old(output), m0);
      var primed := Action(ACTION_DELETE_A_B);
      if !primed.Ok? {
        FailureCarried(Reference.Action(ACTION_DELETE_A_B, m0), primed);
        return primed.PropagateFailure();
      }
      while a != None
        invariant Valid() && !inString && !inRegex
        invariant Run(Cfg()) == MinFrom(p0, old(output))
        decreases Measure(Cfg())
      {
        ghost var before := Cfg();
        if a == Some('\n') {
          // a line feed is copied as it is only when inString || inRegex
          assert !inString && !inRegex;
          a := Some(' ');
        }
        var command: Command;
        if a == Some(' ') {
          command := if IsAlphaNum(b) then ACTION_KEEP_A else ACTION_DELETE_A;
        } else if b == Some(' ') {
          command := if IsAlphaNum(a) then ACTION_KEEP_A else ACTION_DELETE_A_B;
        } else if b == Some('\n') {
          // ACTION_KEEP_A only when inString || inRegex
          assert !inString && !inRegex;
          command := ACTION_DELETE_A_B;
        } else {
          command := ACTION_KEEP_A;
        }
        ghost var mid := Cfg();
        RunStep(before, mid, command);
        var done := Action(command);
        if !done.Ok? {
          FailureCarried(Reference.Action(command, mid), done);
          return done.PropagateFailure();
        }
      }
      RunDone(Cfg());
      return Ok(output);
    }

    /** minify(js): a fresh minifier run over js. */
    static method Minify(js: seq<Byte>) returns (r: Result<seq<Byte>>)
      ensures r == MinifySpec(js)
    {
      var jsmin := new JSMin(js);
      r := jsmin.Min();
    }
  }
}
