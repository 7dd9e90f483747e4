/** Vocabulary shared by the JSMin model: bytes, PHP's null, the three
    exceptions, and the byte-level helpers of the JSMin class (its constants,
    the control-byte folding done by get(), the line-ending rewrite done by the
    constructor, and isAlphaNum). */
module Base {

  /** The minifier works strictly one byte at a time. */
  type Byte = c: char | c as int < 256 witness ' '

  /** `None` stands for PHP's `null`: end of input, or a field not yet set. */
  datatype Option<+T> = None | Some(value: T)

  /** The three messages `JSMinException` is thrown with. */
  datatype Error = UnterminatedString | UnterminatedRegex | UnterminatedComment

  /** How a step of the minifier ends: with a value, with a `JSMinException`,
      or never (`Spins`: the source keeps looping without reading input). */
  datatype Result<+T> = Ok(value: T) | Thrown(error: Error) | Spins {
    predicate IsFailure() {
      !Ok?
    }

    function PropagateFailure<U>(): Result<U>
      requires !Ok?
    {
      if Thrown? then Thrown(error) else Spins
    }

    function Extract(): T
      requires Ok?
    {
      value
    }
  }

  const ORD_LF := 10
  const ORD_SPACE := 32
  const BOM_LEAD: Byte := 0xEF as char

  /** The three quote characters that open a string or template literal. */
  const QUOTES: set<Byte> := {'\'', '"', '`'}

  /** The characters after which a `/` opens a regular-expression literal. */
  const REGEX_PREFIX: set<Byte> := {'(', ',', '=', ':', '[', '!', '&', '|', '?', '{', '}', ';', '\n'}

  /** PHP's `ord`: the code of a byte, and 0 for `null`. */
  function Ord(c: Option<Byte>): nat {
    match c
    case None => 0
    case Some(x) => x as nat
  }

  /** What `$output .= $c` appends: the byte, or nothing for `null`. */
  function Emitted(c: Option<Byte>): seq<Byte> {
    match c
    case None => []
    case Some(x) => [x]
  }

  /** One-or-zero count of an optional byte, used in termination measures. */
  function Count(c: Option<Byte>): nat {
    if c.Some? then 1 else 0
  }

  /** A byte as get() hands it out: "\r" becomes "\n" and every other
      control byte below ORD_SPACE except "\n" becomes a space. */
  function Fold(c: Byte): (r: Byte)
    ensures r == '\n' || r as int >= ORD_SPACE
    ensures r == c <==> c == '\n' || c as int >= ORD_SPACE
    ensures r == '\n' <==> c == '\n' || c == '\r'
    ensures r != c && c != '\r' ==> r == ' '
  {
    if c == '\r' then '\n'
    else if c == '\n' || c as int >= ORD_SPACE then c
    else ' '
  }

  /** A byte get() can hand out: a line feed or a byte at or above ORD_SPACE. */
  predicate IsFolded(c: Byte) {
    c == '\n' || c as int >= ORD_SPACE
  }

  predicate AllFolded(s: seq<Byte>) {
    forall k :: 0 <= k < |s| ==> IsFolded(s[k])
  }

  /** Fold applied to every byte. */
  function FoldAll(s: seq<Byte>): (r: seq<Byte>)
    ensures |r| == |s|
    ensures forall k :: 0 <= k < |s| ==> r[k] == Fold(s[k])
    ensures AllFolded(r)
  {
    seq(|s|, k requires 0 <= k < |s| => Fold(s[k]))
  }

  /** `str_replace("\r\n", "\n", s)`: every "\r\n" pair, found left to right
      without overlap, becomes a single "\n". */
  function ReplaceCrlf(s: seq<Byte>): (r: seq<Byte>)
    ensures |r| <= |s|
    decreases |s|
  {
    if |s| >= 2 && s[0] == '\r' && s[1] == '\n' then ['\n'] + ReplaceCrlf(s[2..])
    else if s == [] then []
    else [s[0]] + ReplaceCrlf(s[1..])
  }

  /** isAlphaNum: bytes above 126, the backslash, and `[A-Za-z0-9_$]` (the
      class `^[\w\$]$` of the source, applied to a single byte); `null` is none
      of these. */
  predicate IsAlphaNum(c: Option<Byte>)
    ensures IsAlphaNum(c) ==> c.Some? && c.value as int > ORD_SPACE && c.value != '/' && c.value !in QUOTES
    ensures IsAlphaNum(c) ==> c.value !in REGEX_PREFIX
  {
    match c
    case None => false
    case Some(x) =>
      x as int > 126 || x == '\\' || 'a' <= x <= 'z' || 'A' <= x <= 'Z' || '0' <= x <= '9' || x == '_' || x == '$'
  }
}
