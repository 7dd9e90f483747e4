# JSMin (PHP, version 1.1.5) in Dafny

This project models `JSMin`, a one-pass JavaScript minifier written as a PHP
class. The class reads the source byte by byte through `get()`, which folds
`"\r"` into a line feed and other control bytes into a space. `next()` builds on
`get()` and drops `//` and block comments. The main loop `min()` keeps two
bytes, `a` and `b`. For each pair it issues one of three commands to
`action()`: keep `a`, delete `a`, or delete `a` and `b`. String literals (`'`,
`"` and backquote) are copied by `processString()`. A `/` read into `b`
while `a` holds one of `( , = : [ ! & | ? { } ;` or a line feed opens a
regular-expression literal, which `processRegex()` copies. A line feed that
is still in `b` when the `/` arrives does not count: in `x`, line feed,
`/ a/` the loop deletes the line feed while `a` is `x`, so that `/` is
division. Both copy the bytes as `get()` hands them out,
so control bytes inside a literal are folded like everywhere else.

The model has three layers.

- `Base` (base.dfy) holds the bytes, the constants and the pure helpers
  (`Fold` for `get()`'s byte folding, `ReplaceCrlf` for the constructor's
  `str_replace`, `IsAlphaNum`).
- `Reference` (reference.dfy) gives a pure function for every member of the
  class. Each one works on the stream of bytes `get()` will hand out. The
  functions are `NextSpec`, `ScanString`, `ScanRegex`/`ClassFrom`, `KeepA`,
  `DeleteA`, `DeleteAB`, `Action`, `Decide`, `Run`, `MinFrom` and `MinifySpec`.
- `Minifier.JSMin` (jsmin.dfy) is the class itself. Its fields are those of the
  PHP class and its methods update them in place. Each method's `ensures`
  ties the new state to the reference function of the old state. The ghost
  function `Pending()` names the stream: the look-ahead byte, then the unread
  input, each folded.

The properties are proved on the reference functions:

- `ReaderProps` covers the constructor and the comment reader.
- `ScannerProps` covers the string and regular-expression scanners.
- `EmissionProps` covers what the main loop emits: the output only grows, a
  byte-order mark is skipped, and a first word byte gets a leading space. For
  code with no `/` at all (so no comments, no regular expressions and no
  division either), no quotes, and no leading 0xEF, it gives the exact
  output: the reference function `Compacted` drops every blank, and puts a
  single space between two word bytes exactly when the blanks between them
  hold a space (or a control byte, which `get()` turns into one).
- `Behaviour` gives exact results for small inputs.
- `Steps` holds one-step unfolding lemmas used by the proofs.

Exceptions (`JSMinException`) are the `Thrown` case of a `Result`. The one
input on which the PHP code never returns is modelled by a third case,
`Spins`. That input is end of input inside a `[...]` class of a regular
expression, where the `do ... while` loop keeps reading `null`.

Behaviour of the code that the header comment or a reader might not expect
(the model follows the code):

- A line feed between two identifiers is removed, not kept as a space: the
  code turns `a` then line feed then `b` into ` ab` (`Behaviour.MinifyJoinsLines`).
  This happens because the line feed in `b` makes the loop issue "delete a
  and b" before it is ever moved into `a`.
- A block comment becomes one space, so `a/*x*/b` gives ` a b`.
- `min()` primes `a` with a line feed. It becomes a leading space when the
  first byte `next()` returns is a word byte, or a blank (a comment's space
  included) before one: `minify("a")`, `minify(" a")` and
  `minify("/*c*/a")` are all `" a"`. It is written as a raw line feed when
  the script opens with a regular expression: `minify("/x/")` is `"\n/x/"`
  (`Behaviour.MinifyOpensWithRegex`). Otherwise it is dropped:
  `minify("(")` is `"("`.
- Control bytes inside a string or regular expression are not kept: `get()`
  turns a tab or a vertical tab into a space before `processString()` sees
  it, so a tab inside a string literal comes out as a space. An unescaped
  line feed in a string, or in a regular expression outside a `[...]`
  class, is an error instead. A line feed after a backslash, in either kind
  of literal, or inside a regular expression's `[...]` class is copied.
- A raw line feed inside a string literal throws "Unterminated string
  literal", although the header says line breaks in strings are preserved.
  The `inString`/`inRegex` branches of `min()` that would preserve them are
  never reached, because both flags are false whenever the loop runs.
- Inside a `[...]` class of a regular expression, a backslash is not special
  and the class ends at the first `]`.
- `str_replace("\r\n", "\n", ...)` is a single left-to-right pass. A lone
  `"\r"` survives it and `get()` turns it into a line feed.
- `isAlphaNum` treats every byte above 126 and the backslash as a word byte.

## Model

| member | source | states |
|---|---|---|
| Base.Fold | JSMin-1.1.5_en.php:172-178 | what `get()` hands out is a line feed or a byte at or above space; the byte is unchanged exactly when it is a line feed or at or above space; it becomes a line feed exactly for `"\r"` and `"\n"`; otherwise it becomes a space |
| Base.IsAlphaNum | JSMin-1.1.5_en.php:186-188 | a word byte is present, above space, and never a `/`, a quote or a byte after which a `/` opens a regular expression |
| Base.FoldAll | JSMin-1.1.5_en.php:159-179 | folding the whole input keeps its length, folds each byte at its own position, and leaves only bytes `get()` can return |
| Base.ReplaceCrlf | JSMin-1.1.5_en.php:49 | the constructor's line-ending rewrite never lengthens the input |
| Reference.Source | JSMin-1.1.5_en.php:47-51 | the stream the constructor sets up is no longer than the input and holds only bytes `get()` can hand out |
| ReaderProps.ReplaceCrlfWithoutCr | JSMin-1.1.5_en.php:49 | an input without `"\r"` is left unchanged by the constructor |
| ReaderProps.ReplaceCrlfUndoesCrlf | JSMin-1.1.5_en.php:49 | turning every line feed of a `"\r"`-free text into `"\r\n"` and then applying the constructor's rewrite gives the text back |
| ReaderProps.SourceFolded | JSMin-1.1.5_en.php:47-51 | every byte the constructed reader will hand out is a line feed or at or above space, and never `"\r"` |
| ReaderProps.SourceWithoutCr | JSMin-1.1.5_en.php:47-51 | without `"\r"` in the input, the stream is just the input folded byte by byte |
| Reference.Pop | JSMin-1.1.5_en.php:159-170 | `get()` returns null exactly when the stream is exhausted, and otherwise consumes one byte |
| Reference.SkipLine | JSMin-1.1.5_en.php:265-268 | the `//` loop never grows the stream and returns null only once the stream is empty |
| Reference.SkipBlock | JSMin-1.1.5_en.php:270-284 | a closed block comment yields one space and consumes input; an unclosed one throws "Unterminated comment"; the loop always ends |
| Reference.NextSpec | JSMin-1.1.5_en.php:259-292 | `next()` always returns, throws only for an unterminated comment, consumes at least one byte of a non-empty stream, and returns null on an empty stream |
| ReaderProps.SkipLineToNewline | JSMin-1.1.5_en.php:265-268 | a line comment is skipped up to its line feed, which is returned, or to the end of input, where null is returned |
| ReaderProps.NextLineComment | JSMin-1.1.5_en.php:263-268 | `next()` on `//` plus comment text returns the line feed that ends it, or null at end of input |
| ReaderProps.SkipBlockToCloser | JSMin-1.1.5_en.php:272-280 | a block comment body without `*/` is skipped through the first `*/`, yielding one space |
| ReaderProps.SkipBlockToEnd | JSMin-1.1.5_en.php:273-283 | a block comment that never closes throws "Unterminated comment" |
| ReaderProps.NextBlockComment | JSMin-1.1.5_en.php:263-284 | `next()` on a block comment returns one space and the stream after `*/`, or throws when `*/` never comes |
| ReaderProps.NextOtherByte | JSMin-1.1.5_en.php:259-292 | a byte that does not start a comment is returned unchanged by `next()` |
| Reference.ScanString | JSMin-1.1.5_en.php:99-120 | a scan that succeeds consumes input; the only exception is "Unterminated string literal"; the loop always ends |
| ScannerProps.ScanStringBody | JSMin-1.1.5_en.php:99-120 | a string body made of ordinary bytes and backslash pairs, followed by its quote, is copied exactly and the quote is consumed |
| ScannerProps.ScanStringUnterminated | JSMin-1.1.5_en.php:113-116 | a string body that reaches a raw line feed or the end of input throws "Unterminated string literal" |
| Reference.ClassFrom | JSMin-1.1.5_en.php:130-134 | the class loop never throws; when it stops it has consumed input |
| ScannerProps.ClassFromBody | JSMin-1.1.5_en.php:130-134 | a class body up to its first `]` is copied exactly, and the `]` is consumed |
| ScannerProps.ClassFromSpins | JSMin-1.1.5_en.php:130-134 | a class with no `]` before the end of input never ends |
| Reference.ScanRegex | JSMin-1.1.5_en.php:126-151 | a scan that succeeds consumes input; the only exception is "Unterminated regex literal" |
| Reference.RegexLiteral | JSMin-1.1.5_en.php:125-153 | `processRegex()` consumes input when it succeeds, and throws only for an unterminated regular expression or an unterminated comment after it |
| ScannerProps.RegexBodyStep | JSMin-1.1.5_en.php:126-151 | a well-formed body splits into a first unit (a byte, a backslash pair, or a class) copied as it is, and a well-formed rest |
| ScannerProps.RegexEscapeUnit | JSMin-1.1.5_en.php:141-144 | a backslash and the byte after it are copied as a pair, so an escaped `/` does not end the literal |
| ScannerProps.RegexClassUnit | JSMin-1.1.5_en.php:130-135 | a `[...]` class is copied whole, so a `/` inside it does not end the literal |
| ScannerProps.RegexByteUnit | JSMin-1.1.5_en.php:145-150 | an ordinary byte is copied by itself |
| ScannerProps.ScanRegexBody | JSMin-1.1.5_en.php:126-151 | a well-formed body followed by `/` is copied exactly, and the closing `/` is consumed |
| ScannerProps.ScanRegexUnterminated | JSMin-1.1.5_en.php:145-148 | a well-formed body that reaches a raw line feed or the end of input throws "Unterminated regex literal" |
| ScannerProps.ScanRegexOpenClass | JSMin-1.1.5_en.php:130-134 | a body that ends inside an open class never ends |
| Reference.KeepA | JSMin-1.1.5_en.php:59-64 | ACTION_KEEP_A appends `a` to the output, a line feed turned into a space and any other byte as it is, and leaves `b` and the stream alone |
| Reference.DeleteA | JSMin-1.1.5_en.php:66-75 | ACTION_DELETE_A moves `b` into `a`; the output only grows; the only exception is an unterminated string |
| Reference.OpensRegex | JSMin-1.1.5_en.php:81-86 | a `/` after a word byte never opens a regular expression; after a line feed it always does |
| Reference.DeleteAB | JSMin-1.1.5_en.php:77-92 | ACTION_DELETE_A_B keeps the output a prefix of the new output, reduces the loop measure whenever there is more to read, and keeps `a` present |
| Reference.Action | JSMin-1.1.5_en.php:57-94 | the fall-through switch only appends to the output and, from a state with `a` present, always makes progress, so the main loop ends |
| Reference.Decide | JSMin-1.1.5_en.php:219-248 | the command for each pair: after a space in `a`, keep it exactly when `b` is a word byte; before a space in `b`, keep `a` exactly when it is a word byte and delete both otherwise; before a line feed in `b`, delete both; otherwise keep `a` |
| Reference.Run | JSMin-1.1.5_en.php:205-249 | the main loop never takes back anything already written |
| Reference.SkipBom | JSMin-1.1.5_en.php:195-198 | a stream that does not start with 0xEF is left alone; one that does loses exactly its first three bytes, or all of them when it is shorter |
| Reference.MinFrom | JSMin-1.1.5_en.php:194-252 | `min()` keeps whatever output it started with at the front of its result |
| Reference.MinifySpec | JSMin-1.1.5_en.php:38-41 | the empty script minifies to the empty output |
| EmissionProps.KeepAThenMore | JSMin-1.1.5_en.php:59-92 | what ACTION_KEEP_A writes stays in the output through the rest of the fall-through switch |
| EmissionProps.DeleteABWritesOnlyRegex | JSMin-1.1.5_en.php:77-92 | ACTION_DELETE_A_B writes exactly when `b` is a `/` that opens a regular expression, and then writes `a` and `/` first |
| EmissionProps.SourceAfterMark | JSMin-1.1.5_en.php:47-51 | an input that starts with 0xEF gives a stream that starts with the same three bytes folded, then the stream of the rest |
| EmissionProps.MinifySkipsByteOrderMark | JSMin-1.1.5_en.php:195-198 | a three-byte mark in front of the input does not change the result |
| EmissionProps.LeadingBlanksRun | JSMin-1.1.5_en.php:205-249 | from a blank `a`, with only blanks and then a word byte still to come, the first byte written is a space |
| EmissionProps.SourceBlankPrefix | JSMin-1.1.5_en.php:47-51 | the stream of an input made of blanks, a byte above space and a rest is blanks, that byte, then the stream of the rest |
| EmissionProps.MinifyLeadingSpace | JSMin-1.1.5_en.php:200-224 | an input whose first non-blank byte is a word byte, whatever follows it, gives an output that starts with a space |
| EmissionProps.Significant | JSMin-1.1.5_en.php:219-248 | dropping blank bytes never lengthens a text |
| EmissionProps.SignificantAppend | JSMin-1.1.5_en.php:219-248 | dropping blank bytes distributes over concatenation |
| EmissionProps.NextPlain | JSMin-1.1.5_en.php:259-292 | on a stream without `/` or quotes, `next()` behaves as `get()` |
| EmissionProps.PlainAction | JSMin-1.1.5_en.php:57-94 | without `/` or quotes, each command shifts the pair by one byte, and only ACTION_KEEP_A writes `a` |
| EmissionProps.GoodStep | JSMin-1.1.5_en.php:205-249 | one loop step keeps the invariant: no line feed written, spaces only between word bytes, a pending space only after a word byte |
| EmissionProps.RemainingStep | JSMin-1.1.5_en.php:205-249 | one loop step loses no non-blank byte: the output plus what is still to come keeps the same non-blank bytes |
| EmissionProps.RunPlain | JSMin-1.1.5_en.php:205-251 | from any state meeting the invariant, the loop returns normally, writes no line feed, puts spaces only between word bytes, does not end with a space, and keeps every non-blank byte in order |
| EmissionProps.ReplaceCrlfPlain | JSMin-1.1.5_en.php:49 | the line-ending rewrite keeps code without literals free of literals and keeps its non-blank bytes |
| EmissionProps.FoldAllPlain | JSMin-1.1.5_en.php:172-178 | byte folding keeps code without literals free of literals and keeps its non-blank bytes |
| EmissionProps.SourcePlain | JSMin-1.1.5_en.php:47-51 | the constructed stream of code without literals keeps its non-blank bytes and does not start with 0xEF |
| EmissionProps.PrimedPlain | JSMin-1.1.5_en.php:194-202 | after the mark check and priming, the loop starts with `a` a line feed, `b` the first byte, and a state meeting the invariant |
| EmissionProps.MinifyPlain | JSMin-1.1.5_en.php:38-41 | for code with no `/`, no quotes and no leading 0xEF, `minify` returns normally and its output is exactly `Compacted` of the stream: no line feed, spaces only between word bytes, no trailing space, and exactly the input's non-blank bytes in order |
| EmissionProps.TailStepBlank | JSMin-1.1.5_en.php:219-225 | one turn from a blank `a` keeps the output plus what `Compacted` says is still to be written |
| EmissionProps.TailStepWord | JSMin-1.1.5_en.php:230-247 | one turn from any other `a` keeps the output plus what `Compacted` says is still to be written |
| EmissionProps.RunCompacted | JSMin-1.1.5_en.php:205-251 | on plain code the loop returns exactly the output so far plus the compacted rest of the stream |
| EmissionProps.CompactedBlanks | JSMin-1.1.5_en.php:219-248 | blanks between two bytes change only whether a space is due, and one is due after a word byte exactly when the blanks hold a space |
| EmissionProps.CompactedSplit | JSMin-1.1.5_en.php:205-249 | the compacted form of a stream is `Compacted` of its first part, followed by the second part compacted from the state (word byte last, space owed) the first leaves |
| EmissionProps.CompactedSeparates | JSMin-1.1.5_en.php:219-248 | two word bytes with only blanks between them come out separated by one space when the blanks hold a space, and joined otherwise |
| EmissionProps.MinifyOneLetter | JSMin-1.1.5_en.php:201-202 | `minify("a")` is `" a"` |
| Behaviour.MinifyJoinsLines | JSMin-1.1.5_en.php:238-242 | two word bytes on separate lines are joined with nothing between them |
| Behaviour.MinifyBlockCommentSeparates | JSMin-1.1.5_en.php:270-280 | a block comment between two word bytes becomes a single space |
| Behaviour.MinifyKeepsDivision | JSMin-1.1.5_en.php:80-86 | a `/` after a word byte is division, not a regular expression, and `x/y/z` is kept as it is |
| Behaviour.MinifyUnterminatedString | JSMin-1.1.5_en.php:99-120 | a string literal cut off by a line feed or the end of input makes `minify` throw "Unterminated string literal" |
| Behaviour.MinifySeparatesWords | JSMin-1.1.5_en.php:219-248 | in `minify` of code without `/` or quotes, `x` and `y` separated by blanks come out as `x y` when the blanks hold a space and as `xy` when they are only line feeds, followed by the rest compacted on its own |
| Behaviour.MinifyStringControl | JSMin-1.1.5_en.php:99-120 | a control byte other than a line feed or carriage return inside a string literal comes out as a space |
| Behaviour.MinifyStringControlBytes | JSMin-1.1.5_en.php:172-178 | a tab (9) and a vertical tab (11) inside a string literal are each copied as a space |
| Behaviour.MinifyStringLineFeed | JSMin-1.1.5_en.php:113-116 | a line feed (10) inside a string literal makes `minify` throw "Unterminated string literal", even with the closing quote right after it |
| Behaviour.MinifyOpensWithRegex | JSMin-1.1.5_en.php:200-202 | a script that opens with a regular expression, `/x/`, comes out with the primed line feed written raw in front of it, `"\n/x/"`, because a line feed may precede a regular expression (lines 81-89) |
| Behaviour.RunLast | JSMin-1.1.5_en.php:244-246 | a last non-blank byte is written as it is and the loop ends |
| Behaviour.RunLastTwo | JSMin-1.1.5_en.php:244-246 | two last bytes that the loop keeps are written in order and the loop ends |
| Minifier.JSMin.constructor | JSMin-1.1.5_en.php:47-51 | the reader starts at the constructor's rewritten input with nothing buffered, empty output and both flags false |
| Minifier.JSMin.Get | JSMin-1.1.5_en.php:159-179 | `get()` hands out exactly the first byte of the stream, or null when it is empty, and empties the look-ahead |
| Minifier.JSMin.Peek | JSMin-1.1.5_en.php:298-301 | `peek()` returns the next byte without consuming the stream |
| Minifier.JSMin.Next | JSMin-1.1.5_en.php:259-292 | `next()` returns what `NextSpec` says for the old stream and leaves its remainder, or throws the same exception |
| Minifier.JSMin.ProcessString | JSMin-1.1.5_en.php:99-120 | appends exactly the body `ScanString` copies, leaves `a` on the closing quote and clears `inString`, or throws as `ScanString` does |
| Minifier.JSMin.CopyClass | JSMin-1.1.5_en.php:130-134 | the class loop appends the class the reference copies and stops on `]`, or spins exactly when the reference does |
| Minifier.JSMin.CopyRegexBody | JSMin-1.1.5_en.php:126-151 | appends exactly the body `ScanRegex` copies and leaves `a` on the closing `/`, or fails as `ScanRegex` does |
| Minifier.JSMin.ProcessRegex | JSMin-1.1.5_en.php:125-153 | appends the copied body, leaves `a` on `/` and refills `b` with `next()`, as `RegexLiteral` says |
| Minifier.JSMin.KeepAStep | JSMin-1.1.5_en.php:59-64 | the ACTION_KEEP_A case changes the state as `KeepA` says |
| Minifier.JSMin.DeleteAStep | JSMin-1.1.5_en.php:66-75 | the ACTION_DELETE_A case changes the state as `DeleteA` says, or throws as it does |
| Minifier.JSMin.DeleteABStep | JSMin-1.1.5_en.php:77-92 | the ACTION_DELETE_A_B case changes the state as `DeleteAB` says, or fails as it does |
| Minifier.JSMin.Action | JSMin-1.1.5_en.php:57-94 | `action(cmd)` changes the state as `Action` says, or fails as it does |
| Minifier.JSMin.SkipByteOrderMark | JSMin-1.1.5_en.php:195-198 | the mark check leaves the stream `SkipBom` says: three bytes fewer after a leading 0xEF, unchanged otherwise |
| Minifier.JSMin.Min | JSMin-1.1.5_en.php:194-252 | `min()` returns what `MinFrom` gives for the stream and output it started with |
| Minifier.JSMin.Minify | JSMin-1.1.5_en.php:38-41 | `minify(js)` returns `MinifySpec(js)` |

## Left out

- `EmissionProps.MinifyPlain` gives the exact output only for code with no `/` and no quotes. For other code, only the properties listed above are proved.
- Idempotence of `minify` is not proved, and exact results for regular-expression
  literals at the level of `minify` are not derived. The scanner lemmas above
  state how a literal body is copied.
- The Russian-commented copy of the class has the same code and is not modelled separately.
- `preg_match('/^[\w\$]$/', $c)` is replaced by the explicit byte class it matches
  for a single byte: ASCII letters, digits, `_` and `$`.
- PHP's loose `switch` comparisons are modelled as equality on bytes and null.
  No byte compares loosely equal to a space or a line feed unless it is one.
- `JSMinException` is modelled as the `Thrown` result. The message text is kept
  as the error kind.
- The loop that never ends at end of input inside a regular-expression class is
  modelled as the `Spins` result, not as divergence.
- The initial `''` values of `a`, `b` and `stringChar` are modelled as none,
  because `min()` assigns `a` and `b` before reading them.
- The `do ... while` of `processRegex()`, its `for (;;)`, the byte-order-mark
  block of `min()` and the three cases of `action()` are separate methods
  (`CopyClass`, `CopyRegexBody`, `SkipByteOrderMark`, `KeepAStep`, `DeleteAStep`,
  `DeleteABStep`). They keep the same statements in the same order.
- The branches of `min()` and `action()` that test `inString` or `inRegex` while
  the main loop runs are not written out, because both flags are false there.
  The class asserts that instead.
- `Minifier.JSMin.ProcessString`, `CopyClass`, `CopyRegexBody` and `ProcessRegex`
  return the bytes they appended as a ghost value, which the PHP code does not.
