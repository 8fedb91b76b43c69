# Ordered line checker and append-only identity map

This project models two small pieces of a GraalVM repository and proves properties of them in Dafny.

1. **`Checker`** comes from the gdb test script `substratevm/mx.substratevm/testhello.py`. A checker has a name and an ordered list of compiled regular expressions. `check(text, skip_fails)` cuts a gdb command's output into lines. It then walks a pattern cursor and a line cursor forward together. Each pattern takes the first later line it matches, with the match anchored at the start of the line. Non-strict mode (`skip_fails=True`, the default) skips lines that do not match. Strict mode fails on the first line that does not match. If the lines run out before every pattern has matched, the check fails. Failure is `sys.exit(1)`; here it is an `Outcome.Failure(kind, patternIdx, lineIdx)` value. `str(checker)` lists the name and the patterns.
2. **`FinalIntMap`** comes from the Truffle polyglot engine. It maps objects to non-negative `int`s and compares keys by identity. It is a singly linked chain of `Entry` nodes. `get` scans for the first entry whose key is identical to the argument and returns `-1` if there is none. `put` appends a new entry at the tail. It requires the key to be absent and the value to be non-negative.

Files:

- `wrappers.dfy`: the `Option` type. `None` stands for the `None` that a failed regex match returns.
- `lines.dfy` (module `Lines`): Python 3's `str.splitlines()`, with Python 3's set of line boundaries. Also the inverse on break-free lines: terminate each line with a newline and concatenate.
- `checker_spec.dfy` (module `CheckerSpec`): the outcome `check` must produce.
  - `Seek` is one run of the inner `while` loop.
  - `VerdictFrom` and `Verdict` are the two-cursor scan.
  - The declarative reading: the patterns occur as an ordered subsequence of the lines (`IsEmbedding`, `Embeds`).
  - The lemmas connecting the two: soundness, greedy completeness, strict mode, exhaustion, trailing lines, noise.
- `testhello.dfy` (module `TestHello`): the `Checker` class.
  - Its constructor normalises a single pattern into a one-element list.
  - `Check` has the source's nested `for`/`while` loops and is proved equal to `Verdict`.
  - `ToString` has the source's string-building loop.
  - Also: the single-pattern shorthand, and concrete scenarios proved with a literal-prefix stand-in engine.
- `final_int_map.dfy` (module `Polyglot`): the `Entry` and `FinalIntMap` classes.
  - A ghost sequence `nodes` lists the chain from `first` in order.
  - `Contents()` is the abstract list of (key, value) entries.
  - `Get` and `Put` walk the chain in `while` loops, as the Java code does.
  - `Lookup` is the specification of `get`. The lemmas about it cover the first match, absence, appending, and reading the chain as a map.

The regular-expression engine is a value of type `CheckerSpec.RegexEngine` held by each checker.
- `matchAt(p, line)` stands for `re.compile(p).match(line)`. It returns the captured groups of a match anchored at the start of the line, or `None`.
- `display(p)` stands for `str()` of the compiled pattern.

The model says nothing about what the engine matches beyond this. Every property of the checker holds for every engine.

## Model

| member | source | states |
|---|---|---|
| `TestHello.Checker.constructor` | substratevm/mx.substratevm/testhello.py:56-60 | stores the name; the pattern list is the given list, or a one-element list for a single pattern |
| `TestHello.SingleShorthand` | substratevm/mx.substratevm/testhello.py:58-60 | a checker built from a bare pattern returns exactly what one built from the one-element list returns, for every text and mode |
| `TestHello.CheckByDefault` | substratevm/mx.substratevm/testhello.py:71 | `check` called without a mode is the non-strict check (`skip_fails` defaults to true) |
| `TestHello.Checker.Check` | substratevm/mx.substratevm/testhello.py:71-99 | the result of the nested pattern/line loops is `Verdict` of the patterns and the split lines; on success it is one faithful match per pattern at increasing lines; a failure names an existing pattern |
| `Lines.SplitLines` | substratevm/mx.substratevm/testhello.py:72 | every line holds no line boundary, and there are no more lines than characters |
| `Lines.SplitJoin` | substratevm/mx.substratevm/testhello.py:72 | splitting the newline-terminated concatenation of break-free lines gives those lines back |
| `Lines.SplitLinesAt` | substratevm/mx.substratevm/testhello.py:72 | a break-free line followed by `\r\n`, or by any single line boundary (a lone `\r` only when no `\n` follows), splits off as one line; `\r\n` is one boundary, not two |
| `Lines.SplitUnterminated` | substratevm/mx.substratevm/testhello.py:72 | a final non-empty break-free line without a trailing newline is still a line: splitting the joined lines followed by it gives the lines and then it |
| `CheckerSpec.Seek` | substratevm/mx.substratevm/testhello.py:81-92 | the line cursor stops at the first matching line at or after it, and no earlier line from the cursor matches; strict mode only ever looks at the cursor line and stops there on a mismatch; exhaustion means no remaining line matches |
| `CheckerSpec.SuccessIsFaithful` | substratevm/mx.substratevm/testhello.py:78-93 | on success there is exactly one match per pattern, in pattern order; match i is the engine's match of pattern i on the line it names; line indices strictly increase |
| `CheckerSpec.GreedyIsLeftmost` | substratevm/mx.substratevm/testhello.py:81-92 | in non-strict mode each match is the first line after the previous match that matches its pattern |
| `CheckerSpec.NonStrictSucceedsIffEmbeds` | substratevm/mx.substratevm/testhello.py:78-97 | non-strict mode succeeds if and only if there are increasing line indices j0 < ... < jn-1 with line ji matching pattern i (greedy matching loses nothing) |
| `CheckerSpec.StrictSucceedsIff` | substratevm/mx.substratevm/testhello.py:84-89 | strict mode succeeds if and only if there are at least as many lines as patterns and line i matches pattern i for every i |
| `CheckerSpec.StrictOutcome` | substratevm/mx.substratevm/testhello.py:84-97 | strict mode with lines 0..k-1 matching and line k not: the failure is a mismatch at pattern k, line k, whatever later lines hold; if the lines end first it is an insufficiency; on success pattern i sits on line i |
| `CheckerSpec.FewerLinesThanPatternsFails` | substratevm/mx.substratevm/testhello.py:93-97 | fewer lines than patterns is a failure in either mode |
| `CheckerSpec.FailureInRange` | substratevm/mx.substratevm/testhello.py:84-97 | a failure reports a pattern index below the number of patterns; a mismatch happens only in strict mode, at an existing line that does not match that pattern; an insufficiency reports the number of lines |
| `CheckerSpec.VerdictFromPrefix` | substratevm/mx.substratevm/testhello.py:78-97 | a failure at pattern m depends only on the patterns up to m: the first m patterns alone succeed, and the first m + 1 fail with the same outcome |
| `CheckerSpec.InsufficientCountsMatches` | substratevm/mx.substratevm/testhello.py:93-94 | an insufficiency reports as its pattern index the number of matches found (`len(matches)`): the first m patterns succeed with m matches; in non-strict mode they occur in order in the lines and the first m + 1 do not; in strict mode m is the line count and every line matched its pattern |
| `CheckerSpec.NoPatternsSucceed` | substratevm/mx.substratevm/testhello.py:76-99 | with zero patterns the check succeeds with an empty match list |
| `CheckerSpec.TrailingLinesIgnored` | substratevm/mx.substratevm/testhello.py:78-81 | appending lines to a transcript that succeeds, or that fails on a strict mismatch, leaves the whole outcome unchanged, matches included |
| `CheckerSpec.NoiseTolerated` | substratevm/mx.substratevm/testhello.py:81-92 | in non-strict mode, inserting anywhere a line that matches no pattern does not change whether the check succeeds |
| `TestHello.OrderedWithNoise` | substratevm/mx.substratevm/testhello.py:78-93 | patterns A, B against lines X, A, Y, B succeed with A on line 1 and B on line 3 |
| `TestHello.StrictRejectsNoise` | substratevm/mx.substratevm/testhello.py:84-89 | the same in strict mode fails at pattern 0, line 0 |
| `TestHello.OutOfOrderIsInsufficient` | substratevm/mx.substratevm/testhello.py:93-97 | patterns A, B against lines B, A fail as insufficient after one match, at line count 2 |
| `TestHello.AnchoredAtStart` | substratevm/mx.substratevm/testhello.py:83-93 | with a prefix-matching stand-in engine, pattern `Break` against lines `at Break`, `Break 1` is a strict mismatch at pattern 0, line 0; in non-strict mode `at Break` is skipped and `Break 1` matches |
| `TestHello.Checker.ToString` | substratevm/mx.substratevm/testhello.py:102-109 | the text built by the loop is the checker's rendering: a header line, one indented line per pattern, a closing brace |
| `TestHello.RenderedLines` | substratevm/mx.substratevm/testhello.py:102-109 | that rendering splits back into exactly `Checker <name> {`, one `  <pattern>` line per pattern in order, and `}` (given break-free name and shown patterns) |
| `Polyglot.Entry.constructor` | truffle/src/com.oracle.truffle.polyglot/src/com/oracle/truffle/polyglot/FinalIntMap.java:87-98 | a new entry holds the given key and value and has no successor |
| `Polyglot.FinalIntMap.constructor` | truffle/src/com.oracle.truffle.polyglot/src/com/oracle/truffle/polyglot/FinalIntMap.java:51-53 | a new map has no entries and `first` is null |
| `Polyglot.FinalIntMap.Get` | truffle/src/com.oracle.truffle.polyglot/src/com/oracle/truffle/polyglot/FinalIntMap.java:56-65 | the chain walk returns `Lookup` of the entries; it returns -1 if and only if no entry has the key, and otherwise a non-negative value |
| `Polyglot.FinalIntMap.Put` | truffle/src/com.oracle.truffle.polyglot/src/com/oracle/truffle/polyglot/FinalIntMap.java:67-85 | requires the key absent and the value non-negative; the entries become the old entries followed by (key, value); the chain keeps its old nodes and gains exactly one newly allocated node at its end; distinct keys and non-negative values are kept; `first` is set to the new entry only on an empty map; afterwards `get(key)` is the value and every other key's `get` is unchanged |
| `Polyglot.LookupFindsFirst` | truffle/src/com.oracle.truffle.polyglot/src/com/oracle/truffle/polyglot/FinalIntMap.java:57-63 | `get` returns the value of the first entry whose key is identical to the argument |
| `Polyglot.LookupMissing` | truffle/src/com.oracle.truffle.polyglot/src/com/oracle/truffle/polyglot/FinalIntMap.java:56-65 | `get` returns -1 when no entry has the key |
| `Polyglot.LookupAbsentIff` | truffle/src/com.oracle.truffle.polyglot/src/com/oracle/truffle/polyglot/FinalIntMap.java:69-70 | with non-negative values, `get` is -1 exactly when the key is absent and non-negative otherwise |
| `Polyglot.LookupAfterAppend` | truffle/src/com.oracle.truffle.polyglot/src/com/oracle/truffle/polyglot/FinalIntMap.java:71-84 | appending (k, v) for an absent k makes `get(k)` equal v and leaves `get` of every other key unchanged |
| `Polyglot.LookupIsMapLookup` | truffle/src/com.oracle.truffle.polyglot/src/com/oracle/truffle/polyglot/FinalIntMap.java:47-51 | with distinct keys the chain is a map: `get` is lookup in that map with default -1, and a key is in the map exactly when some entry has it |

## Left out

- The regular-expression engine (`re.compile`, `re.match`, match objects): it is the opaque `RegexEngine` value. Capture-group extraction, such as reading a gdb version from its banner, therefore cannot be stated. A `Match` records the line, its index and the engine's groups in place of a Python match object.
- `str()` of a compiled pattern depends on the Python running inside gdb. Python 3.7 and later print `re.compile(...)` with the pattern's repr cut to 200 characters; Python 2 prints an object address. The model takes it from `RegexEngine.display`.
- The output on every path: the diagnostic messages, `print(self)`, and `print(text)`. The message formatting is left out with them. `sys.exit(1)` is the returned `Failure`.
- The pattern argument is either a bare pattern or a list. Other non-list Python values, such as tuples, would also be wrapped; this is not modelled.
- Anchoring at the start of a line is a property of the engine (`re.match`), which the model leaves opaque; `TestHello.AnchoredAtStart` shows only how the checker treats a line the engine rejects and a later line it accepts.
- `execute` and `test()` in testhello.py: they drive a live gdb session, read environment variables and hold fixture patterns.
- `Polyglot.FinalIntMap.Put`: the two Java `assert`s are modelled as preconditions. With assertions disabled, Java would instead append a duplicate key or a negative value.
- `@CompilationFinal`, `@ExplodeLoop` and `CompilerAsserts.neverPartOfCompilation()`: these are partial-evaluation hints and change no behaviour.
- ThreadLocalHandshake.java, LLVMPThreadStart.java, LLVMParser.java and DefaultLoader.java are not part of this model. They are about cross-thread coordination, pthread execution, and thin wrappers around parser code that is not available.
