# TemplateEngine: a verified model of the streaming page builder's template engine

The page builder (`06-build-page/index.js`) assembles an HTML page by piping the
template file through `TemplateEngine`, a Node.js `Transform` stream. The
engine looks for template entries such as `{{header}}`: an open sequence, an
expression, and a close sequence. It hands each expression to a compiler
function and writes the compiler's result in place of the first textual
occurrence of the entry's text, which is not always the entry itself (see
Findings).

Chunks can end in the middle of an entry, so the engine keeps a carry-over
buffer between calls. Each call of `_transform` does four things:

1. It appends the chunk to the buffer.
2. It takes a snapshot of every non-overlapping match of `open(.+?)close`.
3. It resolves the matches one at a time, replacing the first textual
   occurrence of each entry's text.
4. It rejects the call with `Invalid template format.` if a close sequence
   survives. Otherwise it emits the text before the first open sequence and
   keeps the rest for the next chunk.

The model is split into these modules:

- `Strings`: the string operations the engine relies on.
  - The delimiter tests use escaped delimiters: `search` becomes `IndexOf`, and `test` becomes `Contains`. `IndexOfFrom` is the scan behind both.
  - `String.prototype.replace` with a string pattern becomes `ReplaceFirst`.
  - Its `$` substitution patterns become `Expand`.
- `RegExpEscape`: `_regExpEscape` becomes `Escape`, with `Literal`, which reads an escaped pattern back into the text it matches.
- `Scanner`: the entry regular expression.
  - `IsMatchAt` is the relational meaning of one match: lazy, non-empty, and without line terminators, since `.` excludes them.
  - `MatchAt` / `LazyMatch` compute one match.
  - `Entries` is the global `matchAll` scan.
  - `LeftmostScan` is an independent description of that scan.
- `Template`: the body of `_transform` as functions.
  - `Substitute` is the resolve-and-replace loop.
  - `Finish` is the close check and the cut at the first open sequence.
  - `Step` is one whole call.
  - `RunChunks` is a sequence of calls.
  - `RunWith` is a run over many chunks for any per-call step; the runs below are all defined through it.
  - The evidently intended variants are `FinishCleared` / `StepCleared` / `RunChunksCleared`, `StepRaw` / `RunChunksRaw`, and the in-place loop `SubstituteInPlace` over `SpanReplace` (see Findings).
- `Engine`: the `TemplateEngine` class.
  - The delimiters and patterns are fixed at construction.
  - `buffer` is a mutable field.
  - `Process` is `_transform` written as a method with a loop. It is proved equal to `Template.Step`.
- `Scenarios`: concrete calls that pin down edge cases, with the default delimiters except for the `Hash` and `MisplacedReplacement` scenarios, which use `##` as both the open and the close sequence.

The compiler function is the parameter `resolve: string -> Option<string>`. `None` stands for a call that throws.

Where the code and a plain reading of the engine's purpose differ, the model follows the code:

- `{{}}` is not an entry, because `.+?` needs at least one character. Its close sequence survives, so the call fails with the format error (`Scenarios.EmptyExpressionIsRejected`).
- A failing compiler call does not surface as its own error. It is caught and logged, and the loop stops. That entry's text is still in the buffer, so the call then fails with the format error (`Template.ResolverFailureIsFormatError`).
- Each replacement goes to the first textual occurrence of its entry's text in the current buffer. That occurrence can start inside an earlier replacement, and the call can then succeed with the text in the wrong place (`Scenarios.MisplacedReplacement`).
- Within one call, a replacement is not scanned again for entries, because the entries are a snapshot taken before the loop. A replacement that contains a close sequence makes that call fail (`Scenarios.ReplacementIsNotExpanded`).
- Across calls, a replacement can be scanned again. When replacement text lands after the first open sequence, it is kept in the buffer and scanned with the next chunk. When the substituted buffer holds no open sequence at all, the whole buffer, replacements included, is kept because it is not cleared, and is scanned with the next chunk too. Either way the result depends on where the input is cut into chunks (see Findings).
- There is no `_flush`. Text kept in the buffer after the last chunk is never emitted, and the model has no end-of-stream step either.
- When the substituted buffer holds no open sequence, the code emits the buffer but does not clear it (see Findings).

## Model

| member | source | states |
|---|---|---|
| Engine.TemplateEngine.constructor | 06-build-page/index.js:207-225 | Each delimiter defaults to `{{` / `}}`, and a delimiter given in the configuration replaces its default. The open and close patterns are the escaped delimiters and match exactly those delimiters. The buffer starts empty. |
| Engine.TemplateEngine.Process | 06-build-page/index.js:227-266 | The outcome and the new buffer equal `Template.Step` on the old buffer and the chunk. The call fails with `Invalid template format.` exactly when the substituted buffer holds a close sequence, and then keeps that buffer. Otherwise, with an open sequence present, it emits the text before the first one and keeps the rest. The kept rest starts with the open sequence and holds no close sequence, and emitted text + kept text is the substituted buffer. With no open sequence it emits the whole buffer and also keeps it. |
| RegExpEscape.EscapeLength | 06-build-page/index.js:268-270 | The escaped string is one character longer per special character. |
| RegExpEscape.LiteralOfEscape | 06-build-page/index.js:268-270 | The escaped pattern, read as a regular expression, matches exactly the original string (round trip `Literal(Escape(s)) == Some(s)`). |
| RegExpEscape.EscapeOfLiteral | 06-build-page/index.js:268-270 | Every pattern made only of literal atoms is the escape of the string it matches, which is the other direction of the round trip. |
| RegExpEscape.EscapeInjective | 06-build-page/index.js:218-219 | Different delimiters give different patterns. |
| Strings.IndexOfFrom | 06-build-page/index.js:259 | The result is the first index at or after `from` where the pattern occurs, or `None` exactly when there is no such index. |
| Strings.ContainsIff | 06-build-page/index.js:245 | The search for a delimiter succeeds exactly when the delimiter occurs at some index. |
| Strings.ExpandWithoutDollar | 06-build-page/index.js:237 | A replacement without `$` is inserted as it is by `replace`. |
| Strings.ReplaceFirstLiteral | 06-build-page/index.js:237 | A `$`-free replacement takes the place of the first occurrence of the entry text, and the text around it is unchanged. |
| Strings.ReplaceFirstKeepsSuffix | 06-build-page/index.js:237 | If the entry text occurs at `p`, replacing its first occurrence leaves everything after `p + |entry|` in place as a suffix. |
| Scanner.LazyMatch | 06-build-page/index.js:223 | The lazy search from expression length `k` returns a match exactly when one exists, and the match it returns satisfies `IsMatchAt`. |
| Scanner.MatchAtSpec | 06-build-page/index.js:223 | `MatchAt` finds a match at `p` exactly when one exists. The match has the open sequence, a non-empty expression without line terminators, and the first close sequence after the first expression character. |
| Scanner.MatchDeterministic | 06-build-page/index.js:223 | The entry pattern matches at a given index in at most one way. |
| Scanner.EntriesFromIsLeftmostScan | 06-build-page/index.js:230 | The scan yields matches at their own indices, left to right and non-overlapping, with no match skipped in a gap and none after the last one. |
| Scanner.ScanUnique | 06-build-page/index.js:230 | At most one sequence of entries is a leftmost scan of a given buffer. |
| Scanner.EntriesCharacterised | 06-build-page/index.js:230 | `Entries` is exactly the leftmost non-overlapping scan: any sequence with the properties of `EntriesFromIsLeftmostScan` equals it. |
| Template.Substitute | 06-build-page/index.js:234-241 | The resolver is called on a prefix of the entries' expressions, in order. Every call before the last succeeds. The pass is complete only if all of them were called and all succeeded, and an incomplete pass ends on a failing call. |
| Template.SubstituteKeepsPending | 06-build-page/index.js:234-238 | Replacing first occurrences never disturbs the snapshot text from the entry being resolved onwards. The buffer still ends with the snapshot from the failed entry, or from the end of the last entry when all resolved. |
| Template.EntriesPlaced | 06-build-page/index.js:230 | The snapshot's entries occur in the buffer at their indices, in order and apart. |
| Template.NoCloseNoEntries | 06-build-page/index.js:223 | A buffer without a close sequence has no entries. |
| Template.SplitAtFirstOpen | 06-build-page/index.js:259-263 | Cutting at the first open sequence: the two halves rejoin to the buffer, and the kept half starts with the open sequence. Neither half holds a close sequence, and the emitted half holds no open sequence. |
| Template.FinishOutcome | 06-build-page/index.js:245-265 | The end of a call fails exactly when a close sequence survives. Otherwise it either cuts at the first open sequence (the emitted text is everything before it, emitted + kept = buffer, kept starts with open), or emits and keeps the whole buffer when there is no open sequence. |
| Template.ResolverFailureStops | 06-build-page/index.js:234-241 | If the compiler fails on entry `k`, the loop stops at or before `k` on a failing call. The resolver has seen exactly the first expressions in order. |
| Template.FailedPassKeepsClose | 06-build-page/index.js:239-248 | After a loop stopped by a failing compiler call, the buffer still holds a close sequence. |
| Template.ResolverFailureIsFormatError | 06-build-page/index.js:234-248 | A failing compiler call makes the whole call end with `Invalid template format.`. |
| Template.RetainedBufferHasNoEntries | 06-build-page/index.js:253-265 | After an emitting call, the kept buffer contains no entry. |
| Template.LiteralTextIsNotRewritten | 06-build-page/index.js:228-238 | Text without a close sequence passes the substitution loop unchanged: the buffer is the old buffer followed by the chunk. |
| Template.RunRepeatsEmittedText | 06-build-page/index.js:255-256 | As written: two delimiter-free chunks `x`, `y` are emitted as `x` then `x + y`. The outputs joined are `x + x + y`, which differs from the input when `x` is non-empty. |
| Template.FinishClearedConserves | 06-build-page/index.js:245-265 | Corrected ending: it fails exactly on a surviving close sequence. Otherwise emitted + kept = the substituted buffer; it emits up to the first open sequence as the code does, and with no open sequence it emits the whole buffer and keeps nothing. |
| Template.ClearedRunReproducesLiteralText | 06-build-page/index.js:227-266 | Corrected ending: text without a close sequence, cut into any chunks, streams through without failure. The outputs joined, followed by the kept buffer, equal the starting buffer followed by all chunks. |
| Template.LiteralStep | 06-build-page/index.js:227-257 | A call over text with neither delimiter emits the old buffer plus the chunk and keeps all of it. |
| Template.RawStepOutcome | 06-build-page/index.js:227-265 | Corrected call: it fails exactly when the code's call fails. Otherwise emitted + kept = the substituted buffer, and the kept text is raw input: a suffix of the old buffer followed by the chunk, empty or starting with the open sequence, and holding no entry. The cut lies at or after the end of the last entry, and no open sequence starts between that end and the cut. |
| Template.RawRunCarriesOnlyInput | 06-build-page/index.js:227-266 | Corrected calls, over any chunks: in a run that does not fail, the buffer carried between calls is a suffix of the starting buffer followed by all chunks. So no replacement text is ever scanned again. |
| Template.Replacements | 06-build-page/index.js:234-241 | The replacements are the compiler's results for the longest prefix of the entries whose calls all succeed, and the entry after them, if any, is one whose call fails. |
| Template.ReplacementsFollowPass | 06-build-page/index.js:234-241 | The corrected loop calls the compiler exactly as the code's loop does: the code's pass is complete exactly when every entry got a replacement, and a pass stopped by a failure made one more call than there are replacements. |
| Template.EntriesSpans | 06-build-page/index.js:230 | The entries of the scan lie in the buffer left to right without overlap, so the corrected in-place loop applies to them. |
| Template.SpanReplaceSplit | 06-build-page/index.js:234-238 | Corrected loop: the replacement for entry `k` sits exactly between the in-place result for the text before that entry and the in-place result for the text after it, so no replacement moves another and the text between entries stays in place. |
| Template.SingleEntrySubstituted | 06-build-page/index.js:234-238 | With exactly one entry, and a compiler call that succeeds, the pass replaces the first occurrence of that entry's text. |
| Scenarios.EmptyExpressionIsRejected | 06-build-page/index.js:223-248 | `{{}}` has no entry, and the call fails with the format error, keeping `{{}}`. |
| Scenarios.SplitEntryFirstChunk | 06-build-page/index.js:253-265 | The chunk `A{{e` emits `A` and keeps `{{e`. |
| Scenarios.SplitEntryIsFound | 06-build-page/index.js:228-230 | The kept `{{e` followed by `x}}B` holds the single entry `{{ex}}` with expression `ex`. |
| Scenarios.SplitEntrySecondChunk | 06-build-page/index.js:227-257 | With `ex` resolving to `Z`, the second chunk emits `ZB` (and keeps it, since no open sequence is left). |
| Scenarios.SplitEntryRun | 06-build-page/index.js:227-266 | An entry split across the chunks `A{{e` and `x}}B` comes out as `A` then `ZB`. |
| Scenarios.ReplacementIsSubstituted | 06-build-page/index.js:234-238 | The entry `{{a}}` is replaced by `{{x}}`, and the replacement is not scanned again. |
| Scenarios.ReplacementIsNotExpanded | 06-build-page/index.js:234-248 | A replacement that looks like an entry leaves a close sequence, so the call fails with the format error. |
| Scenarios.HashEntries | 06-build-page/index.js:223-230 | With `##` as both delimiters, `##x#######d` holds the entries `##x##` at 0 and `#####` at 5. |
| Scenarios.HashStep | 06-build-page/index.js:227-257 | As written, with `x` resolving to `A#` and `#` to `B`: the call over `##x#######d` succeeds and emits `AB#d`. |
| Scenarios.MisplacedReplacement | 06-build-page/index.js:234-257 | As written the call emits `AB#d`, while replacing each entry in place gives `A#Bd`. |
| Scenarios.ChainFirstChunk | 06-build-page/index.js:227-265 | With `a` resolving to `{{b`, the chunk `{{a}}` emits nothing and keeps the replacement `{{b`. |
| Scenarios.ChainSecondChunk | 06-build-page/index.js:227-257 | The kept `{{b` and the chunk `}}` form the entry `{{b}}`. With `b` resolving to `B`, the call emits `B`. |
| Scenarios.ChainInOneChunk | 06-build-page/index.js:227-248 | The same text `{{a}}}}` in one chunk becomes `{{b}}`, and the call fails with the format error. |
| Scenarios.ReplacementRescannedAcrossChunks | 06-build-page/index.js:253-265 | As written: the chunks `{{a}}` then `}}` give an empty output and then `B`, while the same input in one chunk is rejected. |

## Left out

- File-system orchestration is not part of this model: directory setup, reading components, merging styles and copying assets (`06-build-page/index.js:1-196`). Neither are the other exercises in the repository.
- The real compiler function (`06-build-page/index.js:273` onwards) reads a component file and swallows its own errors, returning `undefined`. `replace` then inserts the text `undefined`. The model takes the compiler as the parameter `resolve`, so this is the case `Some("undefined")`, and file contents are not modelled.
- Awaiting the compiler is modelled as a plain call. The calls are sequential in the source as well.
- The `Transform` machinery is not modelled: `next` callbacks, backpressure, and how a thrown error or a rejected promise ends the pipeline. `Failed(InvalidFormat)` stands for the thrown error.
- The error logging in `defaultErrorHandler` (`06-build-page/index.js:240`) is console output and is not modelled.
- The `i` flag is modelled as exact comparison. This differs from the source only for delimiters that contain characters with a case mapping (letters, and also characters such as `ⓐ`/`Ⓐ` or `ⅰ`/`Ⅰ`).
- Engine.TemplateEngine.Process: `_openRegExp` has the `g` flag, so a successful `test` leaves its `lastIndex` after the open sequence it found. The next call's `test` starts there. The model searches from the start of the buffer, so it does not capture a later `test` that misses an open sequence before that index and takes the no-open branch. (The close test always starts at 0, because a successful test throws, and is modelled exactly.)
- `chunk.toString()` decodes each chunk on its own. The model takes chunks as already-decoded text, so a UTF-8 character split across two chunks is not modelled.
- JavaScript strings are UTF-16 code units, and `.` without the `u` flag matches one code unit. The model's `char` is a Unicode scalar value, so surrogate pairs are not modelled separately.
- A configuration key present with the value `undefined` overrides the default in the source, and the constructor then throws a `TypeError` in `_regExpEscape` (`06-build-page/index.js:218-219`). The model has only "given" and "absent".
- A missing `config` object, which makes the source throw at `config.compilerFn`, is not modelled.

## Findings

| source | as written | input that shows it | evidently intended | confidence | as-written member | corrected member |
|---|---|---|---|---|---|---|
| 06-build-page/index.js:255-256 | When the substituted buffer holds no open sequence, the buffer is emitted but not cleared, so the next chunk is appended to text already emitted. | Plain chunks `a` then `b` (no delimiters) are emitted as `a` then `ab`, so the page gets `aab`. | Clear the buffer after emitting it, so that emitted text plus kept text is the input and nothing is emitted twice. | not executed; high, since the duplication follows directly from the two lines | Template.RunRepeatsEmittedText | Template.ClearedRunReproducesLiteralText |
| 06-build-page/index.js:255-263 | The buffer is cut after substitution, so replacement text after the first open sequence is kept and scanned again with the next chunk. When there is no open sequence, the uncleared buffer is kept and scanned again in the same way. Whether an input is accepted then depends on how it is cut into chunks. | With `a` resolving to `{{b` and `b` to `B`: the chunks `{{a}}` then `}}` emit `B`, but `{{a}}}}` in one chunk fails with `Invalid template format.`. With no open sequence left, and `a` resolving to `{` and `b` to `B`: the chunks `{{a}}` then `{b}}` emit `{` then `B`, but `{{a}}{b}}` in one chunk fails in the same way. | Carry over only raw input, from the first open sequence after the last entry, and emit all replacement text. | not executed; medium, since the re-scan follows from the code, but whether it was meant as nested expansion is not stated | Scenarios.ReplacementRescannedAcrossChunks | Template.RawRunCarriesOnlyInput |
| 06-build-page/index.js:237 | Each entry is replaced at the first textual occurrence of its text in the current buffer. That occurrence can start inside an earlier replacement, and the call then succeeds with the text in the wrong place. | Delimiters `##`/`##`, chunk `##x#######d`, `x` resolving to `A#` and `#` to `B`: the entries are `##x##` and `#####`. The first replace gives `A######d`, the second hits index 1 and gives `AB#d`, which is emitted. | Replace each entry at its own position in the text that was scanned, which gives `A#Bd`. | not executed; medium, since the misplacement follows from `replace` with a string pattern, but it needs a replacement that recreates part of a later entry's text | Scenarios.MisplacedReplacement | Template.SpanReplaceSplit |
