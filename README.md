# mr-params core, modelled in Dafny

mr-params reads a function's parameter names from its source text. Before the
text goes to the JavaScript parser it is cut down by `stripEnds`. This scanner
walks left to right with a bracket depth counter (`canary`) and skips comments.
It returns the slice from the first `(` through the `)` that brings the depth
back to 0. `makeStub` then wraps that slice into the empty declaration
`function fn(...) { }`. Results are kept in a small cache, a dictionary owned by
a factory closure that has a `debug` flag. The helpers `wrap` and `checkCache`
turn a cached name list into a name-to-value object.

The model has five modules:

- `Wrappers` (`wrappers.dfy`): `Option` stands for JavaScript `undefined`; `Result` stands for a thrown error.
- `Preprocess` (`preprocess.dfy`):
  - `MatchComment` is the comment regex `RE_ANY_COMMENT`, written out by hand.
  - `StripEnds` is the scanner, an imperative method with a `while` loop. It is proved against a pure specification:
    - `Lex`/`Tokens` give the structural brackets the scan meets. Comments are skipped exactly as the loop skips them.
    - `Depth`, `ClosesAt` and `HasGroup` describe the group that closes.
  - `MakeStub` builds the stub.
- `SpanLemmas` (`span_lemmas.dfy`): what the returned span guarantees.
  - Scanned again, it meets the same brackets and is balanced on its own.
  - `stripEnds` is idempotent.
  - The stub built from the span scans back to it.
  - No counted bracket lies inside a comment the scan meets.
- `Cache` (`cache.dfy`): the cache as a class `ResultCache` with a `map` field. `Get` reads it and `Put` updates it in place.
- `Helpers` (`helpers.dfy`):
  - `Wrap` is a method with a loop, proved equal to the pure `Wrapping`/`Zip`.
  - `CheckCache` is a function over the lookup result.

Where a doc comment and the code disagree, the model follows the code.
`get` returns `undefined` on a miss, not `false` (src/cache.ts:38 against 41-44).
A stored `false` is a hit that means "no parameters".

## Model

| member | source | states |
|---|---|---|
| Preprocess.BlockClose | src/preprocess.ts:31 | the lazy part of the block-comment pattern: the first `*/` at or after a position, or none when no `*/` follows |
| Preprocess.LineEnd | src/preprocess.ts:31 | the greedy `.*` of a line comment: it runs to the first line terminator (`\n`, `\r`, U+2028, U+2029) or to the end of the text |
| Preprocess.MatchComment | src/preprocess.ts:31 | a match has length at least 2 and is exactly a block comment closed at its first `*/` or a line comment up to the next terminator; no match means no comment of any length starts there (an unclosed `/*`, a lone `/`) |
| Preprocess.NextSkipsComments | src/preprocess.ts:68-82 | the scan moves past more than one character only across a whole comment that an unescaped `/` starts, and always across such a comment; an escaped `/` or a `/` that starts no comment moves one character |
| Preprocess.LexBounds | src/preprocess.ts:83-101 | every counted bracket lies at or after the start, inside the text, at a `(` when it opens and at a `)` when it closes; the brackets come in strictly increasing positions |
| Preprocess.FirstReturn | src/preprocess.ts:89-95 | the `)` that brings an open prefix from depth 1 to 0 is the first and only place where the depth returns to 0 |
| Preprocess.LeadingCloseHasNoGroup | src/preprocess.ts:96-100 | a leading `)` drives the depth negative and no group can close |
| Preprocess.StaysOpenHasNoGroup | src/preprocess.ts:104-109 | a depth that never comes back to 0 leaves no group |
| Preprocess.FirstDip | src/preprocess.ts:89-95 | after an opening `(`, any prefix at depth below 1 means some earlier bracket brought the depth back to exactly 0 |
| Preprocess.NoGroupCases | src/preprocess.ts:96-109 | with at least one bracket, no group closes exactly when the first bracket is `)` or the depth stays at 1 or more to the end: the two failures of the scanner |
| Preprocess.GroupEnds | src/preprocess.ts:85-95 | a group starts at the first counted bracket, which is a `(`, and ends at a later `)` inside the text |
| Preprocess.GroupSpan | src/preprocess.ts:110 | the returned slice has at least two characters, starts with `(` and ends with `)` |
| Preprocess.StripEnds | src/preprocess.ts:46-111 | with no counted bracket the whole text comes back; it fails exactly when there are brackets but no group closes; otherwise it returns the contiguous slice from the first counted `(` through the `)` at which the depth first returns to 0 |
| Preprocess.MakeStub | src/preprocess.ts:122 | the stub is `function fn`, then the span unchanged, then ` { }`, with no check of the span |
| Preprocess.MakeStubInjective | src/preprocess.ts:122 | different spans give different stubs |
| SpanLemmas.TokenLands | src/preprocess.ts:50-102 | every counted bracket is a position the loop visits, and the brackets met from there are the remaining ones |
| SpanLemmas.LexPrefix | src/preprocess.ts:50-102 | cutting the text at a position the loop visits splits the brackets into those before it and those after |
| SpanLemmas.LexShift | src/preprocess.ts:50-102 | dropping a prefix of the text moves every counted bracket left by its length, unless the first kept character is a slash that only the dropped backslash escaped |
| SpanLemmas.LexExtend | src/preprocess.ts:75-80 | text without `*` appended after a group's last `)` does not change the brackets the group's scan meets |
| SpanLemmas.SpanTokens | src/preprocess.ts:110 | scanning the returned slice on its own meets the group's brackets, moved to start at 0 |
| SpanLemmas.SpanIsFixedPoint | src/preprocess.ts:89-95 | inside the returned slice the depth stays at 1 or more until its last character, a `)` that brings it to exactly 0, and the slice is its own group |
| SpanLemmas.StripEndsIdempotent | src/preprocess.ts:46-111 | applying `stripEnds` to its own successful result returns that result unchanged |
| SpanLemmas.StubScansBack | src/preprocess.ts:122 | the stub built around a balanced group has the group's brackets after `function fn`, so the same bracket closes it and its span is the group |
| SpanLemmas.StubOfSpan | src/preprocess.ts:110-122 | scanning the stub built from a successful scan of a text with brackets gives the same span back; a failure propagates |
| SpanLemmas.CommentIsSkipped | src/preprocess.ts:75-80 | no counted bracket lies inside a comment the loop reaches, so brackets in comments never change the depth |
| SpanLemmas.FirstGroupOnly | src/preprocess.ts:93-95 | the input `f()()` gives `()`: of two sibling groups only the first comes back (the general rule is the contract of `Preprocess.StripEnds`) |
| SpanLemmas.LeadingCloseFails | src/preprocess.ts:96-100 | the input `) x`, whose first bracket is `)`, fails (the general rule is `Preprocess.NoGroupCases` with `Preprocess.StripEnds`) |
| SpanLemmas.LeftOpenFails | src/preprocess.ts:104-109 | the input `(()`, which ends with the depth at 1, fails (the general rule is `Preprocess.NoGroupCases` with `Preprocess.StripEnds`) |
| SpanLemmas.CommentedCloseSkipped | src/preprocess.ts:75-80 | the input `(/*)*/)` comes back whole: the `)` inside the block comment is not counted (the general rule is `SpanLemmas.CommentIsSkipped`) |
| SpanLemmas.SlashesInStringFail | src/preprocess.ts:75-109 | the input `("//")` fails: the `//` inside the string starts a line comment that hides the `)`, so the depth stays at 1 (the general rule is `Preprocess.NoGroupCases` with `Preprocess.StripEnds`) |
| Cache.ResultCache.constructor | src/cache.ts:32-33 | every cache starts empty, so every key misses, and it keeps the `debug` flag it was given |
| Cache.ResultCache.Get | src/cache.ts:41-44 | the stored value for a present key; `undefined` (None) exactly when the key was never put, which differs from a stored `false` |
| Cache.ResultCache.Put | src/cache.ts:54-61 | it fails exactly when debug is on and the key is present (a stored `false` counts as present), and then leaves the store as it was; otherwise a later `get` returns the new value; every other key is unchanged |
| Cache.CacheRoundTrip | src/cache.ts:41-61 | a value put is read back; a key never put misses; without debug a second put overwrites; with debug it is refused and the stored `false` stays |
| Helpers.ZipKeys | src/helpers.ts:35-39 | the wrapper's keys are exactly the parameter names, so `wrap([], [])` is empty |
| Helpers.ZipAt | src/helpers.ts:36-39 | each name maps to the value at its last index, so a later repeat of a name overwrites an earlier one |
| Helpers.Wrapping | src/helpers.ts:26-40 | it fails with `RangeError` exactly when the number of values differs from the number of names; otherwise it gives the name-to-value zip |
| Helpers.Wrap | src/helpers.ts:26-41 | the loop that fills the wrapper in place gives the same outcome as `Wrapping`, the error included |
| Helpers.CheckCache | src/helpers.ts:57-78 | with the cache off, a miss; with it on: a lookup miss is a miss; a stored `false` is returned whatever the values; a stored name list, the empty one included, comes back as it is when there are no values, and is wrapped (the zip) only when values are given; it fails exactly when values are given and their count differs from the list's |

## Left out

- src/params.ts: the parameter extraction is done by the Babel parser and its scope traversal, library code that is not part of this model. Its result appears only as the cache's value type `Value` (`NoParams` for `false`, or `Names`).
- src/index.ts: the entry point is not modelled. It does the `typeof` check, calls `toString()` and the parser, and holds a private copy of `checkCache`. `SpanLemmas.StubOfSpan` models the `stripEnds`/`makeStub` step the entry point chains.
- dist/: build output, not modelled.
- Error messages and the JavaScript `Error` subclasses become the outcomes `UnbalancedBrackets`, `KeyAlreadyPresent` and `ArityMismatch`. The message text is not modelled.
- Preprocess.StripEnds: text is a sequence of code points. JavaScript indexes UTF-16 code units, so positions can differ for text outside the Basic Multilingual Plane. The characters compared (`/`, `\`, `(`, `)`, `*`, line terminators) are the same in both.
- Preprocess.StripEnds: the `break` followed by the final slice is written as a direct return of the same slice.
- Preprocess.StripEnds: string and template literals are not special to the scanner, in the source as in the model. A `(` or `)` inside a string literal is counted. A `//` or `/*` inside a string literal starts a comment, so for a default value such as `(u = "http://x") => u` the line comment swallows the `)` and the scan fails on valid syntax. `SpanLemmas.SlashesInStringFail` shows this on `("//")`.
- Preprocess.MatchComment: only the matched value is modelled. The running time of the regular expression is not, nor the backtracking of the regex engine (the lazy `(?:.|\s)*?` can take exponential time after an unclosed `/*` followed by whitespace).
- Cache.ResultCache.Get: the store is a map from strings. Inherited properties of a plain JavaScript object (a key such as `constructor` or `__proto__`) are not modelled.
- Cache.ResultCache.Get: a stored name list is an immutable value (`Names`) in the model. In the source, `put` stores the caller's array object itself (src/cache.ts:60) and `get` hands back that same object (src/cache.ts:42-43), which the entry point returns to its caller. A later mutation through a returned list (say `names.pop()`) would change what every later `get` or `checkCache` of that key sees. That sharing by reference, and any such mutation, is not modelled; nothing in the modelled code mutates these arrays. `Put`'s read-back and `CacheRoundTrip` hold in the source as object identity, not as fixed contents.
- Cache.ResultCache.Put: as for `Get`, inherited object properties are not modelled: the debug test (src/cache.ts:55) and the assignment (src/cache.ts:60) do not see inherited keys. In the source a debug-mode `put` of `constructor` throws even on an empty cache. Keys are always stubs starting with `function fn`, so such names do not occur.
- Helpers.Wrap: keys that are inherited object properties (`__proto__`) are not modelled either.
- Helpers.CheckCache: the lookup `get` is a pure function parameter. That `get` is not called when the cache is off is visible only in that the result does not depend on it.
