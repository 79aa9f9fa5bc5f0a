# PhiCode symbol transpiler: a verified model of its substitution core

This project models the core of `phirust-transpiler`, a fast symbolic
transpiler. Its `SymbolTranspiler` is configured with a map from symbols
(such as `λ` or `⚡`) to replacement text. It then rewrites a source text by
replacing every occurrence of a symbol with its replacement. A
`ThreatDetector` holds a fixed denylist of substrings, such as `eval(` and
`subprocess.`. If any chosen replacement contains one of them, the whole call
is refused, unless security is bypassed.

The model follows the code in `src/main.rs` and `src/threat_detector.rs`:

- `configure` overwrites three fields:
  - `mappings`: the symbol map, stored as given.
  - `symbol_bytes`: the set of bytes above 127 found in the UTF-8 encoding of any key.
  - `pattern`: an alternation of the keys, sorted by descending length in UTF-8 bytes (`String::len`). A key made only of alphanumerics and `_` is wrapped in `\b`.
- `contains_symbols` scans the source's UTF-8 bytes in chunks of 64. It looks for a byte above 127 that is in `symbol_bytes`.
- `transpile` returns the source unchanged when that precheck fails or no pattern is installed. Otherwise it replaces each leftmost-first, non-overlapping match with its mapped replacement. It fails with the security error if any replacement is dangerous and `bypass_security` is off.
- `is_dangerous` holds when some denylist entry occurs in the text as a contiguous, case-sensitive substring.

Modules:

- `Results` (results.dfy): `Option` and `Result`.
- `Text` (text.dfy): occurrences of one string in another.
- `Utf8` (utf8.dfy): the UTF-8 byte view of a string (`str::bytes`).
- `Threats` (threats.dfy): the denylist, `ThreatDetector`, `IsDangerous`, and its properties.
- `Matching` (matching.dfy): the regex's observable semantics.
  - `Scan` lists the matches of `replace_all`: at each position, the first alternative that matches in pattern order, then resume after it.
  - `Splice` builds the output from those matches.
  - `LeftmostFirst` is a declarative reference for leftmost-first matching: the matches are exactly the leftmost-first decomposition.
- `Transpiler` (transpiler.dfy): the `SymbolTranspiler` class with `Configure`, `ContainsSymbols` and `Transpile`. The loops of `configure`, `contains_symbols` and `replace_all` are methods with loop invariants. Each is proved against the specification function `TranspileResult` or the definitions it uses.
- `TranspilerProperties` (transpiler_properties.dfy): what `transpile` promises: the precheck, the longest-key and boundary rules, the security gate, and the output shape.

How the model handles the source's inputs:

- **Character classes.** The Unicode tables behind `char::is_alphanumeric` and the regex word class `\w` are not modelled. They are given to the constructor as `CharClasses`, a pair of functions `char -> bool`.
- **Regex compilation.** Whether `Regex::new` accepts the built pattern depends on the regex library's limits. `Configure` takes that outcome as a parameter, `regexError`.
- **Threat detector.** `Transpile` takes the `ThreatDetector` as a parameter, as the source does.

Behaviour of the code that the model keeps as it is:

- The code has no protection of string literals or comments, and no placeholder or restore step. Symbols inside literals are replaced like any others.
- The precheck only looks at bytes above 127. So when every key is ASCII, `transpile` always returns its input unchanged. For example, `{"if": "WHEN"}` leaves `"if x:"` as it is (`IdentifierSymbolIsNotSubstituted`). Only for keys with a non-ASCII character is the precheck free of false negatives (`NonAsciiOccurrencePassesPrecheck`).
- A failed `configure` does not roll back. The new `mappings` and `symbol_bytes` are already installed, and the previous `pattern` is kept. In that state a matched key may be missing from `mappings`, and the replacement closure then copies the matched text unchanged (`EmitText`).
- The security failure is the single message `Security: Dangerous pattern detected during transpilation`. It does not say which substitution was blocked.

## Model

| member | source | states |
|---|---|---|
| `Utf8.EncodeChar` | src/main.rs:37 | a character encodes as 1 to 4 bytes: one byte equal to the code point below 0x80, otherwise bytes that are all at least 0x80 |
| `Utf8.HighBytesIffNonAscii` | src/main.rs:37-39 | a string's UTF-8 bytes include one above 127 exactly when the string has a non-ASCII character |
| `Threats.New` | src/threat_detector.rs:8-22 | `ThreatDetector::new` builds the detector over the fixed denylist, and no entry is empty |
| `Threats.Occurs` | src/threat_detector.rs:25 | scanning start positions finds `pat` exactly when `pat` is a contiguous substring of `s` |
| `Threats.AnyOccurs` | src/threat_detector.rs:19-25 | true exactly when some pattern of the list is a substring of `s` |
| `Threats.IsDangerous` | src/threat_detector.rs:24-26 | `is_dangerous(text)` holds exactly when some detector pattern is a contiguous substring of `text` |
| `Threats.EntriesAreDangerous` | src/threat_detector.rs:9-16 | every denylist entry is itself dangerous |
| `Threats.SampleEntriesAreDangerous` | src/threat_detector.rs:11-15 | `"eval("`, `"subprocess."` and `"__import__"` are dangerous |
| `Threats.EmptyIsSafe` | src/threat_detector.rs:9-16 | the empty string is not dangerous |
| `Threats.DangerIsMonotone` | src/threat_detector.rs:24-26 | any string containing a dangerous string is dangerous, for every detector |
| `Threats.EntryHasLower` | src/threat_detector.rs:11-15 | every denylist entry has a lower-case ASCII letter at index 0 or 2 |
| `Threats.NoLowercaseIsSafe` | src/threat_detector.rs:11-25 | matching is case-sensitive: a text with no lower-case ASCII letter is never dangerous |
| `Threats.UppercaseEvalIsSafe` | src/threat_detector.rs:11-15 | `"EVAL("` is not dangerous |
| `Matching.AltMatchesAt` | src/main.rs:50-51 | definition: an alternative matches at a position when its key occurs there and, if it is bounded, a word boundary holds on both sides of it |
| `Matching.Boundary` | src/main.rs:51 | definition of regex `\b`: the characters on the two sides differ in being word characters, and outside the text counts as non-word |
| `Matching.FirstAltIsFirst` | src/main.rs:58 | the alternation at a position picks the first alternative in pattern order that matches there (substring plus both `\b` checks when bounded); `None` exactly when none matches |
| `Matching.FindFirstAlt` | src/main.rs:94 | trying the alternatives one by one yields `FirstAlt` |
| `Matching.Scan` | src/main.rs:94 | the matches of `replace_all` lie left to right inside the text and do not overlap |
| `Matching.ScanIsLeftmostFirst` | src/main.rs:94 | the scan's matches are the leftmost-first decomposition: each starts at the leftmost position where an alternative matches, with nothing matching in the gap before it, uses the first such alternative, and the next search starts after its end |
| `Matching.LeftmostFirstIsUnique` | src/main.rs:94 | the leftmost-first decomposition of a text is unique |
| `Matching.ScanMatchSound` | src/main.rs:94-95 | each reported match's key is the first alternative matching at its start |
| `Matching.ScanCovers` | src/main.rs:94 | every position where some alternative matches lies inside a reported match, so it is never copied through unreplaced |
| `Transpiler.CoOccurringKeys` | src/main.rs:45-58 | two keys occurring at the same position are prefix-related, so the one at least as long in bytes is at least as long in characters |
| `Transpiler.FirstAltIsLongest` | src/main.rs:45-58 | with keys in non-increasing byte-length order, the chosen alternative is at least as long as any other alternative matching at that position, in bytes and in characters |
| `Matching.Splice` | src/main.rs:94-106 | definition of the text `replace_all` assembles: the gaps between matches copied verbatim, each match replaced by the closure's text |
| `Matching.SpliceAgree` | src/main.rs:94-106 | the output depends only on what each matched key is replaced by |
| `Matching.SpliceSkip` | src/main.rs:94 | a character before the next match is copied to the output verbatim |
| `Utf8.Bytes` | src/main.rs:37 | definition of `str::bytes`: the concatenation of each character's UTF-8 encoding, never shorter than the string; the symbol-byte set and the precheck are both stated over it |
| `Utf8.ByteLength` | src/main.rs:46 | `String::len` is the number of UTF-8 bytes, never fewer than the characters |
| `Transpiler.KeyBytes` | src/main.rs:35-43 | definition of the symbol-byte set: every byte above 127 in the UTF-8 encoding of some key |
| `Transpiler.Escape` | src/main.rs:48-56 | definition of a key's alternative: the key itself, word-bounded exactly when every character is alphanumeric or `_`; that the compiled pattern follows this rule is proved by `EscapedKeysAreValid`, `MatchesFollowBoundaryRule` and `EveryOccurrenceIsConsumed` |
| `Transpiler.EscapeAll` | src/main.rs:48-56 | the alternatives for the sorted keys, one per key in the same order, whose keys read back (`KeysOf`) as exactly the input list |
| `Transpiler.InsertByLength` | src/main.rs:46 | inserting into a list ordered by non-increasing byte length keeps it ordered and adds exactly that key |
| `Transpiler.SortByLength` | src/main.rs:46 | the keys sorted into non-increasing UTF-8 byte length (`Reverse(s.len())`), as a permutation of the input |
| `Transpiler.Blocked` | src/main.rs:98-100 | definition of when the closure sets `blocked`: security is on and the matched key's replacement is dangerous |
| `Transpiler.EmitText` | src/main.rs:95-105 | definition of the closure's text: `SECURITY_BLOCKED` when blocked, else the mapped replacement, else the matched text |
| `Transpiler.AnyBlocked` | src/main.rs:93-99 | the `blocked` flag ends up set exactly when some match's key is mapped to a dangerous replacement and security is on |
| `Transpiler.EscapedKeysAreValid` | src/main.rs:45-58 | escaping the keys, sorted longest first, gives an alternation holding every key once, longest first, with no empty key, each bounded exactly when identifier-like |
| `Transpiler.SymbolTranspiler.constructor` | src/main.rs:19-25 | a new transpiler has no mappings, no pattern and no symbol bytes |
| `Transpiler.SymbolTranspiler.Configure` | src/main.rs:27-64 | stores the map; an empty map leaves no pattern and no symbol bytes; otherwise the symbol bytes are exactly the bytes above 127 in the keys; when the regex compiles, the pattern holds every key exactly once, longest first, bounded exactly when identifier-like; when it fails, the error carries the library's message and the old pattern stays |
| `Transpiler.CollectSymbolBytes` | src/main.rs:35-43 | the nested loops gather exactly the bytes above 127 of the keys' UTF-8 encodings |
| `Transpiler.CollectKeys` | src/main.rs:45 | the collected key list holds every key exactly once |
| `Transpiler.SymbolTranspiler.ContainsSymbols` | src/main.rs:66-81 | the 64-byte chunked scan with early return yields exactly whether some byte of the source is above 127 and in the symbol bytes; false when there are none |
| `Transpiler.Replace` | src/main.rs:95-105 | the closure returns the mapped replacement, or `SECURITY_BLOCKED` and sets `blocked` when it is dangerous and security is on, or the matched text when the key is unmapped |
| `Transpiler.ReplaceStep` | src/main.rs:94-106 | one step at a position copies the character and moves on by one when no alternative matches there (`StepTaken`); otherwise it emits the closure's text and `blocked` flag for the first matching alternative and moves past it; and that text followed by the output from the new position is the output from the old one (`Stepped`) |
| `Transpiler.ReplaceAll` | src/main.rs:93-106 | the whole scan produces exactly the spliced output of the leftmost-first matches and the `blocked` flag of those matches |
| `Transpiler.TranspileResult` | src/main.rs:83-113 | definition of `transpile` on the three fields: the input when the precheck misses or no pattern is installed, else the security error when some match is blocked, else the spliced output |
| `Transpiler.SymbolTranspiler.Transpile` | src/main.rs:83-113 | the result is `TranspileResult` of the current fields; in particular the input unchanged when the precheck finds no symbol byte |
| `TranspilerProperties.NoSymbolBytesIffAsciiKeys` | src/main.rs:35-43 | the symbol-byte set is empty exactly when every key is pure ASCII |
| `TranspilerProperties.AsciiKeysLeaveSourceUnchanged` | src/main.rs:84-86 | after configuring only ASCII keys, `transpile` returns every input unchanged |
| `TranspilerProperties.IdentifierSymbolIsNotSubstituted` | src/main.rs:84-86 | `{"if": "WHEN"}` leaves `"if x:"` unchanged |
| `TranspilerProperties.NonAsciiOccurrencePassesPrecheck` | src/main.rs:66-80 | an occurrence of a key with a non-ASCII character always makes the precheck fire |
| `TranspilerProperties.FailsIffDangerousMatch` | src/main.rs:93-110 | the only failure is the security error, and it happens exactly when the scan runs, security is on and some match's replacement is dangerous; no partial text is returned |
| `TranspilerProperties.BypassNeverFails` | src/main.rs:98 | with `bypass_security` set, `transpile` always succeeds |
| `TranspilerProperties.SuccessSplicesReplacements` | src/main.rs:94-112 | when a pattern is installed and the precheck fires, a successful result is the source with the text between matches copied verbatim and each match replaced by its mapped replacement; replacements are never rescanned |
| `TranspilerProperties.PatternKeysAreMapped` | src/main.rs:45-58 | every key in a pattern compiled from a map is a key of that map |
| `TranspilerProperties.MappedKeyHasAlt` | src/main.rs:45-58 | every key of the map has its alternative in the compiled pattern |
| `TranspilerProperties.MatchesFollowBoundaryRule` | src/main.rs:48-56 | every match is a mapped key occurring at its start, and an identifier-like key only matches between word boundaries |
| `TranspilerProperties.EveryOccurrenceIsConsumed` | src/main.rs:48-58 | wherever a key matches (anywhere for a non-identifier key, at boundaries for an identifier-like one), that position is consumed by some match |
| `TranspilerProperties.LongestKeyWins` | src/main.rs:45-58 | where two keys both match at a match's start, the replaced key is the longer, in bytes and in characters |
| `Matching.LeftmostFirstAlike` | src/main.rs:94 | a leftmost-first decomposition for one pattern is one for any pattern that chooses the same key at every position |
| `TranspilerProperties.SameChoice` | src/main.rs:45-58 | two patterns compiled from the same map, whatever the order among keys of equal byte length, choose the same alternative at every position, or both none |
| `TranspilerProperties.TieOrderUnobservable` | src/main.rs:45-58 | two patterns compiled from the same map give the same matches on every text, so the order `sort_by_key` leaves among keys of equal byte length cannot be observed |
| `TranspilerProperties.SortByLengthCountsBytes` | src/main.rs:46 | the order is by bytes: `"⚡⚡"` (6 bytes) sorts before `"abc"` (3 bytes) |
| `TranspilerProperties.DangerousSymbolBlocks` | src/main.rs:93-110 | a single non-ASCII symbol mapped to dangerous text makes every input it matches in fail with the security error |
| `TranspilerProperties.LightningToEvalIsBlocked` | src/main.rs:93-110 | `{"⚡": "eval("}` fails on any input containing `⚡` with security on, and succeeds with it bypassed |
| `TranspilerProperties.EmptyConfigurationIsIdentity` | src/main.rs:29-33 | after `configure` with an empty map, pattern and symbol bytes are `None` and `transpile` returns its input unchanged |

## Left out

- `main` and `Cli`: argument parsing, JSON decoding of the map, standard input and output, and the warning messages. These are glue code.
- The benchmark timing and its floating-point characters-per-second figure, because they need the clock.
- The internals of the `regex` and `aho_corasick` crates. Only their observable semantics are modelled: leftmost-first alternation with `\b`, and matching any substring.
- Exact Unicode tables for `char::is_alphanumeric` and the regex `\b` word class. They are abstract functions in `CharClasses`.
- Transpiler.SymbolTranspiler.Configure: requires every key to be non-empty. An empty key would add an empty alternative to the pattern, and the model's scanner does not cover empty matches.
- Transpiler.SymbolTranspiler.Configure: `Regex::new` failing is an input (`regexError`), because when it fails depends on the regex library's limits.
- Threats.New: cannot fail. The error path of `AhoCorasick::new` depends on library limits the denylist does not come near.
- Transpiler.SortByLength: the stable order of `sort_by_key` among keys of equal byte length is not stated. It cannot be observed: `TieOrderUnobservable` proves that every valid pattern for a map gives the same matches.
- Key iteration order of `AHashMap`: `CollectKeys` and `CollectSymbolBytes` take the keys in an arbitrary order. Hashing itself is not modelled.
- `is_dangerous` is a function, so its results are deterministic and free of effects by construction. No separate lemma states this.
