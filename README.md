# libreveal.js compiler, modelled in Dafny

This project models the core of `src/compile.py`: the pipeline that turns a
RetireJS-style signature database into the text of the `libreveal.js`
detection script. It proves properties of that model.

The pipeline has five parts, each a Dafny module with its own file:

- `deny_list.dfy` (`DenyList`): the deny-list predicate on raw library keys.
- `splitter.dfy` (`Splitter`): the compound-extractor splitter. It has a
  hand-written matcher for the anchored pattern `\([a-zA-Z\$\|]+\)\.`. The
  source's loop over the alternatives is the method `SuffixAlternatives`.
- `normalizer.dfy` (`Normalizer`): the normalizer. Its nested loops build an
  insertion-ordered extractor map from the documents. An empty `bowername`
  list makes it return `Err(IndexError)`, where the source raises. The
  loops over one entry's `func` list form a method of their own,
  `AddFuncExtractors`, and the alias choice is the function `CanonicalName`.
- `guard.dfy` (`Guard`): the guard generator. The method builds the
  condition in a loop. A second method holds the character scan with the
  `spaces`, `open_paren` and `close_paren` state and the first-occurrence
  replace.
- `assembler.dfy` (`Assembler`): the assembler. Its nested loops append the
  header, one comment line per library and one `if` / `else if` branch per
  extractor.

`compiler.dfy` (`Compiler`) states what the two calls on lines 299-300
produce together. `text.dfy` (`Text`) models the Python string operations
the source uses:
- `split` on one character, and `join`;
- `replace(c, '')` and `replace(old, new, 1)`;
- ASCII `lower`, `startswith` and `endswith`.

`extractor_maps.dfy` (`ExtractorMaps`) models the insertion-ordered dict as
an association list. `wrappers.dfy` holds `Option` and `Result`.

Each looping function of the source is a method with its loops. Its
`ensures` equates the result with a specification function. Lemmas prove
what that function means, against independent descriptions of the output.

## Model

| member | source | states |
|---|---|---|
| DenyList.DeniedInAnyCasing | src/compile.py:122-125 | a name is denied exactly when it has the length of `retire-example` and each of its characters is that name's character or the upper-case form of it, so every casing of the name, and nothing else, is denied |
| DenyList.NearMissesKept | src/compile.py:122-125 | `retire-examples`, `retire_example` and another library's name are not denied |
| Text.LowerFacts | src/compile.py:123 | `lower()` keeps the length, leaves no upper-case ASCII letter, keeps every other character, and turns each upper-case letter into the lower-case letter whose upper-case form it is |
| Text.LowerIdempotent | src/compile.py:164 | lower-casing an already lower-cased text changes nothing |
| Text.Remove | src/compile.py:151 | `replace(c, '')` leaves no `c`, never lengthens the text, and leaves a text without `c` unchanged |
| Text.Split | src/compile.py:189-191 | `split(c)` gives at least one piece, no piece contains `c`, there are two or more pieces exactly when `c` occurs, and the first piece is the text before the first `c` |
| Text.SplitJoin | src/compile.py:189-191 | joining the pieces of `split(c)` with `c` gives back the text |
| Text.JoinSplit | src/compile.py:189-191 | splitting the `c`-join of pieces that contain no `c` gives back the pieces |
| Text.ReplaceFirstAt | src/compile.py:220 | `replace(old, new, 1)` replaces the first occurrence of `old` and nothing else |
| Splitter.GroupRun | src/compile.py:152-153 | the run of `[a-zA-Z$\|]` characters starting at a position is maximal |
| Splitter.MatchesAlternationIff | src/compile.py:152-153 | the matcher holds exactly when the anchored pattern ends at some position, and that position is the end of the character run, so the match is unique |
| Splitter.InteriorIsGroupText | src/compile.py:154-155 | removing `(`, `)` and `.` from the matched text leaves exactly the group's interior |
| Splitter.AlternativesAreNames | src/compile.py:155 | every alternative of the split interior holds only letters and `$` |
| Splitter.RestIsUpToSecondParen | src/compile.py:156 | the suffix is the text from the group's `)` up to the next `)`; it starts with `.` and holds no `)` |
| Splitter.NonEmpty | src/compile.py:157-158 | the alternatives kept are exactly the non-empty ones |
| Splitter.NonEmptyKeepsAll | src/compile.py:157-158 | when no alternative is empty, all are kept in order |
| Splitter.BreakUpCompoundExtractors | src/compile.py:149-166 | the method returns the expansion of the extractor: the suffixed alternatives when the space-free text matches, otherwise the extractor itself unless its lower-cased text starts with `new ` |
| Splitter.SuffixAlternatives | src/compile.py:157-161 | the loop over the alternatives returns the non-empty ones, in order, each followed by the suffix |
| Splitter.ExpandMatching | src/compile.py:151-161 | for a matching extractor: one output per non-empty alternative, in order, each that alternative followed by the suffix, and no other outputs |
| Splitter.ExpandNotMatching | src/compile.py:162-166 | for a non-matching extractor: at most one output, which is the original text with its spaces; there is none exactly when the lower-cased text starts with `new ` |
| Splitter.ExpandDropsConstructors | src/compile.py:164-165 | an extractor starting with `new ` in any casing yields nothing |
| Splitter.ExpandRemovesPipes | src/compile.py:155-161 | when the suffix has no `\|`, no output of the matching branch has one |
| Splitter.PipeInSuffixSurvives | src/compile.py:156-159 | a `\|` in the suffix is copied into every output, so `(a\|b).c\|d` yields `a.c\|d` and `b.c\|d` |
| Splitter.GroupMatches | src/compile.py:152-156 | `(` + group text + `)` + a `.` suffix without `)` matches, and the matcher recovers the group text and the suffix |
| Splitter.ExpandCompound | src/compile.py:149-161 | the expansion of `(n1\|…\|nk)` + suffix, for names `ni`, is each non-empty name followed by the suffix: the inverse of composing a compound extractor |
| ExtractorMaps.Keys | src/compile.py:226 | the keys in insertion order, one per entry |
| ExtractorMaps.IndexOf | src/compile.py:142 | the position found is the first entry with that key, or past the end when the key is absent |
| ExtractorMaps.HasKeyIffInKeys | src/compile.py:142 | `k in m` holds exactly when `k` is among the keys |
| ExtractorMaps.GetAt | src/compile.py:226 | with unique keys, each entry's list is what its key reads |
| ExtractorMaps.TouchFacts | src/compile.py:142-143 | `if k not in m: m[k] = []` makes `k` a key, appends it to the keys only if it was new, changes no list and keeps keys unique |
| ExtractorMaps.AppendToFacts | src/compile.py:146 | `m[k].append(x)` adds `x` at the end of `k`'s list only, and keeps the keys |
| ExtractorMaps.AppendAllKeys | src/compile.py:145-146 | appending several values keeps the keys and their uniqueness |
| ExtractorMaps.AppendAllGet | src/compile.py:145-146 | appending several values extends `k`'s list by exactly those values, in order, and no other list |
| Normalizer.GetAllFuncExtractors | src/compile.py:127-147 | the nested loops return the normalization of the documents, or `Err(IndexError)` exactly where the source raises |
| Normalizer.CanonicalName | src/compile.py:131-139 | with no `bowername` the raw key is the name; a scalar `bowername` is the name; a list gives its first element whatever its length, and an empty list gives none, which the loop turns into `Err(IndexError)` |
| Normalizer.AddFuncExtractors | src/compile.py:140-146 | the loop over one entry's `func` list files every extractor's expansions under the name, exactly as `AddFuncs` describes |
| Normalizer.NormalizeFacts | src/compile.py:127-147 | the run fails exactly when a non-denied entry has an empty `bowername` list; otherwise the keys are the names fed a non-empty `func` list, once each, in order of first appearance, and each list is the concatenation of the expansions filed under that name, in document, entry and extractor order |
| Normalizer.LaterDocumentExtends | src/compile.py:129-147 | a later document keeps the earlier keys as a prefix and extends each list by that document's contribution, earlier document first |
| Normalizer.SingleEntry | src/compile.py:130-146 | one entry: a denied key is skipped before `bowername` is read; an empty `bowername` list raises; a non-empty `func` list is filed under the canonical name; an absent or empty one files nothing |
| Normalizer.AliasIsNotDenied | src/compile.py:132-139 | an entry whose `bowername` is the denied name is filed under it; the deny-list sees only raw keys |
| Normalizer.EmptyEntryKept | src/compile.py:142-146 | a library whose every extractor is dropped still gets an entry, with an empty list |
| Normalizer.ExpandAllDropsConstructors | src/compile.py:141-146 | a `func` list of constructor calls only expands to nothing |
| Normalizer.RunCrash | src/compile.py:132-137 | a run fails exactly when one of its entries crashes |
| Normalizer.RunKeys | src/compile.py:142-143 | after a run, the keys are the first appearances of the initial keys followed by the names fed, and they stay unique |
| Normalizer.RunGet | src/compile.py:141-146 | after a run, each list is its initial value followed by everything the entries filed under that name |
| Normalizer.RunAppend | src/compile.py:129-130 | running two entry sequences one after the other is running their concatenation |
| Normalizer.RunErrSticks | src/compile.py:137 | once a run has raised, further entries change nothing |
| Normalizer.StepCrash | src/compile.py:132-137 | one entry fails exactly when its key is not denied and its `bowername` list is empty |
| Normalizer.StepKeys | src/compile.py:140-143 | one entry adds its name to the keys only if it is fed and new, and keeps them unique |
| Normalizer.StepGet | src/compile.py:140-146 | one entry extends exactly its own name's list, by its expansions |
| Normalizer.AddFuncsKeys | src/compile.py:141-143 | the `func` loop touches the name once there is an extractor, and keeps keys unique |
| Normalizer.AddFuncsGet | src/compile.py:141-146 | the `func` loop extends the name's list by every expansion, in order |
| Normalizer.Dedup | src/compile.py:142-143 | the first appearances hold no repeat and the same members as the list |
| Guard.Segments | src/compile.py:189-191 | the first token gives at least one segment, and no segment holds a space or a dot |
| Guard.GetJsExistenceLogicFromFunction | src/compile.py:187-221 | the loop and the scan return the guard of the extractor |
| Guard.RootLeadingCall | src/compile.py:204-220 | the scan rewrites the condition exactly when the first path contains `)`, replacing that path by its root and leaving the rest untouched |
| Guard.FirstTokenOnly | src/compile.py:189-200 | the guard depends only on the first space-separated token |
| Guard.BuildingEmptyLead | src/compile.py:195-197 | leading empty segments leave the building part empty |
| Guard.BuildingJoin | src/compile.py:192-197 | from the first non-empty segment on, the building part is the dot-join of the segments so far |
| Guard.GuardChecksEveryPrefix | src/compile.py:188-203 | for a first segment that is non-empty and has no `)`, the guard is `(`, then one clause per dotted prefix, joined with ` && `, then `)` |
| Guard.GuardNarrowsLeadingCall | src/compile.py:204-221 | when the first segment has `)`, the first clause checks the name before its first `(` and the later clauses are unchanged |
| Guard.RootFacts | src/compile.py:219 | the root is the text before the first `(`, so it holds no `(` |
| Guard.RootedHead | src/compile.py:204-221 | the rewritten condition is the conjunction with the root as its first path, or the conjunction itself when the first path has no `)` |
| Guard.SecondPiece | src/compile.py:219 | the second space-separated word of the condition is the first path |
| Guard.FirstRewrite | src/compile.py:219-220 | the first rewrite puts the root where the first path was |
| Guard.LaterRewrite | src/compile.py:218-220 | once rewritten, another rewrite replaces the root by itself |
| Guard.NoEarlierOccurrence | src/compile.py:220 | a first path with `)` and no space cannot occur inside the leading `(typeof `, so the replace hits the first clause |
| Guard.HeadChar | src/compile.py:209-217 | which characters the scan sees before the second space: `(`, the letters of `typeof`, a space, the first path, a space |
| Guard.ConjunctionHead | src/compile.py:188-203 | the condition is `(typeof `, the first path, then a tail that starts with a space |
| Guard.DropAnd | src/compile.py:201-202 | the trailing ` && ` is always present and cutting it leaves the joined clauses |
| Assembler.MakeLibrevealjsFromExtractors | src/compile.py:223-252 | the nested loops return the script of the map |
| Assembler.ScriptSnoc | src/compile.py:226-251 | one more library at the end of the map appends its part at the end of the script |
| Assembler.BranchListAt | src/compile.py:231-239 | the `k`-th branch of a library checks its `k`-th extractor, and only the first opens with `if ` |
| Assembler.BranchesFlatten | src/compile.py:232-251 | a library's branches are its branch list concatenated in order |
| Assembler.BlockListAt | src/compile.py:226-230 | the `i`-th part of the script is the `i`-th library's comment line and branches |
| Assembler.BlocksFlatten | src/compile.py:226-251 | after the header, the script is the libraries' parts concatenated in map order |
| Compiler.ScriptOfDocuments | src/compile.py:299-300 | the script compiled from documents has one part per fed name, in first-appearance order, and each part holds the branches for everything filed under that name |

Notes on how the source was read:

- The suffix of a compound extractor is `split(')')[1]` of the space-free
  text (src/compile.py:156). That is the text between the first and the
  second `)`, not everything after the first. So `(a|b).fn()` gives
  `a.fn(`. The model follows the code.
- The matching branch copies the suffix verbatim. An output is free of `|`
  only when the suffix is; `Splitter.PipeInSuffixSurvives` shows the other
  case.
- In the guard scan, `open_paren` is set by the condition's own leading
  `(`. The rewrite therefore fires exactly when the first path contains
  `)`, whatever comes before it.
- `ExtractorMaps.AppendTo` leaves the map unchanged when the key is absent.
  That case never arises, because the key is always added first
  (src/compile.py:142-143).

## Left out

- The `__main__` driver (src/compile.py:263-307): network, file and
  staleness orchestration. Only its two calls on lines 299-300 are
  modelled, by `Compiler.ScriptOfDocuments`.
- `get_online_retirejs_repo` (src/compile.py:103-112): network I/O.
- The file and JSON helpers (src/compile.py:35-117), `write_out_to_json`
  and the `does_*_exist` helpers: file-system calls.
- `was_last_libreveal_json_run_earlier_than_file_update` and
  `write_last_libreveal_json_run` (src/compile.py:168-185): clock and
  file-time logic.
- `minify_js` (src/compile.py:304): a foreign library whose code is not part
  of this model.
- `are_the_same` (src/compile.py:119-120): Python equality of parsed JSON.
- The status JSON strings (src/compile.py:254-261): constant output.
- JSON parsing. Documents arrive as ordered lists of entries. A
  descriptor keeps only `bowername`, as a string or a list of strings, and
  the `func` list. Other JSON types in those fields are not modelled.
- Unicode case mapping: `lower()` is modelled on ASCII letters only.
- General regular expressions: only the one pattern of
  src/compile.py:152 is modelled, by a hand-written matcher.
- Guard.GuardChecksEveryPrefix: requires a non-empty first segment. With
  leading empty segments (a token such as `.x`) the building part skips the
  dot, and `Guard.BuildingJoin` states that case instead.
- Splitter.ExpandRemovesPipes: requires a suffix free of `|`, because the
  unconditional claim does not hold (see `Splitter.PipeInSuffixSurvives`).
