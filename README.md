# Version constraints of semver (constraints.go), modelled in Dafny

This project models the constraint half of a semantic-version library:
`NewConstraint` turns a text such as `">= 1.2, < 3.0.0 || ^4.1"` into a
`Constraints` value, and `Check` decides whether a version satisfies it.

`NewConstraint` works in two stages:

- Three text rewrite passes expand shorthand into plain comparator clauses,
  in a fixed order:
  - hyphen ranges: `A - B` becomes `>= A, <= B`;
  - carets: `^1.2.3` becomes `>= 1.2.3, < 2`;
  - tildes: `~1.2.3` and `~>1.2.3` become `>= 1.2.3, < 1.3.0`.
- The result is split on `||` into groups and each group on `,` into
  clauses. `parseConstraint` parses each clause with the anchored pattern
  `^\s*(op)\s*(version)\s*$` and one of nine operator tokens.

A clause whose minor or patch is a wildcard (`x`, `X`, `*`) gets that part
filled with `0` and is marked dirty. `Check` accepts a version when some
group has every clause satisfied.

The modules follow the source:

- `StringOps`: the Go string functions the code relies on.
  - `strings.Split`, `strings.Index` and `strings.Replace(…, 1)`.
  - `strings.ToLower`, `strconv.ParseInt` for 32 bits, and `%d`.
- `Grammar`: the version-capture pattern `cvRegex` and the anchored clause
  pattern.
  - Both are modelled as functions.
  - Both are proved unambiguous: every valid token or clause is recognised
    from its own text, and nothing else is. This uses the intended
    component class `[0-9xX*]`, not the class as written (see Findings).
- `Rewrite`: the three passes, as loops that replace the first occurrence
  of each match text (`strings.Replace(o, v[0], t, 1)`).
  - The range, caret and tilde expansions.
  - Caret and tilde are proved to expand every match in place, and to be
    idempotent, whenever no literal text between matches holds a `^` (or
    `~`). The condition is mild: no well-formed clause holds a `^` or `~`
    (`CvTextChars`, `OpTokenChars`), so a clause that keeps a stray one is
    improper anyway.
  - The range pass as written replaces each match text where it first
    occurs. It is proved to expand every match in place whenever no match
    text occurs before its own site (`InPlace`), and so for a lone match.
    `NewConstraint` here uses the in-place range pass (see Findings);
    `RewriteAllAsWritten` keeps the passes as written, and the two agree
    under that condition.
- `Constraints`: the operator table and the six comparison functions.
  - `parseConstraint`, `NewConstraint` with its two nested loops, and
    `Check`.
- `Expansions`: the lower and upper bound of every caret and tilde window,
  and the clauses of every expansion.
- `Semantics`: what each expansion means once parsed.
  - Which versions the group it becomes accepts: a half-open window for a
    caret or tilde, a closed interval for a range, at least `0.0.0` for a
    wildcard major.
- `Pipeline`: `NewConstraint` end to end.
  - Text without shorthand reaches the parser unchanged.
  - A lone caret, tilde or range gives exactly the window above, with the
    passes as written and as corrected alike. For a caret or a tilde this
    assumes the range pattern finds nothing in the text, which the
    unmodelled `SemVerRegex` decides.
- `Findings`: two inputs on which the code as written goes wrong (see
  below).

The `Version` type and its functions come from another file of the library.
Here they are a type parameter `V` with a `VersionApi` of three functions:

- `newVersion`: text to optional version;
- `compare`;
- `equal`.

`Lawful` states the two assumed laws: `compare` answers -1, 0 or 1, and
`equal` holds exactly when it answers 0. The regular-expression engine is a
`Matcher` parameter. For each pass and each text, it gives the text's
segmentation into literal text and matches. `Honest` requires that the
segmentation reads back to the text.

Where the source's own comments or the library's documentation disagree
with the code, the model follows the code:

- **Caret with a wildcard minor.** `^M.x` gives the two-component lower
  bound `>= M.0<pre>`, not `M.0.0` (constraints.go:237).
- **Caret upper bound.** The upper bound is the bare major `< M+1`, not
  `(M+1).0.0`. This holds for major 0 as well: `^0.2.3` gives
  `>= 0.2.3, < 1`.
- **Caret lower bound.** The lower bound keeps the prerelease but drops the
  build metadata and a leading `v`.
- **Lone `^`.** A lone `^` is not matched by the caret pattern, because it
  needs one version character. It stays in the text, and the clause that
  holds it is improper.
- **Wildcard major in a clause.** A clause such as `>= *` keeps the
  wildcard major in the text given to `NewVersion` (constraints.go:129-137).
- **Integer conversion.** A component that `strconv.ParseInt` rejects makes
  the caret and tilde passes panic. They do not report a parse failure.

## Model

| member | source | states |
|---|---|---|
| Constraints.NewConstraint | constraints.go:19-45 | runs the three passes, then builds one group per `\|\|` part and one clause per `,` part, in order; the first clause that fails gives the error |
| Constraints.RewriteAll | constraints.go:23-25 | the passes run range, then caret, then tilde, each on the previous one's output; the range pass is the corrected in-place one |
| Constraints.RewriteAllAsWritten | constraints.go:23-25 | the same three passes with the range pass as written (replace-first) |
| Constraints.AssembleText | constraints.go:27-44 | splits on `\|\|`, parses every group, and wraps the groups, or returns the first error |
| Constraints.ParseAlternatives | constraints.go:28-43 | the outer loop yields the parsed groups in order, or the error of the first group that fails, without parsing the later ones |
| Constraints.ParseClauses | constraints.go:30-40 | the inner loop yields the parsed clauses in order, or the error of the first clause that fails |
| Constraints.Collect | constraints.go:32-39 | on success, one value per input, in order; on failure, the error of the first failing input, with every earlier input a success |
| Constraints.CollectPrefix | constraints.go:33-36 | once a prefix has failed, later clauses do not change the outcome |
| Constraints.CollectStep | constraints.go:33-38 | a success appends its clause; a failure after successes is the outcome |
| Constraints.GroupStep | constraints.go:29-42 | parsing one more `\|\|` part appends its group, or makes its error the outcome of the whole |
| Constraints.ClauseStep | constraints.go:33-38 | parsing one more `,` part appends its clause, or makes its error the outcome of the group |
| Constraints.CompileShape | constraints.go:27-44 | a constructed set has one group per `\|\|` part, so at least one group, and one clause per `,` part, so at least one clause |
| Constraints.Check | constraints.go:48-65 | answers true exactly when some group has every clause satisfied |
| Constraints.NoGroupsRejects | constraints.go:48-65 | a set without groups accepts no version |
| Constraints.ConstraintOp | constraints.go:71-81 | a token has a comparison function exactly when it is one of the nine table tokens |
| Constraints.OperatorTable | constraints.go:71-81 | `""` and `=` mean equal, `!=` means not equal, `>` means greater, `<` means less, `>=` and `=>` mean at least, `<=` and `=<` mean at most |
| Constraints.OperatorSemantics | constraints.go:156-178 | under a lawful version API: `!=` negates `=`, exactly one of `<`, `=`, `>` holds, `>=` is `>` or `=`, and `<=` is `<` or `=` |
| Constraints.ParseConstraint | constraints.go:123-153 | the result is "improper constraint" exactly when the clause pattern does not match; a success implies that it matched |
| Constraints.ParseConstraintCases | constraints.go:123-153 | a clause is improper exactly when it is not white space, an operator, a version and white space; otherwise its result is the operator with the version `NewVersion` makes of the bound text, or "constraint Parser Error" when `NewVersion` fails |
| Constraints.BoundCv | constraints.go:129-137 | the bound text is itself a valid version text, with the same major and prerelease and no wildcard minor or patch |
| Constraints.BoundTextWildcards | constraints.go:129-137 | dirty exactly when the minor or the patch is a wildcard; a wildcard minor gives `M.0.0<pre>`, a wildcard patch gives `M.N.0<pre>`, and a clean clause passes the version text unchanged |
| Grammar.IsXExactly | constraints.go:193-196 | the wildcards are exactly `x`, `X` and `*` |
| Grammar.MatchCv | constraints.go:189-191 | a recognised version token is valid and reads back to the input |
| Grammar.MatchCvText | constraints.go:189-191 | every valid version token is recognised from its own text: the captures are unambiguous |
| Grammar.ScanCv | constraints.go:189-191 | the greedy captures and the rest read back to the input |
| Grammar.CvTextChars | constraints.go:189-191 | a version text is non-empty and holds only version characters: no white space, operator character, `,`, `^` or `~` |
| Grammar.CvTextNoBar | constraints.go:189-191 | with the intended character class, no version text contains `\|` |
| Grammar.MatchClause | constraints.go:88-91 | a recognised clause is valid and reads back to the input |
| Grammar.MatchClauseText | constraints.go:88-91 | every valid clause is recognised from its own text, with its operator, version and surrounding white space |
| Grammar.MatchClauseExactly | constraints.go:88-91 | with the intended component class, the clause pattern accepts exactly the texts of valid clauses |
| Grammar.OpTokenChars | constraints.go:71-81 | every operator token is made of operator characters |
| StringOps.Index | constraints.go:206 | the first position where the pattern occurs, or -1 when it does not occur |
| StringOps.ReplaceFirstAt | constraints.go:206 | when no occurrence starts before `a`, replacing the first occurrence in `a + t + b` replaces exactly the `t` after `a` |
| StringOps.MarkerFree | constraints.go:226-228 | a marker that starts the pattern and is absent from `a` keeps every earlier occurrence out of `a` |
| StringOps.Split | constraints.go:27 | `strings.Split` gives at least one part |
| StringOps.SplitJoin | constraints.go:27 | joining the parts with the separator gives the text back, no part contains the separator, there is more than one part exactly when the separator occurs, and the first part ends at its leftmost occurrence (so `"\|\|\|"` split on `"\|\|"` is `["", "\|"]`) |
| StringOps.SplitParts | constraints.go:27 | the round trip and the separator-free parts, by induction on the text |
| StringOps.SplitFirstCut | constraints.go:27 | more than one part exactly when the separator occurs, the first part being the text before its leftmost occurrence |
| StringOps.SplitNoSeparator | constraints.go:27 | a text without the separator is one part |
| StringOps.SplitAt | constraints.go:30 | splitting `a + sep + b`, where `a` holds no separator, gives `a` followed by the parts of `b` |
| StringOps.SplitPair | constraints.go:30 | a one-character separator occurring once splits the text in two |
| StringOps.ToLower | constraints.go:194 | lower-casing keeps the length and lower-cases each character |
| StringOps.NatToString | constraints.go:237 | `%d` gives decimal digits without a leading zero |
| StringOps.NatToStringValue | constraints.go:237 | formatting and then reading back a number gives the number |
| Rewrite.RewriteRangeAsWritten | constraints.go:198-210 | the replace-first loop over the range matches; no match leaves the text unchanged; when no match text occurs before its own site, every match is expanded where it was found |
| Rewrite.RangeSiteWise | constraints.go:198-210 | when no match text occurs before its own site, replace-first equals expanding every range match in place |
| Rewrite.RangeNotIdempotent | constraints.go:198-210 | the range pass is not idempotent: on `1.0.0-1 - 2` the first pass gives `>= 1.0.0-1, <= 2`, and with the matches a version pattern accepting `1.0.0` and `1` would report, the second gives `>=>= 1.0.0, <= 1, <= 2`; the as-written and in-place forms agree on both passes |
| Rewrite.InPlaceSiteWise | constraints.go:206 | replacing first occurrences one after another rewrites every match at its own site when no match text occurs earlier than its site in the partly rewritten text (a sufficient condition, not a necessary one) |
| Rewrite.MarkedInPlace | constraints.go:226-228 | when every match starts with a marker that neither literal text nor any replacement holds, no match text occurs before its own site |
| Rewrite.RewriteRange | constraints.go:198-210 | corrected: every range match is replaced by `>= A, <= B` where it was found, and the text between matches is kept |
| Rewrite.RewriteCarets | constraints.go:220-263 | the replace-first loop over the caret matches; no match leaves the text unchanged; when no literal text holds `^`, every match is expanded where it was found |
| Rewrite.CaretExpansion | constraints.go:226-259 | no caret expansion contains `^` or `~` |
| Rewrite.CaretSiteWise | constraints.go:220-263 | when no literal text holds `^`, replace-first equals expanding every match in place |
| Rewrite.CaretIdempotent | constraints.go:220-263 | when no literal text holds `^`, a second caret pass finds no match and leaves the text as the first pass made it |
| Rewrite.RewriteTilde | constraints.go:273-316 | the replace-first loop over the tilde matches; no match leaves the text unchanged; when no literal text holds `~`, every match is expanded where it was found |
| Rewrite.TildeUnmarked | constraints.go:279-312 | no tilde expansion contains `^` or `~` |
| Rewrite.TildeEditsMarked | constraints.go:273-316 | every tilde replacement replaces a text starting with `~` by one without `~` |
| Rewrite.TildeSiteWise | constraints.go:273-316 | when no literal text holds `~`, replace-first equals expanding every match in place |
| Rewrite.TildeIdempotent | constraints.go:273-316 | when no literal text holds `~`, a second tilde pass finds no match and leaves the text as the first pass made it |
| Rewrite.NoMarkerNoHits | constraints.go:221-224 | a text without the pass's marker has no match, so `FindAllStringSubmatch` returns nil |
| Rewrite.NoHitsSame | constraints.go:199-202 | without matches the pass returns its input |
| Expansions.CaretLowerBound | constraints.go:226-259 | the caret lower bound is wildcard-free and keeps the major and the prerelease; a wildcard minor becomes `0` with no patch, a wildcard patch becomes `0`, and the rest is kept |
| Expansions.CaretUpperBound | constraints.go:237-257 | the caret upper bound is the number `M+1` alone, for every `M`, 0 included |
| Expansions.CaretWindow | constraints.go:226-259 | with a numeric major, the caret expansion is `>= lower, < upper` |
| Expansions.CaretWildMinor | constraints.go:229-238 | `^M.x` expands to `>= M.0<pre>, < M+1` |
| Expansions.CaretWildPatch | constraints.go:239-248 | `^M.N.x` expands to `>= M.N.0<pre>, < M+1` |
| Expansions.CaretExact | constraints.go:249-258 | `^M[.N[.P]]` expands to the version as written, without `v` or build metadata, then `< M+1` |
| Expansions.CaretExpansionClauses | constraints.go:212-217 | every caret expansion splits on `,` into well-formed clauses: `>=0.0.0`, or `>= lower` and `< upper` |
| Expansions.TildeLowerBound | constraints.go:279-312 | the tilde lower bound is wildcard-free and keeps the major and the prerelease; an absent or wildcard minor gives `M.0.0`, a wildcard patch becomes `0`, and the rest is kept |
| Expansions.TildeUpperBound | constraints.go:282-311 | the tilde upper bound is `(M+1).0.0` for an absent or wildcard minor, otherwise `M.(N+1).0` with the major as written |
| Expansions.TildeWindow | constraints.go:279-312 | with a numeric major, the tilde expansion is `>= lower, < upper` |
| Expansions.TildeWholeMajor | constraints.go:282-291 | `~M` and `~M.x` expand to `>= M.0.0<pre>, < (M+1).0.0` |
| Expansions.TildeWildPatch | constraints.go:292-301 | `~M.N.x` expands to `>= M.N.0<pre>, < M.(N+1).0` |
| Expansions.TildeExact | constraints.go:302-311 | `~M.N[.P]` expands to the version as written, without `v` or build metadata, then `< M.(N+1).0` |
| Expansions.TildeExpansionClauses | constraints.go:265-270 | every tilde expansion splits on `,` into well-formed clauses: `>=0.0.0`, or `>= lower` and `< upper` |
| Expansions.TildeArrowSame | constraints.go:265-270 | `~` and `~>` expand the same version identically |
| Expansions.AnyVersionClauses | constraints.go:228 | `>=0.0.0` is one well-formed clause |
| Semantics.ParseAnyVersion | constraints.go:228 | the one `,` part of `>=0.0.0` parses to the clause `>= 0.0.0` |
| Expansions.WindowClauses | constraints.go:237 | `>= lo, < hi` splits into its two well-formed clauses |
| Semantics.ParseConcrete | constraints.go:123-153 | a well-formed clause without wildcards parses to its operator and its version, clean |
| Semantics.ParseWindow | constraints.go:27-44 | `>= lo, < hi` builds one group holding `>= a` and `< b` |
| Semantics.SingleGroup | constraints.go:27-44 | a text without `\|` builds one group |
| Semantics.PairHolds | constraints.go:48-65 | a single group of two clauses is satisfied exactly when both clauses hold |
| Semantics.WindowHolds | constraints.go:168-174 | the group `>= a, < b` accepts exactly the versions in `[a, b)` |
| Semantics.IntervalHolds | constraints.go:172-178 | the group `>= a, <= b` accepts exactly the versions in `[a, b]` |
| Semantics.AtLeastHolds | constraints.go:172-174 | the group `>= a` accepts exactly the versions at least `a` |
| Semantics.AnyVersionMeaning | constraints.go:228 | `>=0.0.0` builds the single clause `>= 0.0.0`, which accepts exactly the versions at least 0.0.0 |
| Semantics.CaretMeaning | constraints.go:212-217 | with a numeric major, a caret expansion builds `>= lower, < M+1` and accepts exactly that window |
| Semantics.CaretAnyMeaning | constraints.go:227-228 | a caret with a wildcard major accepts exactly the versions at least 0.0.0 |
| Semantics.TildeMeaning | constraints.go:265-270 | with a numeric major, a tilde expansion builds `>= lower, < upper` and accepts exactly that window |
| Semantics.TildeAnyMeaning | constraints.go:280-281 | a tilde with a wildcard major accepts exactly the versions at least 0.0.0 |
| Semantics.RangeMeaning | constraints.go:205 | `>= A, <= B` builds one group with the two bounds, dirty where they had wildcards, and accepts exactly `[A, B]` |
| Pipeline.CaretPassUnmarked | constraints.go:220-224 | a caret pass over a text without `^` finds nothing and changes nothing |
| Pipeline.TildePassUnmarked | constraints.go:273-277 | a tilde pass over a text without `~` finds nothing and changes nothing |
| Pipeline.RangePassEmpty | constraints.go:198-202 | a range pass that finds no match leaves the text unchanged |
| Pipeline.AsWrittenAgrees | constraints.go:183-210 | the passes with the range pass as written give the same text as with the in-place one when no range match text occurs before its own site, and when there is no range match |
| Pipeline.PlainText | constraints.go:183-187 | a text with no range match, no `^` and no `~` reaches the parser unchanged, with the passes as written and as corrected |
| Pipeline.CaretAlone | constraints.go:183-187 | a lone caret match is rewritten to its expansion, and the tilde pass leaves that alone |
| Pipeline.TildeAlone | constraints.go:183-187 | a lone tilde match is rewritten to its expansion |
| Pipeline.RangeAlone | constraints.go:183-210 | a lone range match is rewritten to `>= A, <= B` by the range pass as written and as corrected, and the later passes leave that alone |
| Pipeline.CompileCaret | constraints.go:19-45 | `NewConstraint("^…")` with a numeric major yields `>= lower, < M+1` and accepts exactly that window; this assumes the range pattern finds nothing in the text; the passes as written give the same constraint |
| Pipeline.CompileCaretAny | constraints.go:19-45 | `NewConstraint("^*")` yields `>= 0.0.0`; the passes as written give the same constraint |
| Pipeline.CompileTilde | constraints.go:19-45 | `NewConstraint("~…")` with a numeric major yields `>= lower, < upper` and accepts exactly that window; this assumes the range pattern finds nothing in the text; the passes as written give the same constraint |
| Pipeline.CompileTildeAny | constraints.go:19-45 | `NewConstraint("~*")` yields `>= 0.0.0`; the passes as written give the same constraint |
| Pipeline.CompileRange | constraints.go:19-45 | `NewConstraint("A - B")` yields `>= A, <= B` and accepts exactly `[A, B]`; the passes as written give the same constraint |
| Findings.RangeReplaceMisplaced | constraints.go:204-207 | for the input `1-2 - 3 \|\| 1-2` the replace-first loop gives `>=>= 1, <= 2, <= 3\|\| 1-2`; in-place expansion gives `>= 1-2, <= 3\|\|>= 1, <= 2` |
| Findings.CaretSwallowsOrAsWritten | constraints.go:189 | with the class as written, the major of `^1\|\|^2` is `1\|\|`, which is neither a wildcard nor a number |
| Findings.CaretStopsAtOr | constraints.go:189 | with the intended class, the major of `^1\|\|^2` is `1` |
| Findings.BarClauseImproper | constraints.go:123-153 | with the intended class, every clause holding `\|` is improper, where the class as written matches `1.x.\|` with the patch `\|` |
| Findings.BarNoClause | constraints.go:88-91 | with the intended class, no well-formed clause holds `\|` |

## Left out

- The `Version` type, `NewVersion`, `Compare` and `Equal` live in another file of the library. They are the `VersionApi` parameter, and `Lawful` states the laws assumed of them.
- The regular-expression engine is not modelled for the three unanchored passes. Their `FindAllStringSubmatch` results are the `Matcher` parameter, and `SemVerRegex` is not part of this model. The range endpoints are kept as text.
- `init`, the map `constraintOps` and the alternation built from its keys are a total function over the nine tokens. Map iteration order does not matter to the anchored match.
- Rewrite.RewriteCarets: the `panic` when `strconv.ParseInt` rejects a component is a precondition. Match tokens have the subset type `CaretCv`. This includes a major beyond 32 bits, or one such as `1x` that is neither a number nor a wildcard. `CaretCv` is built on the intended class, so it also excludes captures holding `|` that do not panic, such as the minor `.2||` of `^1.2||^2.0`.
- Rewrite.RewriteTilde: the same, through the subset type `TildeToken`. Such captures include the minor `.2||` of `~1.2||^2.0`.
- The text of the error messages is reduced to the two kinds `Improper(clause)` and `ParserError`.
- The `dirty` flag is recorded but nothing in this file reads it.
- `NewConstraint` and `Check` on pointers: a `Constraints` is a value here. Go's `make` and indexed fill of slices is modelled as appending in order, which gives the same contents.
- Pipeline.CompileCaret, Pipeline.CompileTilde, Pipeline.CompileRange, Pipeline.CompileCaretAny, Pipeline.CompileTildeAny: they assume the matcher reports the whole text as one match, rather than deriving this from the patterns. For a caret or a tilde they also assume that the range pattern finds nothing in the text. That depends on `SemVerRegex`: a pattern that accepts both `1.2.3` and `1` as versions finds the range `1.2.3-1` inside `^1.2.3-1`, and the source then rewrites it to `^>= 1.2.3, <= 1`, an improper clause.
- Rewrite.RewriteRangeAsWritten, Rewrite.RewriteRange: idempotence is not claimed, because neither form of the range pass is idempotent. `1.0.0-1 - 2` becomes `>= 1.0.0-1, <= 2`. When `SemVerRegex` accepts both `1.0.0` and `1`, a second pass matches ` 1.0.0-1` in that text and gives `>=>= 1.0.0, <= 1, <= 2`. Both forms agree on each of the two passes (`RangeNotIdempotent`). `NewConstraint` runs the pass once.
- Constraints.NewConstraint: uses the corrected range pass and the corrected character class (see Findings). It therefore departs from the source on `1-2 - 3 || 1-2`, on clauses holding a single `|`, and on a caret or tilde written directly before `||`. In the source, `^1.2||^2.0` captures the minor `.2||` and is rewritten to `>= 1.2||, < 2>= 2.0, < 3`, so the second group starts with an empty clause and the result is an improper-constraint error. `~1.2||^2.0` panics, because `strconv.ParseInt` rejects `2||` (constraints.go:303). The model builds two groups for both.
- Constraints.RewriteAll, Constraints.Rewritten: they run the in-place range pass, not the replace-first loop of constraints.go:204-207. `RewriteAllAsWritten` and `RewrittenAsWritten` keep the loop as written, and `AsWrittenAgrees` shows the two agree whenever no range match text occurs before its own site.
- Constraints.ParseConstraint, Constraints.ParseConstraintCases: they use the intended component class `[0-9xX*]`. With the class as written, `[0-9|x|X|\*]`, the source matches `1.x.|` with the patch `|` and returns `= 1.0.0`, dirty, and hands `1.0|2.0` to `NewVersion`, reporting a parser error when that fails. Here both are improper (`BarClauseImproper`). Only the class itself is kept as written (`CvCharAsWritten`), not a whole grammar built on it.
- Grammar.MatchClauseExactly: "exactly the valid clauses" holds for the intended class. The pattern of constraints.go:88-91 with the class of line 189 also accepts texts such as `1.x.|`.

## Findings

| source | as written | input that shows it | evidently intended | confidence | as-written member | corrected member |
|---|---|---|---|---|---|---|
| constraints.go:204-207 | each range match text replaces its first occurrence in the current string, which can lie inside an earlier expansion | `1-2 - 3 \|\| 1-2` becomes `>=>= 1, <= 2, <= 3\|\| 1-2` | each match expanded where it was found: `>= 1-2, <= 3\|\|>= 1, <= 2` | high; not executed | Findings.RangeReplaceMisplaced | Rewrite.RewriteRange |
| constraints.go:189 | the component class `[0-9\|x\|X\|\*]` also admits `\|` | `^1\|\|^2`: the major is captured as `1\|\|`, `strconv.ParseInt` fails and `rewriteCarets` panics; `^1.2\|\|^2.0`: the minor is captured as `.2\|\|` and the result is an improper-constraint error | the class `[0-9xX\*]`, so the major is `1` | high; not executed | Findings.CaretSwallowsOrAsWritten | Grammar.CvTextNoBar |
