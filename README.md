# OpenReplay core pieces in Dafny

This project models four pieces of OpenReplay and proves properties of them.

- **The stylesheet rewriter of the replay player** (`urlResolve.ts`, modules `UrlResolve`, `JsRegex`, `JsString`). Captured CSS text is rewritten in two passes:
  - every `url(...)` argument is handed to a rewriter, and so is every quoted `@import` target; the result is written back with its quote character;
  - a `;` is appended when the text does not end with one;
  - every `:hover` and `:focus` becomes a class selector;
  - `resolveCSS` uses URL resolution against the page's base address as the rewriter;
  - `cssUrlsIndex` lists the spans of the URL arguments and import targets.

  The three regular expressions are modelled as scanners with the same greedy and lazy choices. The global `replace` and `matchAll` are generic functions over such scanners. A JavaScript throw is `None` and aborts the whole call.
- **The project settings service** (`projects.py`, module `Projects`):
  - the validation of conditional-capture condition names;
  - the plan that syncs incoming conditions with the stored ones;
  - the sample-rate rule of the capture status;
  - the SET list of the generic project update.
- **The integrations service's path arguments** (`handlers.go`, module `IntegrationHandlers`): the name, project id and session id, parsed as `strconv.ParseUint(s, 10, 64)` would parse them, with the exact error messages.
- **The front end's project store** (`projectsStore.ts`, module `ProjectsStore`). A class holds the site list, the selected site id, the active site, the loading flag and a map standing for `localStorage`. Its methods are:
  - `setSiteId`;
  - `fetchList`, given the service's response;
  - `save`, an upsert given the saved project;
  - `updateProjectRecordingStatus`.

  The recording flag is changed in place on the `Project` object.

`Wrappers` holds the `Option` and `Result` types shared by the modules.

## Model

| member | source | states |
|---|---|---|
| UrlResolve.ResolveURL | frontend/app/player/web/messages/rewriter/urlResolve.ts:1-6 | an empty or `#` reference is returned unchanged; any other is exactly what the URL constructor gives for it and the base, a throw included |
| UrlResolve.ResolveURLIgnoresBase | frontend/app/player/web/messages/rewriter/urlResolve.ts:2-4 | for an empty or fragment reference the result does not depend on the parser or the base |
| UrlResolve.Unquote | frontend/app/player/web/messages/rewriter/urlResolve.ts:28-36 | without a quote the value is the input; a quote is the first character, a quote character that the input also ends with |
| UrlResolve.UnquoteCases | frontend/app/player/web/messages/rewriter/urlResolve.ts:28-36 | the quote is stripped iff the first and last characters are the same `"` or `'`; then quote + value + quote gives the input back (length ≥ 2), and a lone quote character is its own value (the swap in `substring(1, 0)`); otherwise the value is the input and the quote empty |
| UrlResolve.UnquoteQuoted | frontend/app/player/web/messages/rewriter/urlResolve.ts:28-36 | a value wrapped in a quote character unquotes to that value and that quote |
| UrlResolve.UrlFunctionReSound | frontend/app/player/web/messages/rewriter/urlResolve.ts:39 | the `url\(([^)]*)\)` scanner only matches a non-empty prefix of the text it is tried on |
| UrlResolve.UrlFunctionRe | frontend/app/player/web/messages/rewriter/urlResolve.ts:39 | the scanner for `url\(([^)]*)\)`: `url(`, the run up to the first `)` as group 1, and that `)`; what it matches is stated by `UrlFunctionReMatches` and `UrlFunctionReAt` |
| UrlResolve.UrlFunctionReMatches | frontend/app/player/web/messages/rewriter/urlResolve.ts:39 | the expression matches iff the text starts with `url(` and a `)` follows; the match is `url(` + group + `)` with no `)` in the group |
| UrlResolve.UrlFunctionReAt | frontend/app/player/web/messages/rewriter/urlResolve.ts:39 | on `url(` + a run free of `)` + `)` the match is exactly that, with the run as group |
| UrlResolve.UrlMatchShape | frontend/app/player/web/messages/rewriter/urlResolve.ts:39 | every match of the first pass is text of the input at its index, of the form `url(` + group + `)` |
| UrlResolve.UrlPassRewritesReference | frontend/app/player/web/messages/rewriter/urlResolve.ts:39-43 | the first `url(...)` becomes `url(` + q + rewriter(value) + q + `)`, where value and q come from unquoting the trimmed argument; text before it is copied; a throw of the rewriter aborts |
| UrlResolve.UrlPassWithoutReferences | frontend/app/player/web/messages/rewriter/urlResolve.ts:39-43 | text without `url(` passes through the first pass unchanged |
| UrlResolve.UrlPassSucceedsIff | frontend/app/player/web/messages/rewriter/urlResolve.ts:39-43 | the first pass throws iff the rewriter throws on the reference of one of its matches |
| UrlResolve.RewriteUrlFunctions | frontend/app/player/web/messages/rewriter/urlResolve.ts:39-43 | the first pass: the global replace with the `url(...)` replacer; its effect is stated by `UrlPassRewritesReference`, `UrlPassWithoutReferences` and `UrlPassSucceedsIff` |
| UrlResolve.SpaceRunEndIsMaximal | frontend/app/player/web/messages/rewriter/urlResolve.ts:45 | the scanner for `\s+` stops at the first character that is not JavaScript white space |
| UrlResolve.SpaceRunEndAt | frontend/app/player/web/messages/rewriter/urlResolve.ts:45 | a white-space run ended by a non-space character is found exactly |
| UrlResolve.LazyCloseQuoteIsFirst | frontend/app/player/web/messages/rewriter/urlResolve.ts:45 | the lazy `(.*?)\1` stops at the first closing quote, crossing no line terminator |
| UrlResolve.LazyCloseQuoteAt | frontend/app/player/web/messages/rewriter/urlResolve.ts:45 | the first equal quote after a run without line terminators is the one found |
| UrlResolve.ImportQuotes | frontend/app/player/web/messages/rewriter/urlResolve.ts:45 | a found pair of quotes follows `@import`, is made of two equal quote characters, and the opening one comes after at least one space |
| UrlResolve.ImportReSound | frontend/app/player/web/messages/rewriter/urlResolve.ts:45 | the `@import\s+(['"])(.*?)\1` scanner only matches a non-empty prefix |
| UrlResolve.ImportRe | frontend/app/player/web/messages/rewriter/urlResolve.ts:45 | the scanner for `@import\s+(['"])(.*?)\1`, groups the quote and the target; what it matches is stated by `ImportReMatches` and `ImportReAt` |
| UrlResolve.ImportReMatches | frontend/app/player/web/messages/rewriter/urlResolve.ts:45 | a match is `@import`, white space, a quote, a target free of that quote and of line terminators, and the same quote; the groups are the quote and the target |
| UrlResolve.ImportQuotesOf | frontend/app/player/web/messages/rewriter/urlResolve.ts:45 | on `@import` + spaces + quote + target + quote the quotes are found where they are |
| UrlResolve.ImportReAt | frontend/app/player/web/messages/rewriter/urlResolve.ts:45 | on such a rule the match is the rule with the quote and the target as groups |
| UrlResolve.ImportPassRewritesTarget | frontend/app/player/web/messages/rewriter/urlResolve.ts:45-48 | the first `@import` rule the expression matches becomes `@import ` + quote + rewriter(target) + quote, with the white space reduced to one space; text before it is copied, and it may hold an `@import` the expression does not match; a throw aborts |
| UrlResolve.ImportWithoutQuoteNoMatch | frontend/app/player/web/messages/rewriter/urlResolve.ts:45 | an `@import` whose white space is followed by neither a quote nor white space, as in `@import url(a);`, is not matched, so the pass leaves it as it is and goes on past it |
| UrlResolve.ImportPassSucceedsIff | frontend/app/player/web/messages/rewriter/urlResolve.ts:45-48 | the second pass throws iff the rewriter throws on the target of one of its matches |
| UrlResolve.RewriteImports | frontend/app/player/web/messages/rewriter/urlResolve.ts:45-48 | the second pass: the global replace with the `@import` replacer; its effect is stated by `ImportPassRewritesTarget` and `ImportPassSucceedsIff` |
| UrlResolve.EnsureSemicolon | frontend/app/player/web/messages/rewriter/urlResolve.ts:50-51 | the result ends with `;`; it is the input iff the input ends with `;`, and otherwise the input with one `;` appended |
| UrlResolve.RewriteCSSLinks | frontend/app/player/web/messages/rewriter/urlResolve.ts:38-52 | whenever the rewrite does not throw, its result ends with `;` |
| UrlResolve.RewriteCSSLinksSucceedsIff | frontend/app/player/web/messages/rewriter/urlResolve.ts:38-52 | the rewrite throws iff the rewriter throws on a `url(...)` reference of the input or on an `@import` target of the text after the first pass |
| UrlResolve.RewriteCSSLinksImportRule | frontend/app/player/web/messages/rewriter/urlResolve.ts:45-51 | a stylesheet that is one quoted `@import` rule ended by `;` comes out with the target rewritten, the same quote around it, and one `;` |
| UrlResolve.PseudoclassesLeaveNone | frontend/app/player/web/messages/rewriter/urlResolve.ts:54-58 | the output contains neither `:hover` nor `:focus` |
| UrlResolve.PseudoclassesWithoutTargets | frontend/app/player/web/messages/rewriter/urlResolve.ts:54-58 | text without `:hover` and `:focus` is left unchanged |
| UrlResolve.PseudoclassesKeepSemicolon | frontend/app/player/web/messages/rewriter/urlResolve.ts:54-58 | a text ending with `;` still ends with `;` after the pass |
| UrlResolve.PseudoclassesIdempotent | frontend/app/player/web/messages/rewriter/urlResolve.ts:54-58 | applying the pass twice equals applying it once |
| UrlResolve.RewritePseudoclasses | frontend/app/player/web/messages/rewriter/urlResolve.ts:54-58 | `:hover` then `:focus` replaced by their class selectors; its effect is stated by the four `Pseudoclasses` lemmas |
| UrlResolve.ResolveCSS | frontend/app/player/web/messages/rewriter/urlResolve.ts:60-64 | whenever it does not throw, the result ends with `;` and holds no `:hover` and no `:focus` |
| UrlResolve.ResolveCSSAbortsOnInvalidReference | frontend/app/player/web/messages/rewriter/urlResolve.ts:5 | one `url(...)` reference that the URL parser rejects makes all of `resolveCSS` throw; the reference is not skipped |
| UrlResolve.QuotedArgumentEnd | frontend/app/player/web/messages/rewriter/urlResolve.ts:8 | the quoted alternatives of `re1` end at a `)` right after the closing quote, which equals the opening quote |
| UrlResolve.UrlArgumentReSound | frontend/app/player/web/messages/rewriter/urlResolve.ts:8 | the `re1` scanner only matches a non-empty prefix |
| UrlResolve.UrlArgumentRe | frontend/app/player/web/messages/rewriter/urlResolve.ts:8 | the scanner for `re1`: `url(`, a double-quoted, single-quoted or unquoted argument as group 1, and `)`; stated by `UrlArgumentReMatches` and `UrlArgumentReKeepsQuotedParenthesis` |
| UrlResolve.UrlArgumentReMatches | frontend/app/player/web/messages/rewriter/urlResolve.ts:8 | `re1` matches iff the text starts with `url(` and a `)` follows; the match is `url(` + group + `)`; unless a quoted argument closes right before a `)`, the group holds no `)`, so it stops at the first one (`url("a"b)` gives `"a"b`) |
| UrlResolve.UrlArgumentReKeepsQuotedParenthesis | frontend/app/player/web/messages/rewriter/urlResolve.ts:8 | `re1` keeps a quoted argument that contains `)` whole |
| UrlResolve.UrlFunctionReCutsQuotedParenthesis | frontend/app/player/web/messages/rewriter/urlResolve.ts:39 | the rewriting expression cuts such an argument at its first `)` |
| UrlResolve.ArgumentMatchShape | frontend/app/player/web/messages/rewriter/urlResolve.ts:13-14 | each `re1` match of `matchAll` is text of the input at its index, `url(` + group + `)` |
| UrlResolve.ImportMatchShape | frontend/app/player/web/messages/rewriter/urlResolve.ts:19-20 | each `re2` match is text of the input; its target sits between two equal quote characters and is followed by exactly the closing quote |
| UrlResolve.CssUrlsIndex | frontend/app/player/web/messages/rewriter/urlResolve.ts:11-26 | corrected version: one span per `re1` match, then one per `re2` match, all reversed (the `re2` spans first, last match first, then the `re1` spans, last match first); each span is where the group actually is (`GroupSpan`), not where `indexOf` finds its text |
| UrlResolve.CssUrlsIndexAsWritten | frontend/app/player/web/messages/rewriter/urlResolve.ts:11-26 | as written: the same loops and reversal, each span starting where `indexOf` first finds the group's text in the match (`SpanOf`) |
| UrlResolve.ArgumentGroupSpan | frontend/app/player/web/messages/rewriter/urlResolve.ts:15-16 | with the corrected span (the group's own place in the match), for a `re1` match the span starts right after `url(`, is as long as the argument and covers exactly it |
| UrlResolve.ImportGroupSpan | frontend/app/player/web/messages/rewriter/urlResolve.ts:21-22 | for a `re2` match the span lies between the two quotes, is as long as the target and covers exactly it |
| UrlResolve.SpanOfCoversGroup | frontend/app/player/web/messages/rewriter/urlResolve.ts:15-16 | as written, the span still has the group's length, covers text equal to the group, and starts no later than the group |
| UrlResolve.ArgumentSpanCoversGroup | frontend/app/player/web/messages/rewriter/urlResolve.ts:15-16 | as written, a `re1` span starts between the match and the argument, has the argument's length and covers equal text |
| UrlResolve.ImportSpanCoversGroup | frontend/app/player/web/messages/rewriter/urlResolve.ts:21-22 | as written, a `re2` span starts between the match and the target, has the target's length and covers equal text |
| UrlResolve.SpanOf | frontend/app/player/web/messages/rewriter/urlResolve.ts:15-22 | the span as written, `[s, s + length]` with `s` the match index plus the group's `indexOf` in the match; stated by `SpanOfCoversGroup` and `SpanOfMisplacesArgument` |
| UrlResolve.GroupSpan | frontend/app/player/web/messages/rewriter/urlResolve.ts:15-22 | the corrected span, the group's own place at the end of the match; stated by `ArgumentGroupSpan` and `ImportGroupSpan` |
| UrlResolve.SpanOfMisplacesArgument | frontend/app/player/web/messages/rewriter/urlResolve.ts:15-16 | on `url(u)` the span as written is `[0, 1]`, the `u` of `url`, while the argument is at `[4, 5]` |
| JsRegex.ReplaceCopiesText | frontend/app/player/web/messages/rewriter/urlResolve.ts:39-48 | text in front of the first match is copied unchanged |
| JsRegex.ReplaceAtMatch | frontend/app/player/web/messages/rewriter/urlResolve.ts:39-48 | at a match the replacement comes first and the search resumes after the match |
| JsRegex.ReplaceByItself | frontend/app/player/web/messages/rewriter/urlResolve.ts:39-48 | replacing every match by its own text gives the input back, so nothing outside the matches changes |
| JsRegex.ReplaceWithoutMatches | frontend/app/player/web/messages/rewriter/urlResolve.ts:39-48 | without matches the input comes back whatever the replacer |
| JsRegex.ReplaceSucceedsIff | frontend/app/player/web/messages/rewriter/urlResolve.ts:39-48 | `replace` throws iff the replacer throws on one of the matches `matchAll` lists |
| JsRegex.MatchAllFound | frontend/app/player/web/messages/rewriter/urlResolve.ts:13-14 | each result of `matchAll` is what the expression finds at its index, and is text of the input there |
| JsRegex.MatchAllInOrder | frontend/app/player/web/messages/rewriter/urlResolve.ts:13-14 | the results of `matchAll` come in order of index and do not overlap |
| JsRegex.Replace | frontend/app/player/web/messages/rewriter/urlResolve.ts:39-48 | the global `replace` with a function: matches found left to right, each search resuming after the previous match, replaced; other text copied; a throw aborts; stated by `ReplaceCopiesText`, `ReplaceAtMatch`, `ReplaceByItself` and `ReplaceSucceedsIff` |
| JsRegex.MatchAll | frontend/app/player/web/messages/rewriter/urlResolve.ts:13-14 | the global `matchAll`: the same matches with their indices; stated by `MatchAllFound` and `MatchAllInOrder` |
| JsString.Trim | frontend/app/player/web/messages/rewriter/urlResolve.ts:40 | the result neither starts nor ends with white space |
| JsString.TrimRemovesOuterSpace | frontend/app/player/web/messages/rewriter/urlResolve.ts:40 | `trim()` removes exactly the leading and trailing white space: the result is the text of the input from where the leading run ends, and everything before and after it is white space |
| JsString.TrimStart | frontend/app/player/web/messages/rewriter/urlResolve.ts:40 | a suffix of the input; everything dropped is white space; it does not start with white space |
| JsString.TrimEnd | frontend/app/player/web/messages/rewriter/urlResolve.ts:40 | a prefix of the input; everything dropped is white space; it does not end with white space |
| JsString.Substring | frontend/app/player/web/messages/rewriter/urlResolve.ts:32 | `substring` clamps both ends to the string and swaps them when the first exceeds the second |
| JsString.IndexOfChar | frontend/app/player/web/messages/rewriter/urlResolve.ts:39 | the first index of the character at or after a position, or none when it does not occur there |
| JsString.IndexOfIsFirst | frontend/app/player/web/messages/rewriter/urlResolve.ts:15 | `indexOf` gives -1 iff the text does not occur, and otherwise its first occurrence |
| JsString.IndexOfAtMost | frontend/app/player/web/messages/rewriter/urlResolve.ts:15 | where the text occurs at some index, `indexOf` finds an occurrence there or earlier |
| JsString.Reverse | frontend/app/player/web/messages/rewriter/urlResolve.ts:25 | `reverse` keeps the length and puts element i at position length - 1 - i |
| JsString.ReplaceAllLeavesNo | frontend/app/player/web/messages/rewriter/urlResolve.ts:56-57 | after replacing a pattern by text that cannot take part in it, the pattern no longer occurs |
| JsString.ReplaceAllWithoutOccurrence | frontend/app/player/web/messages/rewriter/urlResolve.ts:56-57 | without an occurrence of the pattern the text is unchanged |
| JsString.ReplaceAllKeepsLast | frontend/app/player/web/messages/rewriter/urlResolve.ts:56-57 | a last character that cannot end the pattern survives the replacement |
| JsString.ReplaceAll | frontend/app/player/web/messages/rewriter/urlResolve.ts:56-57 | `replace(/lit/g, text)` for a literal pattern: occurrences found left to right are replaced; stated by the `ReplaceAll` lemmas |
| Projects.StripIsEmptyIff | api/chalicelib/core/projects.py:291 | a name strips to the empty string iff all of its characters are Python white space |
| Projects.Strip | api/chalicelib/core/projects.py:291 | the result neither starts nor ends with Python white space |
| Projects.StripRemovesOuterSpace | api/chalicelib/core/projects.py:291 | `strip()` removes exactly the leading and trailing Python white space: the result is the text of the input from where the leading run ends, and everything before and after it is white space |
| Projects.CounterKeysOrder | api/chalicelib/core/projects.py:295 | the counter's keys are exactly the names, each once, in order of first occurrence |
| Projects.RepeatedAmongMembers | api/chalicelib/core/projects.py:296 | the comprehension keeps exactly the keys counted more than once |
| Projects.RepeatedAmongKeepsOrder | api/chalicelib/core/projects.py:296 | the comprehension keeps the keys' order of first occurrence |
| Projects.DuplicatesAreRepeatedNames | api/chalicelib/core/projects.py:294-296 | a name is listed as a duplicate iff it occurs more than once; each is listed once, in order of first occurrence |
| Projects.DuplicatesNonEmptyIff | api/chalicelib/core/projects.py:294-297 | the duplicates list is non-empty iff two positions hold the same name |
| Projects.ValidateConditionsEmptyNameIff | api/chalicelib/core/projects.py:290-292 | the empty-name error is reported iff some condition name is all white space |
| Projects.ValidateConditionsDuplicatesIff | api/chalicelib/core/projects.py:294-298 | the duplicate error is reported iff two conditions share a name |
| Projects.ValidateConditionsListsDuplicates | api/chalicelib/core/projects.py:294-298 | the duplicate error lists exactly the repeated names, each once, in order of first occurrence |
| Projects.ValidateConditionsShape | api/chalicelib/core/projects.py:287-300 | at most two errors; with two, the empty-name error comes first; none for distinct names that are not blank |
| Projects.ValidateConditions | api/chalicelib/core/projects.py:286-300 | the errors of `validate_conditions`; stated by the four `ValidateConditions` lemmas |
| Projects.SelectPartitions | api/chalicelib/core/projects.py:402-403 | the conditions to update and those to create together are the incoming conditions, as a multiset |
| Projects.SelectKeeps | api/chalicelib/core/projects.py:402-403 | each comprehension keeps exactly the conditions on its side of the id test, in input order |
| Projects.Select | api/chalicelib/core/projects.py:402-403 | one list comprehension of the sync; stated by `SelectPartitions` and `SelectKeeps` |
| Projects.PlanSync | api/chalicelib/core/projects.py:399-404 | the updates, creations and deletions of the sync; stated by `PlanSyncPartitionsIncoming` and `PlanSyncDeletesUnmatched` |
| Projects.PlanSyncPartitionsIncoming | api/chalicelib/core/projects.py:399-403 | the updates hold the incoming conditions whose id is stored, the creations the rest, both in input order, together all of them |
| Projects.PlanSyncDeletesUnmatched | api/chalicelib/core/projects.py:404 | the ids to delete are stored ids, disjoint from the incoming ids, and include every stored condition no incoming one matches |
| Projects.UpdateProjectConditionsWrites | api/chalicelib/core/projects.py:395-414 | `None` issues no write; otherwise the delete, create and update of the plan are each written exactly when they have work, at most one of each, in that order, carrying the plan's sets |
| Projects.UpdateProjectConditions | api/chalicelib/core/projects.py:395-414 | the writes of the sync as evidently intended, in order; stated by `UpdateProjectConditionsWrites` |
| Projects.UpdateProjectConditionsAsWritten | api/chalicelib/core/projects.py:399 | the sync as written, which raises whenever conditions are given; stated by `ConditionsSyncRaisesAsWritten` |
| Projects.ConditionsSyncRaisesAsWritten | api/chalicelib/core/projects.py:395-410 | one new condition and nothing stored: the code as written raises, while the intended sync creates it |
| Projects.CaptureStatusRoundTrip | api/chalicelib/core/projects.py:240-243 | capture-all stores rate 100, which reads back as capture-all; otherwise the requested rate is stored and read back |
| Projects.CaptureStatusWriteBack | api/chalicelib/core/projects.py:229-243 | writing back the status that was read leaves the stored rate unchanged |
| Projects.CaptureSampleRate | api/chalicelib/core/projects.py:240-243 | the rate `update_capture_status` stores; stated by `CaptureStatusRoundTrip` |
| Projects.ReadCaptureStatus | api/chalicelib/core/projects.py:229-237 | the rate and capture-all flag `get_capture_status` reads; stated by `CaptureStatusRoundTrip` and `CaptureStatusWriteBack` |
| Projects.UpdateSetList | api/chalicelib/core/projects.py:27-36 | no keys gives `None` and no query; otherwise the SET list is one `column = %(key)s` per key, in key order, joined by ` ,` |
| Projects.JoinHoldsEveryPart | api/chalicelib/core/projects.py:36 | every part occurs in the joined text |
| IntegrationHandlers.ParseUint | backend/pkg/integrations/handlers.go:51 | a parsed value fits in 64 bits and is the value of a non-empty run of decimal digits that is the whole input |
| IntegrationHandlers.FormatUint | backend/pkg/integrations/handlers.go:51 | the decimal digits of a number, without leading zeros, which `ParseUint` reads back (`ParseFormatUint`, `ParseUintRoundTrip`) |
| IntegrationHandlers.ParseFormatUint | backend/pkg/integrations/handlers.go:51 | every 64-bit number, written in decimal, parses back to itself |
| IntegrationHandlers.ParseUintRoundTrip | backend/pkg/integrations/handlers.go:51 | a canonical decimal parses iff it fits in 64 bits, and then writes back to the same digits |
| IntegrationHandlers.ParseUintRejectsLong | backend/pkg/integrations/handlers.go:51 | more than twenty digits without a leading zero never parse |
| IntegrationHandlers.GetIntegrationsArgs | backend/pkg/integrations/handlers.go:41-56 | on success the name is the path's name, not empty, and the project id is the decimal value of the path's project, between 1 and the largest `uint64` |
| IntegrationHandlers.GetIntegrationsArgsErrors | backend/pkg/integrations/handlers.go:41-54 | an empty name gives "empty integration name", checked first; an empty project gives "project id is empty"; otherwise "invalid project id" iff the project is not all digits, is 0 or exceeds 64 bits |
| IntegrationHandlers.GetIntegrationsArgsAccepts | backend/pkg/integrations/handlers.go:51-55 | any positive 64-bit id written in decimal is accepted with the name unchanged |
| IntegrationHandlers.GetIntegrationSession | backend/pkg/integrations/handlers.go:58-69 | on success the id is between 1 and the largest `uint64` and is the decimal value of the path's session |
| IntegrationHandlers.GetIntegrationSessionErrors | backend/pkg/integrations/handlers.go:58-67 | an empty session gives "session id is empty"; otherwise "invalid session id" iff it is not all digits, is 0 or exceeds 64 bits |
| IntegrationHandlers.GetIntegrationSessionAccepts | backend/pkg/integrations/handlers.go:64-68 | any positive 64-bit id written in decimal is accepted |
| IntegrationHandlers.SessionIdExamples | backend/pkg/integrations/handlers.go:58-69 | "0" and "+7" are invalid, a missing session is empty, and "007" is 7 |
| ProjectsStore.FindIndex | frontend/app/mstore/projectsStore.ts:116 | the first index whose site has the id, or -1 exactly when no site has it |
| ProjectsStore.Find | frontend/app/mstore/projectsStore.ts:38 | the site at that first index, or null exactly when there is none |
| ProjectsStore.SelectSiteRule | frontend/app/mstore/projectsStore.ts:82-92 | a path id of a listed site wins; otherwise a stored id of a listed site is kept; otherwise the response's first project is chosen, and an empty response throws |
| ProjectsStore.SelectSite | frontend/app/mstore/projectsStore.ts:82-92 | the site `fetchList` selects, or a throw; stated by `SelectSiteRule` |
| ProjectsStore.UpsertReplacesOrAppends | frontend/app/mstore/projectsStore.ts:116-121 | the length stays iff a site has the id, else grows by one; the new site is the first with its id; every other position keeps its site |
| ProjectsStore.Upsert | frontend/app/mstore/projectsStore.ts:116-121 | the list after `save`; stated by `UpsertReplacesOrAppends` |
| ProjectsStore.NewProjects | frontend/app/mstore/projectsStore.ts:81 | one new, distinct site per project of the response, in order, with its id and recording flag |
| ProjectsStore.ProjectsStore.constructor | frontend/app/mstore/projectsStore.ts:14-18 | the selected id is the stored one, if any; the list is empty and nothing is active |
| ProjectsStore.ProjectsStore.SetSiteId | frontend/app/mstore/projectsStore.ts:35-39 | selects and stores the id, makes the first listed site with it active (or null), and changes nothing else |
| ProjectsStore.ProjectsStore.UpdateNoRecordingsFlag | frontend/app/mstore/projectsStore.ts:94-99 | afterwards the flag is `'true'` iff no listed site is recorded, and absent otherwise |
| ProjectsStore.ProjectsStore.FetchList | frontend/app/mstore/projectsStore.ts:76-109 | the list is rebuilt from the response; the flag follows it; the site `SelectSite` chooses is selected and stored when not empty; on an empty response that needs a fallback it throws, with only the list replaced; loading is over either way |
| ProjectsStore.ProjectsStore.Save | frontend/app/mstore/projectsStore.ts:111-128 | the new site is upserted into the list and becomes selected, stored and active |
| ProjectsStore.ProjectsStore.UpdateProjectRecordingStatus | frontend/app/mstore/projectsStore.ts:130-141 | only the first site with the id takes the status; the storage is then the old storage with the no-recordings flag set (`'true'`) when no listed site is recorded and removed otherwise, everything else kept; without such a site nothing changes |

## Left out

- The WHATWG URL parser behind `new URL(rel, base).toString()` is a parameter of `ResolveURL` and `ResolveCSS`, `None` where it throws. Host parsing, percent-encoding and dot-segment removal are not modelled.
- A throw inside either replace aborts the whole of `rewriteCSSLinks` and `resolveCSS`, as the code does. One bad reference is not skipped.
- JavaScript strings are UTF-16 code units. Here a string is a sequence of characters, so lengths and indices differ from the code's for text outside the Basic Multilingual Plane.
- The regular expressions are not compiled from their source text. Each is a hand-written scanner following its greedy or lazy choices.
- `Projects.ConditionError`: the duplicate error carries the list of names rather than the rendered text. The Python `repr` of the list is not produced.
- The SQL statements, the database and the network in `projects.py` are not modelled. `UpdateProjectConditions` takes the stored conditions as a parameter and returns the writes it would issue.
- Only the condition id and the name of a condition are kept. The capture rate and the filters play no part in the modelled logic.
- `helper.key_to_snake_case` is not part of this model. It is a function parameter of `UpdateSetList`.
- Callers in `projects.py` call the coroutines `validate_conditions` and `__exists_by_name` without awaiting them. A coroutine object is always truthy, so `create` and `edit` always raise "name already exists.", and `update_conditions` always raises HTTP 400 (with the coroutine as its detail) before it reaches `update_project_conditions`. The function bodies are modelled, not those call sites.
- `Projects.UpdateSetList`: only the SET list is built. The rest of the UPDATE statement and the row it returns are not modelled.
- HTTP handling in `handlers.go` is not modelled: body reading, JSON decoding, the integration service and the response writers. `mux.Vars` is a map in which a missing variable reads as `""`.
- Go strings are bytes. Here they are characters, which changes nothing for the ASCII digits that `ParseUint` accepts.
- The MobX, promise and console plumbing of `projectsStore.ts` is not modelled, nor is `projectsService`. Each action's body runs with the service's response passed in, and an error from the service itself is not modelled.
- `types/project` is not part of this model. A `Project` is taken to copy `projectId` as its id and to keep the recording flag, and ids are compared as strings.
- The storage key constants are not part of this model. They are constructor parameters of the store and are required to differ.
- The GDPR and instance-editing members of the store are not modelled: `initProject`, `editGDPR`, `editInstance`, `fetchGDPR` and `saveGDPR`.
- `ProjectsStore.ProjectsStore.Save` does not update the no-recordings flag, as the code does not. The flag can therefore disagree with the list after a save.

## Findings

| source | as written | input that shows it | evidently intended | confidence | as-written member | corrected member |
|---|---|---|---|---|---|---|
| frontend/app/player/web/messages/rewriter/urlResolve.ts:15-22 | the span starts at `m[0].indexOf(m[k])`, the first place the group's text occurs anywhere in the match, `url(` and `@import` included | `url(u)`: the span is `[0, 1]` (the `u` of `url`) instead of `[4, 5]` | the span of the captured group itself, which ends one character before the match ends | high, not executed | UrlResolve.SpanOfMisplacesArgument | UrlResolve.ArgumentGroupSpan |
| api/chalicelib/core/projects.py:399 | `await get_conditions(project_id)["conditions"]` subscripts the coroutine before awaiting it, which raises `TypeError` | any call with conditions, e.g. one new condition and nothing stored | `(await get_conditions(project_id))["conditions"]`, so that the sync runs | high, not executed | Projects.ConditionsSyncRaisesAsWritten | Projects.UpdateProjectConditionsWrites |
