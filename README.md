# resolve-pkg-maps in Dafny

A model of the resolution engine of `resolve-pkg-maps`, with proofs. This library reimplements the `"exports"` and `"imports"` lookup of the Node.js ESM resolver. Given a package manifest field, a request and a list of active conditions, it returns the ordered list of target paths the request resolves to, or one of five errors.

The model has four parts, following the library's own files:

- **`PathMatcher`** (`src/utils/find-matching-map-entry.ts`):
  - the specificity comparator `HasHigherSpecificity`;
  - the matcher `FindMatchingPath`, an imperative method that keeps a running best over the map's keys, as the source does. It is proved equal to the function `MatchPath`, a left fold `Scan` of one-key steps;
  - the lemmas about `Scan`: an exact key wins; a single-`*` pattern matches exactly when the request is prefix + non-empty capture + suffix; the chosen key is maximal and the first of its rank; the result does not depend on key order.
- **`Conditions`** (`src/utils/resolve-conditions.ts`):
  - `Resolve`, `ResolveAll` and `ResolveMap`, mutually recursive functions over the value type. A null gives nothing. A literal is validated on its `/`- or `\`-separated segments and then has the capture substituted for `*`. An array concatenates its elements' results. A condition map follows its first key that is `default` or an active condition. Anything else is an invalid target.
- **`ExportsResolver`** (`src/exports.ts`):
  - request normalisation;
  - the key-style fold `IsConditionalObject`;
  - the sugar that turns a string, an array or an all-condition object into `{".": …}`;
  - the not-exported error;
  - the post-check that every result is `./…` or matches `^\w+:`.
- **`ImportsResolver`** (`src/imports.ts`): the same pipeline, with the request matched as given and no post-check.

`PackageTypes` holds the shared types:

- `PathConditions` is a value of the field. `ConditionMap` keeps its keys in enumeration order, and `Scalar` holds a number or boolean as its `String()` text.
- `Failure`, with the error codes and messages.
- JavaScript falsiness.
- The object lookup `Lookup`.

`Text` holds the string primitives the code relies on: `indexOf`, `split(/\/|\\/)`, ASCII case folding, `\d` and `\w`. `Join` undoes a split only one way: splitting separator-free segments joined with `/` gives them back, but joining a split turns every `\` into `/`.

Behaviours of the code that are easy to miss:

- An all-digit condition key is rejected only when the key loop reaches it, that is, when it comes before the selected key (`Conditions.NumericKeyRejected`). Keys after the selected one are never examined. JavaScript enumerates array-index keys (canonical integers below 2^32 − 1, such as `0` or `12`) before all other keys, so in the library such a key is always reached first (`{"default": "./a.js", "0": "./b.js"}` is a configuration error); only an all-digit key that is not an array index (`01`, or `4294967295` and above) can follow the selected key unexamined.
- When two matching pattern keys tie on specificity, the first is kept. But two *distinct* keys that both match a request can never tie (`PathMatcher.TiedMatchesAreEqual`). So the matcher's result really is independent of key order (`PathMatcher.ScanIgnoresKeyOrder`).
- The capture is substituted after validation and is never itself validated. A request can therefore resolve to a path with a `..` segment that a literal target could not hold (`Conditions.CaptureIsNotValidated`).

## Model

| member | source | states |
|---|---|---|
| PackageTypes.Code | src/utils/create-error.ts:1-7 | only the "required" error has no code; numeric and mixed keys carry ERR_INVALID_PACKAGE_CONFIG, an invalid target ERR_INVALID_PACKAGE_TARGET, an unexported subpath ERR_PACKAGE_PATH_NOT_EXPORTED and an undefined import ERR_PACKAGE_IMPORT_NOT_DEFINED, each code exactly for those failures (codes at src/exports.ts:26,68,81, src/imports.ts:29 and src/utils/resolve-conditions.ts:46,75,97) |
| PackageTypes.ErrorText | src/utils/create-error.ts:1-7 | an error's text ends with its message, and equals the message exactly when the error is the uncoded "required" one |
| PackageTypes.Message | src/utils/resolve-conditions.ts:44-47 | an invalid-target message names the kind and the target, and ends with " defined in the package config" exactly when the target came from a literal; the not-exported message names the main entry exactly for the request `.` (src/exports.ts:69-71) |
| PackageTypes.Falsy | src/exports.ts:41 | `!exports`: null is falsy, and an array or an object is truthy even when empty |
| PackageTypes.Keys | src/exports.ts:14 | `Object.keys`: one key per entry, in entry order |
| PackageTypes.Lookup | src/exports.ts:60 | `map[key]` is the first entry's value under that key, and absent (null) when no entry has it |
| Text.IndexOf | src/utils/find-matching-map-entry.ts:9-10 | -1 exactly when the character is absent; otherwise the position of its first occurrence |
| Text.Split | src/utils/resolve-conditions.ts:37 | splitting yields at least one segment |
| Text.SplitHasNoSeparator | src/utils/resolve-conditions.ts:11 | no segment of a split holds a `/` or `\` |
| Text.SplitJoin | src/utils/resolve-conditions.ts:37 | splitting separator-free segments joined with `/` gives them back |
| Text.SplitAtSeparator | src/utils/resolve-conditions.ts:37 | splitting distributes over a separator |
| Text.SplitStepSeparator | src/utils/resolve-conditions.ts:37 | supporting lemma for `Text.Split`: a leading separator adds an empty first segment to both sides of a split equation |
| Text.SplitStepWord | src/utils/resolve-conditions.ts:37 | supporting lemma for `Text.Split`: a leading non-separator joins the first segment on both sides of a split equation |
| Text.SplitCons | src/utils/resolve-conditions.ts:11 | supporting lemma for `Text.Split`: a separator starts a new empty segment; any other character joins the first segment |
| Text.SplitSingle | src/utils/resolve-conditions.ts:37 | a string with no separator is a single segment |
| Text.Lower | src/utils/resolve-conditions.ts:9 | case folding maps each character to its ASCII lower case and keeps the length |
| Text.IsInteger | src/utils/resolve-conditions.ts:6 | `^\d+$`: a non-empty string of ASCII digits (a definition; no contract) |
| Text.IsWordChar | src/exports.ts:33 | `\w` holds ASCII letters, digits and `_`, and never a separator, `.` or `:` |
| PathMatcher.HasHigherSpecificity | src/utils/find-matching-map-entry.ts:5-17 | the second key is more specific when its star comes later, or at the same index in a longer key; so every pattern key beats every starless key |
| PathMatcher.SpecificityIsStrictOrder | src/utils/find-matching-map-entry.ts:5-17 | the specificity comparison is irreflexive, asymmetric and transitive |
| PathMatcher.SpecificityNotBelowThenAbove | src/utils/find-matching-map-entry.ts:5-17 | incomparability composes with the comparison (a strict weak order), which is what keeps the running best correct |
| PathMatcher.PatternKeyShape | src/utils/find-matching-map-entry.ts:34 | a single-star key is prefix + `*` + suffix, with the prefix as long as the star index |
| PathMatcher.PatternCapture | src/utils/find-matching-map-entry.ts:33-47 | a capture is found only for a single-star key, is non-empty, and with the prefix and suffix makes up the whole request length |
| PathMatcher.PatternCaptureSpec | src/utils/find-matching-map-entry.ts:33-47 | a pattern captures `c` iff it has exactly one star, `c` is non-empty and the request is prefix + `c` + suffix |
| PathMatcher.MatchNeedsLongerRequest | src/utils/find-matching-map-entry.ts:36-47 | a match needs a request strictly longer than prefix and suffix together |
| PathMatcher.MultiStarNeverMatches | src/utils/find-matching-map-entry.ts:34-37 | a key with two or more stars matches no request |
| PathMatcher.TiedMatchesAreEqual | src/utils/find-matching-map-entry.ts:13-15 | two keys matching the same request that tie on specificity are the same key |
| PathMatcher.Step | src/utils/find-matching-map-entry.ts:46-55 | one iteration changes the running best only to the current key with its own capture, and only when that key beats the previous best |
| PathMatcher.Scan | src/utils/find-matching-map-entry.ts:32-58 | the running best, when there is one, is a key of the map together with the capture it has on the request |
| PathMatcher.ScanExtend | src/utils/find-matching-map-entry.ts:32-58 | supporting lemma for `PathMatcher.Scan`, used by the loop of `FindMatchingPath`: scanning one more key is one more step of the running best |
| PathMatcher.BestIsMaximal | src/utils/find-matching-map-entry.ts:46-55 | the key the scan settles on is beaten by no matching key |
| PathMatcher.BestSurvives | src/utils/find-matching-map-entry.ts:46-52 | a key that does not beat the running best leaves it in place |
| PathMatcher.BestReplaced | src/utils/find-matching-map-entry.ts:46-55 | a matching key that beats the running best becomes the new best, ahead of every earlier match |
| PathMatcher.FirstMatchIsBest | src/utils/find-matching-map-entry.ts:49-55 | the first matching key is taken when there is no best yet |
| PathMatcher.ScanSpec | src/utils/find-matching-map-entry.ts:30-58 | the scan finds nothing iff no key matches; otherwise it returns a matching key, with its capture, that is beaten by no key and strictly beats every earlier match (so the first of its rank) |
| PathMatcher.MaximalAcross | src/utils/find-matching-map-entry.ts:30-58 | two key sequences with the same keys settle on the same best key |
| PathMatcher.SomeMatchAcross | src/utils/find-matching-map-entry.ts:32-47 | sequences with the same keys either both have a matching key or neither does (both directions are stated) |
| PathMatcher.ScanIgnoresKeyOrder | src/utils/find-matching-map-entry.ts:30-58 | the scan's result depends only on the set of keys, not their order |
| PathMatcher.MatchPath | src/utils/find-matching-map-entry.ts:19-61 | an exact result is the request itself and a key of the map; a pattern result is a key of the map with the capture it has on the request |
| PathMatcher.MatchPathSpec | src/utils/find-matching-map-entry.ts:19-61 | exact iff the request has no `*` and is a key (then the key is the request, whatever its value); no match iff neither an exact key nor a pattern applies; a pattern result is a key of the map, matches with a non-empty capture and is maximal |
| PathMatcher.NothingMatches | src/utils/find-matching-map-entry.ts:30-60 | with no exact key and no matching pattern both the key and the capture are absent |
| PathMatcher.MatchPathIgnoresEntryOrder | src/utils/find-matching-map-entry.ts:19-61 | maps with the same keys give the same match |
| PathMatcher.MatchedValue | src/exports.ts:60 | `map[pathMatch]`: no match reads as absent (null), and any other value is the one stored under the matched key |
| PathMatcher.MostSpecificPatternSelected | src/utils/find-matching-map-entry.ts:30-60 | with no exact key, a matching pattern more specific than every other matching key is selected, and its own value is the one used, wherever it stands |
| PathMatcher.FindMatchingPath | src/utils/find-matching-map-entry.ts:19-61 | the loop with its running best returns exactly `MatchPath`, and so everything `MatchPathSpec` states |
| Conditions.DisallowedSegment | src/utils/resolve-conditions.ts:9 | `^(\.{1,2}\|node_modules)$` with `i`: `.`, `..`, or twelve characters that fold letter by letter to `node_modules` |
| Conditions.InvalidLiteral | src/utils/resolve-conditions.ts:37-43 | the validation test: first segment `..`, or a later disallowed segment (a definition; its meaning on segments is `InvalidLiteralBySegments`) |
| Conditions.InvalidLiteralBySegments | src/utils/resolve-conditions.ts:37-49 | a target is refused iff its first segment is `..` or a later one is `.`, `..` or `node_modules` (any case) |
| Conditions.LeadingParentRejected | src/utils/resolve-conditions.ts:39-40 | `..` and every `../…` target fail validation, and so are rejected by `InvalidTargetRejected` |
| Conditions.InnerSegmentRejected | src/utils/resolve-conditions.ts:41-43 | a disallowed segment after the first one makes the target fail validation wherever it sits |
| Conditions.ReplaceStars | src/utils/resolve-conditions.ts:53 | every `*` replaced by the capture, taken literally (a definition; its properties are the lemmas below) |
| Conditions.ReplaceStarsAppend | src/utils/resolve-conditions.ts:53 | substitution distributes over concatenation |
| Conditions.ReplaceStarsSpec | src/utils/resolve-conditions.ts:51-55 | a target without `*` is unchanged, and no `*` survives unless the capture holds one |
| Conditions.ReplaceStarsAroundStar | src/utils/resolve-conditions.ts:53 | prefix + `*` + suffix becomes prefix + capture + suffix |
| Conditions.ReplaceStarsAsWritten | src/utils/resolve-conditions.ts:53 | `replace(/\*/g, capture)` as JavaScript evaluates it, with the capture as a template (a definition) |
| Conditions.ReplaceFrom | src/utils/resolve-conditions.ts:53 | the global replacement from a position on, each `*` expanded with the text before and after it (a definition) |
| Conditions.Expand | src/utils/resolve-conditions.ts:53 | the replacement template: `$$`, `$&`, `` $` `` and `$'` expand, anything else is copied (a definition) |
| Conditions.ExpandWithoutDollar | src/utils/resolve-conditions.ts:53 | a replacement template without `$` expands to itself |
| Conditions.AsWrittenAgreesWithoutDollar | src/utils/resolve-conditions.ts:53 | for a capture without `$`, the template replacement equals literal substitution |
| Conditions.ReplaceFromCopies | src/utils/resolve-conditions.ts:53 | the template replacement copies star-free stretches unchanged |
| Conditions.AsWrittenAroundStar | src/utils/resolve-conditions.ts:53 | on prefix + `*` + suffix the template replacement inserts the expanded capture |
| Conditions.DollarAmpersand | src/utils/resolve-conditions.ts:53 | the template `$&` expands to the matched `*` |
| Conditions.DollarCaptureIsExpanded | src/utils/resolve-conditions.ts:53 | a capture `$&` re-inserts the `*` under the template replacement, but is kept literally by substitution |
| Conditions.Substitute | src/utils/resolve-conditions.ts:51-55 | a missing or empty capture (falsy) and a star-free target leave the target unchanged; a non-empty star-free capture leaves no `*` behind |
| Conditions.Selected | src/utils/resolve-conditions.ts:80-83 | a key is taken when it is `default` or an active condition (a definition; no contract) |
| Conditions.Resolve | src/utils/resolve-conditions.ts:18-100 | resolution fails only with a numeric-key or invalid-target error of the given kind; a literal fails exactly when it fails validation, and then with the invalid-target error naming it as defined in the package config; without a capture every resolved path is a valid literal |
| Conditions.ResolveAll | src/utils/resolve-conditions.ts:58-69 | same guarantees for an array of fallbacks |
| Conditions.ResolveMap | src/utils/resolve-conditions.ts:71-94 | same guarantees for the key loop of a condition map |
| Conditions.NullResolvesEmpty | src/utils/resolve-conditions.ts:32-34 | null resolves to the empty list |
| Conditions.InvalidTargetRejected | src/utils/resolve-conditions.ts:36-47 | a literal that fails validation is an invalid target with the "defined in the package config" message and code ERR_INVALID_PACKAGE_TARGET |
| Conditions.ScalarRejected | src/utils/resolve-conditions.ts:96-99 | a number or boolean is an invalid target, with the short message |
| Conditions.ResolveAllCons | src/utils/resolve-conditions.ts:58-69 | an array's result is its first element's result followed by the rest's, the first error winning |
| Conditions.ChainAssociative | src/utils/resolve-conditions.ts:58-69 | supporting lemma for `Conditions.ResolveAll`: sequencing results is associative, so a flattened array may be grouped either way |
| Conditions.FallbacksConcatenate | src/utils/resolve-conditions.ts:58-69 | an array resolves to the in-order concatenation of its parts, the first error winning |
| Conditions.SingleFallback | src/utils/resolve-conditions.ts:58-69 | a one-element array resolves like its element |
| Conditions.FirstSelectedBranch | src/utils/resolve-conditions.ts:72-91 | a map resolves exactly as its first `default`/active key's value when no numeric key precedes it; later keys are never examined |
| Conditions.NumericKeyRejected | src/utils/resolve-conditions.ts:73-78 | an all-digit key reached before any selected key is a config error |
| Conditions.NoSelectedBranch | src/utils/resolve-conditions.ts:72-93 | a map with no selected and no numeric key resolves to nothing |
| Conditions.ValidationPrecedesSubstitution | src/utils/resolve-conditions.ts:37-55 | a valid literal with a non-empty capture resolves to the one substituted path |
| Conditions.RelativeTargetIsValid | src/utils/resolve-conditions.ts:37-49 | `./` followed by one segment that is not `.`, `..` or `node_modules` passes validation |
| Conditions.RelativeStarTarget | src/utils/resolve-conditions.ts:36-55 | the target `./*` resolves to `./` followed by any non-empty capture |
| Conditions.CaptureIsNotValidated | src/utils/resolve-conditions.ts:36-55 | `./*` with any capture `../…` resolves to `./../…`, a path that would itself be refused as a literal |
| Conditions.LiteralStarKept | src/utils/resolve-conditions.ts:51-55 | without a capture a valid target is returned unchanged, `*` included |
| ExportsResolver.NormalizeRequest | src/exports.ts:45 | the result starts with `.`; it is `.` iff the request is empty; otherwise it is `./` followed by the request |
| ExportsResolver.IsConditionKey | src/exports.ts:16 | a key is in condition style iff it does not start with `.` |
| ExportsResolver.KeyStyleFold | src/exports.ts:12-31 | the fold succeeds iff every key has the style of the first, and then returns that style |
| ExportsResolver.IsConditionalObject | src/exports.ts:12-31 | a mixed-key error iff some key's style differs from the first key's; no style iff there are no keys; otherwise the common style |
| ExportsResolver.HasProtocolPattern | src/exports.ts:33 | a string matching `^\w+:` holds a colon, starts with a word character and so never with `./` |
| ExportsResolver.IsExportableTarget | src/exports.ts:76-78 | an exportable path has at least two characters, and one starting with `/` or `\` never is |
| ExportsResolver.FirstNotExportable | src/exports.ts:75-85 | nothing iff every path is `./…` or protocol-qualified; otherwise the first path that is neither |
| ExportsResolver.ExportsMap | src/exports.ts:47-54 | desugaring fails, with the mixed-keys error, exactly on an object that mixes key styles |
| ExportsResolver.ResolveExports | src/exports.ts:36-88 | "required" iff the field is falsy; on success a non-empty list of `./…` or `scheme:` paths; a not-exported error carries the normalised request; invalid targets are "exports" targets; its partners `ResolutionErrorPropagates`, `EmptyResolutionNotExported`, `ResolutionIsChecked` and `ExportsResultIsResolution` give the result for every outcome of resolving the matched value |
| ExportsResolver.ExportsResultIsResolution | src/exports.ts:56-87 | on success the result is the resolution of the matched value, in order |
| ExportsResolver.ResolutionIsChecked | src/exports.ts:56-87 | a non-empty resolution is returned as it is when every path is `./…` or `scheme:`, and otherwise fails with the invalid "exports" target error naming the first path that is neither |
| ExportsResolver.ResolutionErrorPropagates | src/exports.ts:58-64 | an error raised while resolving the matched value is the error `resolveExports` raises, unchanged |
| ExportsResolver.EmptyResolutionNotExported | src/exports.ts:66-73 | an empty resolution gives the not-exported error for the normalised request |
| ExportsResolver.NotExportedMessage | src/exports.ts:69-71 | the message names the main entry exactly when the request was empty |
| ExportsResolver.MixedKeysRejected | src/exports.ts:12-31 | an object is rejected as mixed iff some key's style differs from the first key's |
| ExportsResolver.ExportsSugar | src/exports.ts:48-54 | a string, an array or a non-empty all-condition object resolves as `{".": exports}` |
| ExportsResolver.RootOnlyMap | src/exports.ts:45-73 | with only a `.` key, every non-empty request, `.` (normalised to `./.`) included, is not exported |
| ExportsResolver.MoreSpecificNullBlocks | src/exports.ts:56-73 | a null value on the most specific matching pattern makes the subpath not exported |
| ExportsResolver.ExactTargetChecked | src/exports.ts:56-87 | a request naming a key exactly, with a valid literal value, resolves to that literal iff it is `./…` or `scheme:`, and is otherwise an invalid "exports" target |
| ExportsResolver.BareTargetRejected | src/exports.ts:75-85 | any bare single-segment target without `:` (such as `entry`) is an invalid "exports" target, even under an exact key |
| ExportsResolver.InvalidLiteralRejected | src/exports.ts:56-64 | a target failing validation under the exact key of the request is an invalid "exports" target |
| ExportsResolver.DotSegmentTargetRejected | src/utils/resolve-conditions.ts:37-47 | a `.` segment inside a target, as in `./lib/./entry.js` for the request `entry`, makes `resolveExports` fail with the invalid "exports" target error |
| ExportsResolver.ScalarMainRejected | src/utils/resolve-conditions.ts:96-99 | a number or boolean under `.` (`{".": 1}`, `{".": true}`) makes the request for the main entry fail with the invalid "exports" target error naming its text, without the package-config suffix |
| ExportsResolver.NumericConditionKeyRejected | src/utils/resolve-conditions.ts:73-78 | an object with one all-digit key (`{"0": "./index.js"}`) is wrapped as a condition object, and the request for the main entry fails with the numeric-key configuration error |
| ImportsResolver.ResolveImports | src/imports.ts:8-35 | "required" iff the field is absent; on success a non-empty list; otherwise the request is not defined, or resolution failed with the numeric-key error or an invalid "imports" target |
| ImportsResolver.ImportsResultIsResolution | src/imports.ts:17-34 | the result is the resolution of the value matched by the request as given, with an empty one reported as not defined |
| ImportsResolver.UnmatchedImportNotDefined | src/imports.ts:17-32 | a request that no key matches is not defined |
| ImportsResolver.BareSpecifierAllowed | src/imports.ts:17-34 | an exact key whose value is a valid literal resolves to that literal unchanged, bare names and the empty string included |
| ImportsResolver.SingleBareEntry | src/imports.ts:17-34 | a one-key map from a star-free request to a bare single-segment name other than `..` resolves to that name |
| ImportsResolver.DependencyTarget | src/imports.ts:17-34 | `#entry` mapped to `dependency` resolves to `dependency` |
| ImportsResolver.MoreSpecificNullBlocks | src/imports.ts:17-32 | a null value on the most specific matching pattern blocks the request, whatever less specific patterns say |
| ImportsResolver.MatchedValueAsWritten | src/imports.ts:21 | `imports[pathMatch as string]`: with no match the value stored under the key `undefined` is read, and null only when there is no such key |
| ImportsResolver.StarlessKeyMisses | src/imports.ts:17-32 | a map whose one key has no star matches no other request, which is then not defined |
| ImportsResolver.UndefinedKeyCatchesMisses | src/imports.ts:21 | with a key named `undefined` holding a valid literal, every other request matches nothing; the lookup as written resolves it to that literal, where the model reports it as not defined |

## Left out

- `Object.prototype.hasOwnProperty` quirks are not modelled: inherited property names and a map's own `hasOwnProperty` key. A map is just its sequence of entries.
- JavaScript enumerates array-index keys (canonical integers below 2^32 − 1) first, then the other keys in insertion order. The model takes key order as given, so its results match the library on maps listed in that enumeration order.
- The `request` parameter of `resolveConditions` is unused by the code and is dropped.
- Numbers and booleans are represented by their `String()` text. Floating-point formatting is not modelled.
- `\w` is ASCII-only, as in a regular expression without the `u` flag. `Text.Lower` folds only ASCII letters. Without `u` the `i` flag also folds non-ASCII letters onto each other (é and É), but never a non-ASCII character onto an ASCII one, so the test against the all-ASCII `node_modules` is exact with ASCII folding.
- `ImportsResolver.ResolveImports` takes the field as absent or an object. Truthy non-object values of "imports" are not modelled.
- `src/utils/errors.js` is not part of this model. The four code strings are the names of the constants imported from it at src/exports.ts:6-8, src/imports.ts:4 and src/utils/resolve-conditions.ts:4.
- Error objects are modelled as `Failure` values with a code and a message; their `code` property and stack are not modelled.
- The test helpers that spawn Node processes and build fixture directories, and the comparison against another resolver library, are I/O and are not modelled.
- `Conditions.ReplaceStars` is literal substitution; the template behaviour of JavaScript's `replace` is kept only in `Conditions.ReplaceStarsAsWritten` (first finding below).
- `PathMatcher.MatchedValue` reads no match as an absent value; the lookup of the key `undefined` is kept only in `ImportsResolver.MatchedValueAsWritten` (second finding below).

## Findings

| source | as written | input that shows it | evidently intended | confidence | as-written member | corrected member |
|---|---|---|---|---|---|---|
| src/utils/resolve-conditions.ts:53 | the capture is passed to `replace` as a replacement template, so `$&`, `$$`, `` $` `` and `$'` in it expand | exports `{"./*": "./dist/*.js"}`, request `$&`: resolves to `./dist/*.js` | the capture inserted literally: `./dist/$&.js` | not executed; high | Conditions.DollarCaptureIsExpanded | Conditions.ReplaceStarsAroundStar |
| src/imports.ts:21 | with no match, `imports[pathMatch]` reads the key `"undefined"` | imports `{"undefined": "./u.js"}`, request `#a`: resolves to `["./u.js"]` | no match resolves to nothing, so the import is not defined (the comment at src/utils/resolve-conditions.ts:26-30 expects undefined there) | not executed; high | ImportsResolver.UndefinedKeyCatchesMisses | ImportsResolver.UnmatchedImportNotDefined |

The same lookup in `src/exports.ts:60` cannot reach a key `undefined`. A map used for matching there has only `.`-prefixed keys, because an object whose keys are all condition keys is wrapped and a mixed one is rejected.
