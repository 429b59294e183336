# Static AMD dependency analysis and bundling (django-compressor-requirejs)

This project models, in Dafny, the core of a Django compressor filter for RequireJS:

- **Dependency extractor** (`requirejs/finder.py`). Regular expressions find `require([...])` and `define([...])` calls in JavaScript and template text. Each captured array has its `'` quotes swapped for `"` and is decoded as JSON.
- **Module locator** (`find_module`). Maps an identifier to a static file key, retrying once with an app alias inserted as the second path segment.
- **Transitive resolver** (`resolve_dependencies`). Walks the located identifiers from a start list, threading a `known` set.
- **Bundle logic** (`requirejs/filter.py`):
  - a module's `define(` calls are rewritten to carry its identifier;
  - a bundle's text is joined;
  - the found modules are split into configured bundles and a main bundle;
  - the default RequireJS configuration and the finder's starting identifiers are built.
- **Legacy single-file filter** (`requirejs.py`). Greedy, unguarded scanners, a fixed `js` alias, a template scan from position 8, and an `input` that returns a `console.log` line.

The regular expressions are written as deterministic scanners over `seq<char>` (module `Patterns`). Python's `findall`/`sub` order is `FindAll`: leftmost matches that never overlap.

The Django collaborators become parameters:
- static-file lookup is a map from lookup key to file content;
- the app registry is a set of installed labels;
- template files are a list of their contents;
- the finder's `get_module_path` and the file read are a map from location to content;
- publishing a bundle through the compressor is a function from (text, file name) to URL.

Every JSON error raises in the source and nothing catches it. In the model it is `None`, or a `Failure`, for the whole call.

Modules, one per file:
- `Wrappers`
- `Text`
- `Patterns`
- `JsonArray`
- `Extractor`
- `Locator`
- `Resolver`
- `LiveFilter`
- `Discovery`
- `Rewrite`
- `Bundles`
- `Partition`
- `Config`
- `Legacy`
- `Examples`

### Behaviour of the code worth noting

- **Non-literal entries fail the extraction.** A capture that is not a JSON array of strings after the quote swap makes `json.loads` raise, and nothing catches it. A bare identifier or a `//` comment inside an array therefore fails the whole extraction (`JsonArray.DecodeRejectsFirst`, `JsonArray.DecodeRejectsAfterComma`, `Examples.CommentedEntry`). So does a legacy capture that swallows code after the array on its line (`JsonArray.DecodeRejectsTrailing`, `Examples.SwallowedIndex`).
- **The array shorthand for a shim fails the filter.** RequireJS accepts `shim: {'name': ['dep']}`. The filter's constructor calls `get('deps', [])` on every shim value, and a list has no `get`, so every call of the filter raises (`Config.StartingDependencies`, `Config.ArrayShimFails`). `get_bundles` only reads the shim names and is unaffected (`Partition.ConfiguredShimsNeverBundled`).
- **No canonicalisation.** `find_module` only appends `.js` and retries with the app alias. It does no plugin-suffix or `paths` canonicalisation.
- **Known only once located.** `resolve_dependencies` adds an identifier to `known` only after its file is found (`requirejs/finder.py:127-129`).
- **Re-rewriting.** Rewriting already rewritten text inserts the identifier again (`Rewrite.RewriteTwice`).
- **The main bundle fails like the others.** A member without a `define` call fails the main bundle just as it fails a configured one (`requirejs/filter.py:105-106`, `Bundles.BundleModule`).

## Model

| member | source | states |
|---|---|---|
| Patterns.GuardedHitShape | requirejs/finder.py:11-12 | A package match starts at the text start or at a `;`, whitespace or `>` character followed by the keyword, and its capture is `[`…`]` with no `]` inside |
| Patterns.GuardedCallFound | requirejs/finder.py:11-12 | `kw ws ( ws [ … ]` after a boundary character or at the text start is matched, whatever whitespace (newlines included) sits around `(`, and the capture ends at the first `]` |
| Patterns.GuardedCallNeedsArray | requirejs/finder.py:11 | When the first argument after `(` and whitespace is not `[`, as in `require(a['dep1'], …)`, nothing matches at that call, whether the keyword starts the text or follows a boundary character |
| Patterns.FindAllExhaustive | requirejs/finder.py:98 | `findall` misses no match: every position where the pattern matches lies inside a reported match |
| Patterns.FindAllEmptyIff | requirejs/finder.py:98 | `findall` reports nothing exactly when the pattern matches at no position |
| Patterns.FindAllHits | requirejs/finder.py:98 | Reported matches start at or after the scan start and are matches of the pattern at their start |
| Patterns.FindAllInOrder | requirejs/finder.py:98 | Reported matches do not overlap and come in text order |
| Extractor.GuardedCapturesShape | requirejs/finder.py:11-12 | Every package capture is a bracketed array ending at its first `]`, and every match sits at the start or after a boundary character |
| JsonArray.SwapQuotes | requirejs/finder.py:73 | Every `'` becomes `"`, every other character is kept, and the length is unchanged |
| JsonArray.DecodeRender | requirejs/finder.py:66-73 | An array literal decodes to its entries in order, whichever quote opens and whichever closes each entry (matched or not), and whatever JSON whitespace sits separately in each gap between tokens |
| JsonArray.DecodeRejectsFirst | requirejs/finder.py:71-73 | An array whose first entry is not a quoted string (bare identifier, `//` comment) does not decode |
| JsonArray.DecodeRejectsAfterComma | requirejs/finder.py:71-73 | Entries followed by a comma, with any whitespace in each gap, and then something that is not a quoted string (trailing comma, comment, identifier) do not decode |
| JsonArray.DecodeRejectsTrailing | requirejs/finder.py:71-73 | A complete array literal followed by anything that does not start with whitespace does not decode (`json.loads` rejects extra data) |
| JsonArray.DecodeRendering | requirejs/finder.py:66-73 | An array literal with JSON whitespace before and after it decodes to its entries |
| JsonArray.DecodedRendered | requirejs/finder.py:66-73 | Whatever decodes is an array literal of its result: each quote is `'` or `"`, each gap and the text around the array are JSON whitespace, and the entries hold neither quote |
| JsonArray.DecodeIffRendering | requirejs/finder.py:66-73 | A capture decodes to a list exactly when it is an array literal of that list (any quotes, any whitespace in each gap and around the array); nothing else decodes, so a missing comma or trailing text fails |
| JsonArray.Decode | requirejs/finder.py:66-73 | Every decoded entry is a plain JSON string (no quote, backslash or control character). Which texts decode is stated by `JsonArray.DecodeIffRendering` |
| Examples.MixedQuotes | requirejs/finder.py:67-73 | `['dep1',"dep2"]` decodes to dep1, dep2 |
| Examples.MisalignedQuotes | requirejs/finder.py:67-73 | `["dep1','dep2"]` also decodes to dep1, dep2 |
| Examples.SpacedEntries | requirejs/finder.py:67-73 | `['a', 'b']`, with a space after the comma only, decodes to a, b |
| Examples.TrailingComma | requirejs/finder.py:71-73 | `['dep1',]` does not decode |
| Examples.CommentedEntry | requirejs/finder.py:71-73 | The comments test's array, `'dep1',` then a newline, indentation and `//'dep2'`, does not decode |
| Extractor.DecodeAll | requirejs/finder.py:98-100 | The decoded captures succeed exactly when every capture decodes, and the first capture's entries come first |
| Extractor.DecodeAllAppend | requirejs/finder.py:98-100 | Decoding two capture lists in sequence is concatenating their decodings, and fails if either fails |
| Extractor.ModuleDependenciesSplit | requirejs/finder.py:91-108 | A module's dependencies are all require-array entries in text order followed by all define-array entries; the template scan is the require half alone, a prefix of it |
| Extractor.NoCallsNoDependencies | requirejs/finder.py:91-100 | Text where no call matches has no dependencies and no error |
| Extractor.GluedKeywordsIgnored | requirejs/finder.py:11-12 | When every `require` and `define` in the text follows a character other than `;`, whitespace or `>`, nothing is extracted and nothing fails, as for `some_other_require([...])` |
| Examples.GluedKeywordIgnored | requirejs/finder.py:11-12 | `my_require(['a'])` yields no dependencies |
| Extractor.TemplateDependencies | requirejs/finder.py:110-117 | The template scan succeeds exactly when every template's require arrays decode |
| Extractor.TemplateDependenciesMembers | requirejs/finder.py:110-117 | An identifier is in the template scan exactly when some template's require arrays hold it |
| Locator.Locate | requirejs/finder.py:46-60 | `name.js` is tried first. The retry happens only on a miss with a non-empty alias and an installed first segment, and its key is the first segment, `/`, the alias, then the rest of the key |
| Locator.AliasedKeyShape | requirejs/finder.py:55-58 | Inserting the alias as the second segment and re-joining keeps every other character of the key in place |
| Locator.AliasedKeySegments | requirejs/finder.py:55-58 | The retried key splits into the original segments with the alias second |
| Locator.Insert | requirejs/finder.py:57 | `list.insert` puts the value at the index (or at the end past it) and keeps everything else in order |
| Locator.FirstSeg | requirejs/finder.py:55-56 | `split('/')[0]` is the prefix of the key up to its first `/` |
| Locator.LocatedInUniverse | requirejs/finder.py:119-132 | Every locatable identifier comes from a file key, so `known` is bounded by a finite set and the recursion terminates |
| Resolver.Resolve | requirejs/finder.py:119-132 | `known` only grows, and every identifier added has a file whose dependencies decode; termination under a strictly larger `known` in a finite universe |
| Resolver.Shrinks | requirejs/finder.py:128-131 | Adding a newly located identifier to `known` strictly shrinks what is left of the universe |
| Resolver.ResolveCloses | requirejs/finder.py:119-132 | The result holds every located start identifier and the located dependencies of every member it expanded |
| Resolver.ResolveLeast | requirejs/finder.py:119-132 | The result lies inside every set that holds `known`, the located starts, and is closed under located dependencies |
| Resolver.ResolveFails | requirejs/finder.py:126-131 | A failed walk reached an identifier whose file holds an array that does not decode |
| Resolver.ResolveFromEmpty | requirejs/finder.py:119-132 | From an empty `known` the result is exactly the reachable located identifiers, and the walk fails exactly when a reachable file does not decode |
| Resolver.ReachableLocated | requirejs/finder.py:128-129 | Unlocated identifiers are never reachable, so they are never added |
| Resolver.ResolveSetOfStarts | requirejs/finder.py:119-132 | Order and repetition of the start list do not change the result |
| LiveFilter.SnapshotHarmless | requirejs/finder.py:126 | Filtering the list once before the loop gives the same result as re-checking `known` at every step |
| LiveFilter.ResolveNoop | requirejs/finder.py:126-131 | Resolving starts that are all known or unlocated returns `known` unchanged |
| Discovery.GetModulesSpec | requirejs/finder.py:27-32 | The modules found are exactly those reachable from the templates' require calls; the call fails exactly when a template or a reachable file does not decode |
| Discovery.GetModulesTemplateOrder | requirejs/finder.py:27-44 | The order in which the template directories are walked does not change the modules found |
| Patterns.DefineCallShape | requirejs/filter.py:21 | A rewrite match is `define`, whitespace, `(`, a capture with no `)`, and the first `)` |
| Patterns.DefineCallFound | requirejs/filter.py:21 | `define ws ( X )` with no `)` in X matches wherever it occurs |
| Rewrite.SubIsSplice | requirejs/filter.py:87-91 | `sub` with count n replaces exactly the first n matches `findall` reports, and keeps every character outside them |
| Rewrite.RewriteDefinesSpec | requirejs/filter.py:87-91 | The anonymous-module rewrite replaces at most the first 8 matches (`re.MULTILINE` in the count position) and keeps the rest of the text |
| Rewrite.Sub | requirejs/filter.py:87-91 | Once the count is used up, the remaining text is copied unchanged |
| Rewrite.RewriteOnlyCall | requirejs/filter.py:87-91 | A module whose single define call opens the text becomes `define("<id>", X)` followed by the rest unchanged |
| Rewrite.RewriteTwice | requirejs/filter.py:87-91 | Rewriting the rewrite inserts the identifier again, and the result differs: the rewrite is not idempotent |
| Examples.RewriteExample | requirejs/filter.py:87-91 | `define(['other/dep'], function(Dep) {` becomes `define("dep", ['other/dep'], function(Dep) {` |
| Bundles.BundleContent | requirejs/filter.py:76-93 | None exactly when no define call matches; a named module's text unchanged; otherwise the splice of the first 8 matches with the identifier |
| Bundles.BundleModule | requirejs/filter.py:95-107 | A module with no file fails naming its id as not on disk; a module without a define call fails naming its id as not AMD; otherwise its prepared content |
| Bundles.BundleText | requirejs/filter.py:109-114 | The bundle succeeds exactly when every member can be prepared, and is their texts joined with newlines in order; a failure carries the first failing member's error |
| Bundles.WriteBundle | requirejs/filter.py:109-114 | The URL is the publication of the joined text as `<basename>.js`, and it exists exactly when every member can be prepared |
| Partition.GetBundlesSpec | requirejs/filter.py:135-158 | Configured bundle k holds, in finder order, the non-shim modules it is the first to list; the remainder is the unclaimed non-shim modules; the main bundle is written exactly when the remainder is non-empty or `skip_main_bundle` is set; failure exactly when a module to bundle cannot be prepared |
| Partition.WriteConfiguredSpec | requirejs/filter.py:145-152 | The loop over configured bundles writes one entry per bundle, each holding that bundle's claimed modules, and leaves exactly the modules no bundle lists |
| Partition.ShimsNeverBundled | requirejs/filter.py:141-142 | No shimmed identifier appears in any bundle |
| Partition.ConfiguredShimsNeverBundled | requirejs/filter.py:141-142 | With the shims taken as the keys of the configured `shim` mapping (`Config.ShimNames`), no configured shim's name appears in any bundle |
| Partition.BundlesDisjoint | requirejs/filter.py:147-156 | No identifier appears in two bundles |
| Partition.RemoveClaimed | requirejs/filter.py:151-152 | Removing the claimed modules one by one with `list.remove` always finds them, and leaves the unclaimed modules in order |
| Partition.RemoveFirst | requirejs/filter.py:152 | `list.remove` takes out the first occurrence and keeps the rest in order |
| Partition.GroupLater | requirejs/filter.py:147-152 | After the first bundle's removals, the later bundles claim from the rest exactly what they claim in the specification |
| Partition.WithoutShimsMembers | requirejs/filter.py:141-142 | The working list holds exactly the finder's modules whose id is not a shim key |
| Partition.FirstClaim | requirejs/filter.py:147-148 | The first configured bundle listing an id lists it, and no earlier one does |
| Config.DefaultConfig | requirejs/filter.py:160-179 | `baseUrl` is the static URL; other keys are kept. With an alias, every label maps to `label/alias`, overriding the configured entry. Other `paths` entries are kept, and no other key appears. `paths` stays absent only when it was absent and nothing was added |
| Config.AliasPaths | requirejs/filter.py:169-173 | The alias paths map exactly the labels, each to `label/alias` |
| Config.DataMain | requirejs/filter.py:35 | No value for missing or empty attributes; otherwise the `data-main` value with surrounding whitespace stripped, or empty when absent |
| Config.StartingDependencies | requirejs/filter.py:43-45 | The finder gets no starting identifiers exactly when some shim uses the array shorthand (the constructor raises). Otherwise they are the shims' `deps` in order, then the stripped `data-main` exactly when it is non-blank |
| Config.ShimDeps | requirejs/filter.py:43 | `s.get('deps', [])` gives the object form's `deps`, or `[]` without one, and raises exactly for the array shorthand |
| Config.FlattenShimDeps | requirejs/filter.py:43 | The chain fails exactly when some shim raises, since the whole list is built first. Otherwise it holds exactly the entries of some shim's `deps` |
| Config.ArrayShimFails | requirejs/filter.py:36-43 | `shim: {'jquery.scroll': ['jquery']}` leaves the filter without starting identifiers, while the object form `{'deps': ['jquery']}` starts from `jquery` |
| Patterns.GreedyHitShape | requirejs.py:15-16 | A legacy match is `kw([` with no guard or whitespace; its capture runs to the last `]` of the line and holds no line break |
| Patterns.GreedyCallFound | requirejs.py:15-16 | `kw([` is matched whatever precedes it, and the capture ends at the last `]` before the line break, swallowing a trailing `…()[0]` |
| Patterns.GreedyMissesOpenLine | requirejs.py:15-16 | An array not closed on its own line is missed by the legacy scanner |
| Extractor.LegacyModuleDependenciesSplit | requirejs.py:37-42 | Legacy module dependencies are the require-array entries, then the define-array entries |
| Examples.SwallowedIndex | requirejs.py:15-16 | On the line `require(['a'], function(A) { return A.x()[0]; });` the greedy capture runs to the `]` of `[0]`, does not decode, and the legacy extraction fails |
| Extractor.LegacyTemplateDependencies | requirejs.py:44-50 | The legacy template scan succeeds exactly when every template's require arrays decode |
| Extractor.LegacyTemplateScanSkipsPrefix | requirejs.py:47 | The legacy template scan starts at position 8 (`re.MULTILINE` as `pos`): templates differing only in their first 8 characters give the same result |
| Legacy.LegacyLocate | requirejs.py:52-62 | Legacy `find_module` tries `name.js`, and on a miss with an installed first segment retries with `js` as the second segment |
| Locator.LegacyEnv | requirejs.py:59-60 | The legacy alias is the fixed, non-empty `js`, with the greedy extractor |
| Legacy.LegacyInput | requirejs.py:72-79 | A successful `input` needs a non-empty file name and returns `console.log("<filename>");` |
| Legacy.LegacyInputSpec | requirejs.py:64-79 | `input` fails for a missing or empty file name; otherwise it fails exactly when a template or a reachable module file does not decode |
| Legacy.LegacyInputIgnoresModules | requirejs.py:72-79 | The output depends only on the file name: the resolved modules are printed, not returned, so two successful calls with the same file name give the same text |
| Extractor.Dependencies | requirejs/finder.py:91-100 | `get_dependencies`: the require captures when asked, then the define captures, all decoded. Its properties are stated by `Extractor.ModuleDependenciesSplit`, `Extractor.NoCallsNoDependencies` and `Extractor.GluedKeywordsIgnored` |
| Extractor.ModuleDependencies | requirejs/finder.py:102-108 | `get_module_dependencies` on a file's content: both kinds of call. Split into its two halves by `Extractor.ModuleDependenciesSplit` |
| Extractor.TemplateScan | requirejs/finder.py:114-117 | One template's scan, `find_define=False`. The require half of `Extractor.ModuleDependenciesSplit` |
| Extractor.LegacyModuleDependencies | requirejs.py:37-42 | Legacy `get_module_dependencies`. Stated by `Extractor.LegacyModuleDependenciesSplit` |
| Extractor.LegacyTemplateScan | requirejs.py:44-50 | One template's legacy scan from position 8. Stated by `Extractor.LegacyTemplateScanSkipsPrefix` |
| Patterns.MatchAt | requirejs/finder.py:11-12 | A match found at a position starts there and ends after it, within the text |
| Patterns.FindAll | requirejs/finder.py:98 | `findall`'s scan: leftmost matches, resuming after each. Stated by `Patterns.FindAllHits`, `Patterns.FindAllInOrder` and `Patterns.FindAllExhaustive` |
| Resolver.Walk | requirejs/finder.py:126-131 | The loop over the filtered list: `known` only grows, and every identifier it adds is located and its dependencies decode |
| LiveFilter.ResolveFresh | requirejs/finder.py:126-131 | The reference walk that re-checks `known` before each identifier: `known` only grows, and every identifier it adds is located and its dependencies decode. Equal to `Resolver.Resolve` by `LiveFilter.SnapshotHarmless` |
| Discovery.GetModules | requirejs/finder.py:27-32 | `get_modules`: the template scan, then the walk from an empty `known`. Stated by `Discovery.GetModulesSpec` |
| Legacy.LegacyModules | requirejs.py:74-75 | The legacy walk from the set of template dependencies and an empty `known`. Stated by `Legacy.LegacyInputSpec` |
| Rewrite.RewriteDefines | requirejs/filter.py:87-91 | The anonymous-module rewrite, `sub` with count 8. Stated by `Rewrite.RewriteDefinesSpec` and `Rewrite.SubIsSplice` |
| Partition.WriteConfigured | requirejs/filter.py:145-152 | The loop over the configured bundles. Stated by `Partition.WriteConfiguredSpec` |
| Partition.GetBundles | requirejs/filter.py:135-158 | `get_bundles`. Stated by `Partition.GetBundlesSpec`, `Partition.ShimsNeverBundled` and `Partition.BundlesDisjoint` |

## Left out

- Django and compressor plumbing is not modelled: `finders.find`, `apps.is_installed`, `os.walk` over template directories, file `open`, charset decoding, and `write_output`/`JsCompressor` storage. It is replaced by the parameters described above.
- `requirejs/js.py`, `requirejs/utils.py` and `setup.py` are not part of this model.
- `input` of the package filter (`requirejs/filter.py:50-67`) is not modelled. It is `json.dumps` and string assembly around `get_default_config` and `get_bundles`.
- Python's `\s` is modelled as the six C whitespace characters (space, tab, LF, CR, FF, VT). Python 3 also counts the ASCII separators `\x1c`–`\x1f` and Unicode whitespace, which are not modelled.
- JsonArray.Decode accepts only arrays of string literals without escapes or control characters. For numbers, objects, `true`/`false`/`null` and escaped strings it answers `None` where `json.loads` would return a value.
- Rewrite.Sub does not model the backslash-template processing `re.sub` applies to the replacement. The module identifier is inserted literally.
- Partition.GetBundles returns the `bundles` option as an ordered list of (URL, ids) entries. The source builds a dict keyed by URL, so two bundles published at the same URL would collapse into one entry. That collision is not modelled.
- Partition.GetBundles takes the configured bundles as an ordered list. The source iterates a dict in its insertion order.
- Config.Shim models a shim value as an object or a list. Any other value, such as a string, is not modelled. The source would raise on it at `requirejs/filter.py:43` as well.
- Config.StartingDependencies takes the shims as an ordered list. The source iterates `CONFIG['shim'].values()` in dict order. `Resolver.ResolveSetOfStarts` shows that the order does not change the modules found.
- Config.DefaultConfig models `paths` values as strings. RequireJS fallback arrays are not modelled.
- Config.DefaultConfig is a pure function of its argument, so the deep copy that keeps the global configuration unmodified is implicit rather than stated.
- Resolver.Resolve models the source's mutation of one shared `known` set as returning the grown set from every call.
- The finder used by `requirejs/filter.py` calls `ModuleFinder` with template directories, finders, starting dependencies and aliases, and reads `finder.modules`, `get_module_path`, `Module.named` and `Module.location`. `requirejs/finder.py`'s `ModuleFinder` has none of these. The model takes the found modules and the location-to-content map as parameters.
- Expectations of `requirejs/tests.py` that the code does not meet are not encoded: strict quotes (the misaligned array decodes, `Examples.MisalignedQuotes`), comment skipping (a commented entry fails, `Examples.CommentedEntry`), skipping dynamic entries, and the two-argument `ModuleFinder` constructor.
- Resolver.Resolve terminates on every input. The source's `resolve_dependencies` (`requirejs/finder.py:119-132`, `requirejs.py:64-70`) recurses once per level of a dependency chain, so a very deep chain raises Python's `RecursionError`. The recursion limit is not modelled.
- Legacy.LegacyInput does not model the `print` of the resolved set. Only the walk's success or failure is kept.
