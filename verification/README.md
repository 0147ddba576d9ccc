# App registry and flag overrides of the HCC debugger, in Dafny

This project models two parts of the platform debugger.

The **app registry** (`src/Debugger/appRegistry.ts`) maps a page to the
application and GitHub repository that serve it. It:

- enumerates the `RedHatInsights` organisation's repositories page by page, filters
  out archived and scaffolding repositories, and appends one extra repository;
- reads each repository's `insights.appname` from its manifest, and reads the module
  routes from its frontend descriptor, whose location may be given by
  `frontendCRDPath` in `fec.config.js`;
- merges everything into one insertion-ordered map, keyed `appname:<name>` and
  `path:<pathname>`, where the first writer of a key wins;
- caches that map in memory and in local storage for seven days, falling back to a
  stale copy when a rebuild fails or finds nothing;
- resolves a lookup in three steps: the exact path, then the longest path prefix
  that ends at a `/`, a `?` or the end of the pathname, then the app name.

The **flag-override bookkeeping** (`src/Debugger/Flags.tsx`) keeps a map from
an overridden flag's name to its original value. It:

- flips flags and records them in that map;
- resets all overrides;
- on mount, classifies stored overrides as still active or as pending re-application;
- applies pending overrides;
- persists the map, removing the storage key when the map is empty;
- lists the flags filtered by a case-insensitive search and an
  enabled/disabled/overridden filter, sorted by name.

Everything is pure functions over immutable data:

- Remote responses are input datatypes: `PageResponse`, `ManifestFetch`,
  `TextFetch`, `DescriptorFetch`, `BuildOutcome`.
- The clock is a `now` parameter, and a build's completion time is a `builtAt` parameter.
- Local storage is a field of the cache state, or a `Slot` for the overrides.
- A JavaScript `Map` is an association list with unique keys in insertion order
  (`OrderedMap`). A plain object used as a record of overrides is a Dafny `map`,
  since nothing depends on its key order.

Modules:

| module | file | models |
|---|---|---|
| `Text` | text.dfy | substring search, ASCII lower-casing, code-unit order |
| `OrderedMap` | ordered_map.dfy | `Map.get`, `Map.set`, `new Map(pairs)` |
| `RepoList` | repo_list.dfy | `fetchRepoList` |
| `CrdPath` | crd_path.dfy | `extractFrontendCRDPath`, `fetchFrontendYamlPath` |
| `Descriptor` | descriptor.dfy | the descriptor walk and attempt loop of `fetchModulesWithRoutes` |
| `Scan` | scan.dfy | `fetchAppName`, the attempt order, one repository's scan |
| `Registry` | registry.dfy | the merge of `buildRegistry` |
| `Lookup` | lookup.dfy | the resolution of `getAppRegistryEntry` |
| `Cache` | cache.dfy | `loadFromStorage`, `fetchAppRegistry`, `clearCache`, `refreshRegistry`, `getAppRegistryEntry` |
| `FlagOverrides` | flags.dfy | toggle, reset, restore on mount, apply pending, persistence |
| `FlagFilter` | flag_filter.dfy | `filteredAndSortedFlags` |
| `LookupExamples`, `FlagExamples` | lookup_examples.dfy, flag_examples.dfy | scenarios from the unit tests and stories |

Three facts about the code that a reader might not expect:

- The registry does not require path keys to start with `/`. Any non-empty
  pathname listed in a descriptor becomes a key.
- There is no de-duplication of concurrent builds. Two lookups that both find the
  cache expired both build.
- `fetchRepoList` catches every error itself and always returns at least the
  extra repository. A build can therefore only fail for reasons outside the
  modelled code, which `BuildOutcome.BuildThrew` stands for.

## Model

| member | source | states |
|---|---|---|
| `Text.ContainsSpec` | src/Debugger/appRegistry.ts:137 | `includes` holds exactly when the word occurs at some position |
| `Text.Lower` | src/Debugger/Flags.tsx:201-203 | lower-casing keeps the length and lower-cases each ASCII letter in place |
| `Text.LowerIdempotent` | src/Debugger/Flags.tsx:201-203 | lower-casing twice is lower-casing once |
| `Text.LessEqTotal` | src/Debugger/Flags.tsx:215 | any two names are comparable |
| `Text.LessEqTransitive` | src/Debugger/Flags.tsx:215 | the name order is transitive |
| `Text.LessEqAntisymmetric` | src/Debugger/Flags.tsx:215 | names ordered both ways are equal |
| `OrderedMap.SetGet` | src/Debugger/appRegistry.ts:348-351 | after `set`, the key reads as the new value and every other key as before |
| `OrderedMap.FromPairsGet` | src/Debugger/appRegistry.ts:391 | `new Map(pairs)` maps each key to the last value given for it |
| `OrderedMap.FromPairsHasKey` | src/Debugger/appRegistry.ts:391 | `new Map(pairs)` has exactly the keys that occur in the pairs |
| `OrderedMap.FromPairsOfMap` | src/Debugger/appRegistry.ts:421-422 | rebuilding a map from its own entries gives the same map, so a persisted registry reloads unchanged |
| `RepoList.StopIndex` | src/Debugger/appRegistry.ts:113-147 | paging reads every full page (at least 100 items) and stops at the first response that is not one: an error status, a failed request, a non-array body or a short page |
| `RepoList.KeepPage` | src/Debugger/appRegistry.ts:133-142 | the per-page loop keeps exactly the listing-order repositories the filter admits, under the organisation |
| `RepoList.FetchRepoList` | src/Debugger/appRegistry.ts:107-156 | the enumeration is the kept repositories of the pages read, in order, followed by the extra repository `osbuild/image-builder-frontend` |
| `RepoList.PageReposMembers` | src/Debugger/appRegistry.ts:133-142 | a repository comes out of a page exactly when the page lists it under that name and it is named, not archived and free of the excluded words |
| `RepoList.FlattenMembers` | src/Debugger/appRegistry.ts:107-152 | a repository comes out of the pages read exactly when one of those pages lists it and it passes the filter |
| `RepoList.FilteredRepos` | src/Debugger/appRegistry.ts:134-138 | no enumerated organisation repository is unnamed or has `starter`, `template` or `boilerplate` in its lower-cased name |
| `RepoList.RateLimitedFirstPage` | src/Debugger/appRegistry.test.ts:368-382 | a 403 on the first page yields no organisation repositories, only the extra one |
| `RepoList.StarterRepoDropped` | src/Debugger/appRegistry.test.ts:273-277 | a starter-app repository is filtered out whatever its archived flag |
| `RepoList.TemplateRepoDropped` | src/Debugger/appRegistry.test.ts:279-283 | a template repository is filtered out |
| `RepoList.AppRepoKept` | src/Debugger/appRegistry.ts:134-141 | an ordinary application repository is kept exactly when it is not archived |
| `RepoList.NoOccurrence` | src/Debugger/appRegistry.ts:137 | a word does not occur in a name that lacks one of its characters, which is what lets ordinary names pass the substring filter |
| `CrdPath.FirstQuote` | src/Debugger/appRegistry.ts:224 | the first quote character at or after a position, with none before it; none means no quote at all |
| `CrdPath.StripDotSlash` | src/Debugger/appRegistry.ts:227 | only a leading `./` is removed, and only once |
| `CrdPath.MatchAtSound` | src/Debugger/appRegistry.ts:224 | a match found at a position is a match of `frontendCRDPath[^'"]*['"]([^'"]+)['"]` there, with that capture |
| `CrdPath.MatchAtComplete` | src/Debugger/appRegistry.ts:224 | every match of the pattern at a position is the one found there |
| `CrdPath.MatchAtSpec` | src/Debugger/appRegistry.ts:224 | the matcher at a position agrees with the pattern in both directions |
| `CrdPath.ScanSpec` | src/Debugger/appRegistry.ts:224 | scanning from a position finds the leftmost match position, and finds nothing only when no position matches |
| `CrdPath.ExtractNone` | src/Debugger/appRegistry.ts:220-230 | extraction yields null exactly when the pattern matches nowhere in the content |
| `CrdPath.ExtractLeftmost` | src/Debugger/appRegistry.ts:220-230 | extraction yields the leftmost match's capture without a leading `./` |
| `CrdPath.FetchFrontendYamlPath` | src/Debugger/appRegistry.ts:235-256 | the custom descriptor path is the extraction of the first config, in branch order (master before main), that loaded and names a non-empty path; null exactly when no config does |
| `Descriptor.RoutePathnames` | src/Debugger/appRegistry.ts:288-290 | a route list with a null item throws; otherwise its pathnames are exactly the non-empty pathnames of its routes |
| `Descriptor.RoutePathnamesInOrder` | src/Debugger/appRegistry.ts:288-290 | without a null route, the pathnames are one per named route, in route order, so duplicates are kept |
| `Descriptor.WalkModules` | src/Debugger/appRegistry.ts:286-298 | every module collected has an id and a non-empty list of non-empty pathnames taken from its own routes, and a walk without null items does not throw |
| `Descriptor.WalkModulesAppend` | src/Debugger/appRegistry.ts:286-298 | walking two module lists in a row collects the first list's modules, then, unless the first threw, the second's |
| `Descriptor.WalkModulesInOrder` | src/Debugger/appRegistry.ts:286-298 | the walk throws exactly when some entry is null or has an id and a null route; a walk that does not throw pushes one module per entry with an id and a named route, in list order, and nothing else |
| `Descriptor.WalkModulesThrows` | src/Debugger/appRegistry.ts:286-298 | the module loop throws exactly when some entry is null or has an id and a null route |
| `Descriptor.WalkModulesCount` | src/Debugger/appRegistry.ts:286-298 | a module loop that does not throw pushes exactly one module per entry with an id and a named route |
| `Descriptor.EmittedAt` | src/Debugger/appRegistry.ts:286-298 | in a module loop that does not throw, each emitting entry's module sits after those of the emitting entries before it |
| `Descriptor.StopsAtThrow` | src/Debugger/appRegistry.ts:284-298 | the first throwing entry ends the walk, keeping what the entries before it pushed |
| `Descriptor.WalkObjects` | src/Debugger/appRegistry.ts:283-300 | the walk over a descriptor's objects only collects well-formed modules |
| `Descriptor.WalkObjectsIsModuleWalk` | src/Debugger/appRegistry.ts:283-300 | the object loop is the module loop over all objects' modules in document order, a null object throwing like a null module |
| `Descriptor.WalkDocument` | src/Debugger/appRegistry.ts:281-300 | a missing `objects` list walks as empty, and only well-formed modules are collected |
| `Descriptor.WalkDocumentIsModuleWalk` | src/Debugger/appRegistry.ts:281-300 | a document's walk is the module loop over its objects' modules in order, so the two lemmas above say what it finds and in which order |
| `Descriptor.FetchModulesAsWritten` | src/Debugger/appRegistry.ts:263-312 | as written, the result starts with everything accumulated so far, and holds only well-formed modules |
| `Descriptor.FetchModules` | src/Debugger/appRegistry.ts:273-312 | the modules come from the first attempt that loads and yields a module, and are empty exactly when no attempt does (corrected: a throwing attempt contributes nothing) |
| `Descriptor.AsWrittenAgreesWithoutThrows` | src/Debugger/appRegistry.ts:263-312 | when no loaded descriptor's walk throws, the shared-accumulator loop as written gives the corrected result |
| `Descriptor.PartialWalkLeaks` | src/Debugger/appRegistry.ts:263-310 | a walk that throws after collecting a module leaks it into the next attempt's result as written, and not in the corrected loop |
| `Scan.FetchAppName` | src/Debugger/appRegistry.ts:189-209 | the app name is the first non-empty `insights.appname` of a manifest that loaded, master before main, and null exactly when there is none |
| `Scan.CandidatePaths` | src/Debugger/appRegistry.ts:269-271 | a custom descriptor path replaces the two default paths |
| `Scan.AttemptOrderIndex` | src/Debugger/appRegistry.ts:273-274 | attempts go branch by branch, and each branch tries every path in order |
| `Scan.FetchModulesWithRoutes` | src/Debugger/appRegistry.ts:261-313 | a repository's modules are those of the first (branch, path) attempt, in the order the custom or default paths give, that loads and walks without throwing to at least one module; empty exactly when no attempt does; all well-formed (corrected loop, see Findings) |
| `Scan.AgreesWithSourceWithoutThrows` | src/Debugger/appRegistry.ts:261-313 | when no descriptor walk throws, the corrected result is the source loop's result |
| `Scan.ScanRepo` | src/Debugger/appRegistry.ts:333-339 | a repository's scan keeps the repository, a non-empty app name if any, and well-formed modules |
| `Scan.ScanAll` | src/Debugger/appRegistry.ts:324-340 | every enumerated repository is scanned once, in enumeration order |
| `Registry.KeysDisjoint` | src/Debugger/appRegistry.ts:346-356 | an app-name key never equals a path key |
| `Registry.KeysInjective` | src/Debugger/appRegistry.ts:346-356 | distinct app names, and distinct paths, get distinct keys |
| `Registry.Insert` | src/Debugger/appRegistry.ts:346-362 | a key not yet present is appended and counted as found; a key present keeps its entry |
| `Registry.MergePaths` | src/Debugger/appRegistry.ts:355-363 | merging a module's paths keeps keys unique, counts exactly the new keys, and writes only entries with an app id |
| `Registry.MergeModules` | src/Debugger/appRegistry.ts:354-364 | the same for all modules of a repository |
| `Registry.MergeScan` | src/Debugger/appRegistry.ts:341-365 | the same for one repository's app name and modules |
| `Registry.MergeAll` | src/Debugger/appRegistry.ts:341-366 | the same for a sequence of repositories |
| `Registry.MergeAllAppend` | src/Debugger/appRegistry.ts:331-370 | merging two runs of repositories one after the other equals merging them together |
| `Registry.BatchesAreOneMerge` | src/Debugger/appRegistry.ts:331-370 | merging in batches of 20 equals one merge in enumeration order |
| `Registry.BuildFoundCount` | src/Debugger/appRegistry.ts:320-374 | the found count equals the registry's size, keys are unique, and every entry has an app id |
| `Registry.MergePathsGet` | src/Debugger/appRegistry.ts:355-363 | after merging a module's paths, a path key it lists reads as the earlier entry if there was one, else as the module's entry |
| `Registry.MergeModulesGet` | src/Debugger/appRegistry.ts:354-364 | after merging modules, a path key reads as the earlier entry or the first module listing the path |
| `Registry.MergeScanGet` | src/Debugger/appRegistry.ts:341-365 | after one repository, its app-name key and its path keys are set only where unset |
| `Registry.MergeAllGet` | src/Debugger/appRegistry.ts:341-366 | after all repositories, each key reads as its first writer in scan order |
| `Registry.BuildFirstWriter` | src/Debugger/appRegistry.ts:320-374 | in the built registry, `appname:x` maps to the first repository naming `x`, and `path:p` maps to the first module listing `p` |
| `Lookup.ScanFrom` | src/Debugger/appRegistry.ts:466-478 | the entry scan keeps the best match so far: the longest boundary-respecting prefix, the earliest among equals |
| `Lookup.LongestPrefixMatch` | src/Debugger/appRegistry.ts:463-480 | no prefix match exactly when no path key is a boundary prefix of the pathname; otherwise the first longest one |
| `Lookup.BestUnique` | src/Debugger/appRegistry.ts:473-476 | the strict `>` tie-break makes the best match unique |
| `Lookup.LongestPrefixIs` | src/Debugger/appRegistry.ts:463-480 | the prefix match returns the best match's entry |
| `Lookup.ExactIsCandidate` | src/Debugger/appRegistry.ts:471 | a non-empty pathname is a boundary match of its own path key |
| `Lookup.NoMidSegmentMatch` | src/Debugger/appRegistry.ts:472 | a path does not match a pathname that continues it mid-segment |
| `Lookup.ResolveSpec` | src/Debugger/appRegistry.ts:456-484 | an exact path entry wins; else the best prefix match; with no pathname or no match, the app-name entry; whatever is returned is an entry of the registry |
| `Lookup.GetFound` | src/Debugger/appRegistry.ts:459 | a key lookup returns one of the registry's entries |
| `LookupExamples.SubpathAndQueryMatch` | src/Debugger/appRegistry.test.ts:442-452 | `/app/foo/bar` and `/app/foo?query=1` resolve to the `/app/foo` entry |
| `LookupExamples.NoMatchWithoutBoundary` | src/Debugger/appRegistry.test.ts:454-457 | `/app/foobar` does not resolve to the `/app/foo` entry |
| `LookupExamples.LongestPrefixWins` | src/Debugger/appRegistry.test.ts:172-177 | the more specific of two matching paths wins |
| `LookupExamples.AppnameFallback` | src/Debugger/appRegistry.test.ts:223-234 | with no path match, or no pathname, the app-name entry is returned |
| `Cache.LoadFromStorage` | src/Debugger/appRegistry.ts:43-56 | a stored record counts only when it parses and has a non-zero timestamp |
| `Cache.DedupeSpec` | src/Debugger/appRegistry.ts:393-398 | the entries returned from a record hold one entry per app id, namely the last one the record holds for it, and lose no app id |
| `Cache.FetchAppRegistry` | src/Debugger/appRegistry.ts:379-443 | the fetch re-throws exactly when memory is expired, the build threw and no record exists, and then changes nothing; otherwise memory is loaded; with memory expired and no record, a build, even an empty one, is adopted, stamped and persisted |
| `Cache.ClearCache` | src/Debugger/appRegistry.ts:75-83 | clearing empties memory, zeroes the timestamp and removes the record |
| `Cache.GetAppRegistryEntry` | src/Debugger/appRegistry.ts:448-485 | a fresh in-memory registry is resolved without loading; otherwise the state is the fetch's and a load error propagates exactly when the fetch raised; every answer is the resolution against the registry then in memory |
| `Cache.MemoryShortCircuit` | src/Debugger/appRegistry.ts:381-384 | within seven days of its timestamp, memory is returned as is whatever a build would do |
| `Cache.AdoptFreshRecord` | src/Debugger/appRegistry.ts:387-399 | a fresh durable record is adopted with its own timestamp, without building |
| `Cache.AdoptNonEmptyBuild` | src/Debugger/appRegistry.ts:402-424 | a non-empty build is adopted, stamped with its completion time and persisted |
| `Cache.EmptyBuildKeptForAWeek` | src/Debugger/appRegistry.test.ts:368-382 | with no usable record an empty build is returned as `[]`, persisted, and served for seven days without building |
| `Cache.StaleFallback` | src/Debugger/appRegistry.ts:405-438 | an empty or failed build falls back to a stale record, keeping the record's timestamp |
| `Cache.RefreshUsesBuild` | src/Debugger/appRegistry.ts:490-493 | after a refresh, the result is the new build's or its error, never an older record |
| `Cache.PersistedSnapshotReloads` | src/Debugger/appRegistry.test.ts:286-323 | the persisted snapshot reads back as the same registry, without building, when memory is lost |
| `Cache.LookupIdempotent` | src/Debugger/appRegistry.ts:448-485 | repeating a lookup with the same inputs gives the same answer |
| `FlagOverrides.FindIndex` | src/Debugger/Flags.tsx:153 | the first toggle with the name, or none exactly when no toggle has it |
| `FlagOverrides.SetEnabled` | src/Debugger/Flags.tsx:159 | setting a flag moves only that flag's value and never renames or reorders toggles |
| `FlagOverrides.NextOverrides` | src/Debugger/Flags.tsx:161-175 | the first toggle records the pre-toggle value; toggling back to the original drops the name; other names are untouched |
| `FlagOverrides.ToggleFlagOverride` | src/Debugger/Flags.tsx:150-181 | an unknown name changes nothing; a known flag is flipped |
| `FlagOverrides.ToggleKeepsInvariant` | src/Debugger/Flags.tsx:150-181 | a toggle moves no other flag and keeps every overridden flag at the negation of its original |
| `FlagOverrides.ToggleTwice` | src/Debugger/Flags.tsx:161-172 | toggling a flag twice restores both the flag values and the override map |
| `FlagOverrides.ResetAllOverrides` | src/Debugger/Flags.tsx:183-195 | the reset writes each override's original value into its flag and empties the map |
| `FlagOverrides.ResetRestoresOriginals` | src/Debugger/Flags.tsx:186-191 | after a reset, each overridden flag that exists reads as its original, and no other flag moves |
| `FlagOverrides.ToggleThenReset` | src/Debugger/Flags.tsx:150-195 | a toggle does not change what a reset restores |
| `FlagOverrides.ResetUndoesToggles` | src/Debugger/Flags.stories.tsx:194-215 | after any sequence of toggles from no overrides, a reset restores the original flags |
| `FlagOverrides.RestoreOnMount` | src/Debugger/Flags.tsx:91-121 | a stored override is pending when its flag reads as the original, and active when it reads as the negation; a missing flag is ignored; pending is null unless something is stale |
| `FlagOverrides.RestoreKeepsInvariant` | src/Debugger/Flags.tsx:109-113 | the overrides recognised as active satisfy the override invariant |
| `FlagOverrides.ApplyPendingOverrides` | src/Debugger/Flags.tsx:128-143 | applying sets each pending flag to the negation of its original, merges pending into active with pending winning, and clears pending |
| `FlagOverrides.ApplyKeepsInvariant` | src/Debugger/Flags.tsx:128-143 | applying pending overrides for existing flags keeps the override invariant |
| `FlagOverrides.RestoreAfterReset` | src/Debugger/Flags.tsx:101-120 | when every overridden flag is back at its original, all stored overrides classify as pending |
| `FlagOverrides.ReapplyAfterReset` | src/Debugger/Flags.tsx:133-138 | re-applying the overrides to reset flags gives back the flags from before |
| `FlagOverrides.HardRefreshRoundTrip` | src/Debugger/Flags.tsx:91-143 | after a hard refresh, restore then apply returns the flags and overrides to their state before the refresh |
| `FlagOverrides.SoftReloadKeepsActive` | src/Debugger/Flags.tsx:109-113 | overrides still in force are recognised as active, with nothing pending |
| `FlagOverrides.SaveStoredOverrides` | src/Debugger/Flags.tsx:55-65 | an empty map removes the key; a non-empty map is written as is |
| `FlagOverrides.LoadStoredOverrides` | src/Debugger/Flags.tsx:43-53 | a missing or unparseable value reads as no overrides |
| `FlagOverrides.PersistRoundTrip` | src/Debugger/Flags.tsx:43-65 | persisting then loading gives back the same overrides, and the key never holds an empty map |
| `FlagFilter.Keep` | src/Debugger/Flags.tsx:202-212 | filtering keeps each element satisfying the predicate as often as it occurs, and no other |
| `FlagFilter.InsertKeepsSorted` | src/Debugger/Flags.tsx:215 | inserting into a name-sorted list keeps it sorted |
| `FlagFilter.SortByName` | src/Debugger/Flags.tsx:215 | the sort returns a permutation of its input in name order |
| `FlagFilter.FilteredAndSortedFlags` | src/Debugger/Flags.tsx:197-218 | the list is sorted by name and holds each flag that passes the search and the filter exactly as often as the flags do, and no other |
| `FlagFilter.ListedExactly` | src/Debugger/Flags.tsx:197-218 | a flag is listed exactly when it is one of the flags and passes the search and the filter |
| `FlagFilter.KeepSplit` | src/Debugger/Flags.tsx:207-210 | filtering by a predicate and by its negation splits a list between the two |
| `FlagFilter.EnabledDisabledSplit` | src/Debugger/Flags.tsx:207-210 | the enabled and disabled views together hold as many flags as the unfiltered view |
| `FlagFilter.SearchIgnoresCase` | src/Debugger/Flags.tsx:200-204 | a search text and its lower-case form list the same flags |
| `FlagExamples.FilterCounts` | src/Debugger/Flags.stories.tsx:158-174 | with the default flags, the "Enabled" view lists 5 of 8 flags, "Disabled" 3 and "All" 8 |

## Left out

- HTTP requests and URL construction, JSON and YAML parsing, and response
  bodies. Each remote read is an input value: a page response, a manifest, a
  config text or a parsed descriptor tree.
- Progress reporting, logging, `setProgressCallback` and `isRegistryConfigured`.
  They do not affect any result.
- Concurrency of the batch scan (`Promise.all`). Results are merged in
  enumeration order, which is the order the source merges them in.
- Date.now: the fetch reads the clock three times (to check memory, to check
  the record, and to stamp the build). The model takes one `now` for the checks
  and one `builtAt` for both the memory stamp and the record stamp.
  `saveToStorage` reads the clock again, which can differ by a few milliseconds.
- Local-storage failures (quota, security errors) are not modelled. Writes
  always succeed.
- Listing items with a non-string name or a null item would make `fetchRepoList`
  throw mid-page and stop paging. The model's items always have a string name,
  and an empty name stands for a missing one.
- Running out of supplied page responses counts as a failed request, which
  stops paging the same way.
- `Text.Lower` lower-cases ASCII letters only, whereas `toLowerCase` covers all
  of Unicode.
- `FlagFilter.SortByName` orders by code units instead of `localeCompare`. The
  contract states sortedness and permutation but not the stability that
  `Array.prototype.sort` also gives.
- `dismissPendingOverrides` (clear pending and remove the stored key) is not
  modelled.
- React effect ordering is not modelled. The persist effect also runs on mount
  with an empty map before the restored overrides arrive. The model treats
  persisting as a separate step applied to whatever map is current.
- `FlagOverrides.RestoreOnMount` starts from an empty active map. The source
  merges restored overrides into the component's previous state, which is empty
  on first mount.
- Stored override values are booleans. The source compares a stored value with
  `===` against the flag and its negation, so some hand-edited non-boolean values
  (a `"yes"` for a disabled flag, a `0` for an enabled one) would be restored as
  active overrides there; the model cannot express them.
- `FlagOverrides.NextOverrides` and `FlagFilter.Keep` use Dafny map membership.
  The source's `name in object` also sees names inherited from
  `Object.prototype` (`constructor`, `toString`, `valueOf`, ...). A flag with
  such a name would never get an override recorded there and would always pass
  the "overridden" filter; the model treats it like any other name.
- `Scan.FetchModulesWithRoutes` uses the corrected attempt loop of the finding
  below, not the shared-array loop as written. The two agree whenever no
  descriptor walk throws (`Scan.AgreesWithSourceWithoutThrows`); on a walk that
  throws part-way the registry built here lacks the leaked `path:` keys the
  source would register.

## Findings

| source | as written | input that shows it | evidently intended | confidence | as-written member | corrected member |
|---|---|---|---|---|---|---|
| src/Debugger/appRegistry.ts:263-310 | `modules` is one array shared by every branch/path attempt. When a descriptor's walk throws part-way (for example on a null item in a YAML list), the modules it already pushed stay in the array, and the next attempt that succeeds returns them together with its own. | The first attempt's descriptor has module `a` with route `/a` followed by a null object; the second attempt's has module `b` with route `/b`. As written the result is `[a, b]`. | Only the first successful attempt's modules, `[b]`. | medium, not executed | `Descriptor.FetchModulesAsWritten` (shown by `Descriptor.PartialWalkLeaks`) | `Descriptor.FetchModules` (used by `Scan.FetchModulesWithRoutes`) |
