# Models of the QiLin build and verification scripts

The repository's `scripts/` directory schedules, checks and generates things that other builds rely on.
This project models the scripts that hold real algorithms and proves what they promise, over every
input, every run or every reachable state.

| script | modelled here | files |
|---|---|---|
| coverage-partitions.ts | longest-processing-time scheduling on an in-place heap of bucket indices | Sorting, ListScheduling, CoveragePartitions, PartitionGuarantees |
| gen-config-catalog.ts | member lookup through recursive types, re-export search, paste worklist, schema paths, composed schemas | TypeGraph, SearchOrder, ModuleExports, ExportHonesty, MemberLookup, PathPresence, LookupGuarantees, LookupTermination, LookupCuts, TerminationCases, ProgramMeaning, ReadingCases, HeritageCases, PasteClosure, NameResolution, DeclarationNames, ConfigPaste, SchemaPaths, SchemaMembers, SchemaCases, ComposeFold |
| gen-doc-graphs.ts | call sites of a helper from a per-file or a global index | ModuleLanguage, ValueRules, Places, ExpressionPlaces, CallLists, CallSites |
| benchmark-next-package-dependency.ts | the concurrent worker pool; the search for candidates | WorkerPool, BenchmarkCandidates |
| gen-session-format-catalog.ts | the chain of session-format migrations and its catalog | SessionFormats, SessionCatalog |
| client-build-environment.ts, benchmark-npm-resolution.ts | length-framed byte streams | Decimals, Utf8, ArtifactDigest, GitBatch, GitHeaders |
| gen-tsconfig-paths.ts | regeneration of a marked region, reading of alias keys, the coverage gate | MarkerRegion, AliasKeys, JsonStrings, TsconfigAliases, AliasRegion |
| archived-agent-notes.ts, verify-archived-agent-notes.ts | sealed archive manifests over whole histories | ArchiveSeal |
| check-macos-deployment-target.py | the Mach-O version gate | Numerals, TargetText, DeploymentTarget |

`Options` and `Collections` hold what several of these share.

Objects that the scripts change in place are classes and arrays (`Bucket`, the heap,
`CoveragePartitionCoordinator`, `EventRelationCollector`, `Hash`), their loops are methods with
invariants, and each such method is tied to a function or predicate about which the results are proved.
Weights are exact reals. Collation orders, the hash function and the operation of the worker pool are
parameters.

Where the code and its documentation disagree, the model follows the code:

- `assignWeightedPartitions` documents "every partition non-empty". With at least as many files as
  partitions that fails when two or more partitions would have to rely on files of negative recorded
  duration (`readFileDurations` does not refuse those), and it fails with too few files.
  `NoPartitionEmptyIff` gives the exact condition, `NegativeWeightsStarve` an input.
- `lookupPath` documents that a type that refers to itself ends in `unknown` rather than in a loop. An
  indexed access pushes a step, so `type A = A['x']` is visited under ever new keys:
  `IndexedAccessCanDiverge`. A lookup ends when the paths that it can arrive with are bounded
  (`BoundedPathsTerminate`), and only then when no visited declaration is met again (`TerminatesIff`,
  and on the declaration graph alone `TreeLikeTerminatesIff`). When one is met again no condition on paths
  can be exact, since the order of the branches decides: `E['p'] | E['q']` has an answer where
  `E['q'] | E['p']` has none (`BranchOrderDecides`).
- `lookupPath` and its callers document that a member is never wrongly reported as missing. The code
  compares a step with a member's source text, looks at property signatures only, takes the first of
  several interfaces of one name, takes `Partial`, `Array` and their like for the global types, looks
  through `keyof`, takes a type parameter for a declaration of its name, and follows exports in its own
  way. Each of these gives a wrong definite answer: `QuotedKeyIsMissed`, `MethodIsMissed`,
  `IndexSignatureIsPassedOver`, `MergedMemberIsMissed`, `OwnWrapperIsMistaken`, `KeyOfIsLookedThrough`,
  `ParameterIsMistaken`, `HiddenDeclarationMisleads`, `StarMisleads`. And a schema key with a dot is looked
  up as two members: `DottedKeyIsReported`. `RightAboutProgram` proves definite answers right where every
  comparison on the way reads names as they are meant. For paths of one name on an interface the exact
  conditions are `MissingIsRightIff` and `FoundIsRightIff` without heritage clauses, and
  `MissingIsRightAboveIff` and `FoundIsRightAboveIff` with them.
- `findExportedTypeDecl` documents a search for an exported declaration. It takes any declaration of the
  name in a file that it reaches, exported or not, goes through `export *` and export lists in the order of
  the statements, and passes over lists without a source, classes and other packages; in the language an
  explicit export comes before every `export *`. What it finds is `SearchTakesFirst`; that this is what the
  file exports is exactly `ExportedIff`, and follows from a condition on single files in
  `StraightIsExported`. `HiddenDeclarationIsFound`, `StarBeforeList`, `StarBeforePassedOn` and
  `StarBesideClass` are inputs on which it is not.
- `resolveTypeName` recurses for ever exactly when the package-local imports of one name come back to a
  file (`EndlessIff`, `CircleIsEndless`). The model calls that outcome `Endless`; the worklist ends
  exactly when no name that it processes is endless, which is when no name that is met is, unless some name
  is met with two meanings.
- The session-format catalog is accepted, and generated, when two packages declare one identifier; it
  then imports the name twice. `AlikeCodecsCollide` is an input, `AcceptedBindsOnceIff` the condition.
- `readGitFiles` decodes every object as UTF-8, so what is not valid UTF-8 is lost: `StrayByteIsLost`.

## Model

| member | source | states |
|---|---|---|
| Sorting.SortOrders | scripts/coverage-partitions.ts:311-313 | the sort that every script relies on is ordered by its comparison, for any total preorder |
| Sorting.OrderedIsUnique | scripts/client-build-environment.ts:363-366 | when the order tells elements apart there is one sorted arrangement, so discovery order cannot show |
| ListScheduling.LoadsConserve | scripts/coverage-partitions.ts:318-326 | bucket loads always add up to the weight placed so far |
| ListScheduling.GrahamTotal | scripts/coverage-partitions.ts:318-326 | m·L is at most the total plus (m-1) times the last weight of the bucket, for greedy placement in any order |
| ListScheduling.LargeLastItem | scripts/coverage-partitions.ts:313-326 | when the last file of a bucket is over a third of any rival's makespan, heaviest-first placement keeps that bucket within the makespan |
| ListScheduling.GreedyRatio | scripts/coverage-partitions.ts:313-326 | the makespan is within (2m-1)/m of every other placement's, and within (4m-1)/(3m) when the heaviest go first |
| ListScheduling.FirstFilesSpread | scripts/coverage-partitions.ts:315-326 | the first m files of non-negative weight go to m different buckets, even with zero weights |
| ListScheduling.NoBucketEmptyIff | scripts/coverage-partitions.ts:303-327 | exactly when heaviest-first placement leaves no bucket empty |
| CoveragePartitions.RootIsLeast | scripts/coverage-partitions.ts:315-319 | the root of the index heap is a bucket that a linear scan under (sum, count) could have chosen |
| CoveragePartitions.SiftDown | scripts/coverage-partitions.ts:331-359 | in place: when only the root's key grew, the index array is a permutation of the same indices and a min-heap again; buckets are untouched |
| CoveragePartitions.PlaceFile | scripts/coverage-partitions.ts:318-325 | one placement puts the file into a lightest bucket, keeps sums and lists in step with the placement, and keeps the heap |
| CoveragePartitions.AssignWeightedPartitions | scripts/coverage-partitions.ts:305-328 | throws exactly for some files and no partitions; otherwise returns the parts of a greedy placement of the files in heaviest-first order, files of one weight in collation order |
| PartitionGuarantees.PartitionsConserve | scripts/coverage-partitions.ts:305-328 | the parts together are the multiset of the files, and each part's `partitionWeight` is its bucket's sum |
| PartitionGuarantees.RivalPlacement | scripts/coverage-partitions.ts:382-384 | every partitioning of the same files is a placement with the same weights, so bounds against placements are bounds against partitionings |
| PartitionGuarantees.WithinLptOfAnyRival | scripts/coverage-partitions.ts:298-328 | 3m·L <= (4m-1)·M for every part of weight L and every other partitioning into m parts of weight at most M, for non-negative weights |
| PartitionGuarantees.SpreadWithinLastFile | scripts/coverage-partitions.ts:298-328 | a part exceeds any other by at most the weight of the last file it received |
| PartitionGuarantees.EqualWeightsSplitEvenly | scripts/coverage-partitions.ts:315-328 | with equal weights file counts differ by at most one |
| PartitionGuarantees.NoPartitionEmptyIff | scripts/coverage-partitions.ts:303-328 | no part is empty exactly when there are at least m files of which at least m-1 have a non-negative weight |
| PartitionGuarantees.NegativeWeightsStarve | scripts/coverage-partitions.ts:303-328 | two files of negative weight always leave one of two parts empty |
| PartitionGuarantees.SortedPartsKeepGuarantees | scripts/coverage-partitions.ts:537-539 | sorting the parts heaviest first keeps which parts there are and whether one is empty |
| PartitionGuarantees.UnrecordedCountEvenly | scripts/coverage-partitions.ts:307-313 | files without a recorded duration weigh one each |
| PartitionGuarantees.RecordedDurationCounts | scripts/coverage-partitions.ts:309-384 | a recorded duration is what a file adds to its part |
| PartitionGuarantees.CoveragePartitionCoordinator.Create | scripts/coverage-partitions.ts:435-449 | a coordinator exists exactly for two or more partitions |
| PartitionGuarantees.CoveragePartitionCoordinator.AssignFiles | scripts/coverage-partitions.ts:521-540 | a workspace scan is distributed by LPT under the recorded durations and leaves its projects behind, an injected list under the injected weights or one weight each; files of one weight in collation order, parts heaviest first, and no part above (4/3 - 1/(3m)) times what any other partitioning can keep to |
| PartitionGuarantees.CoveragePartitionCoordinator.FirstEmpty | scripts/coverage-partitions.ts:494-502 | finds the first empty part, if there is one |
| PartitionGuarantees.CoveragePartitionCoordinator.Plan | scripts/coverage-partitions.ts:494-540 | with the files and weights chosen in the same way, a run goes ahead exactly under the condition of `NoPartitionEmptyIff` (for injected files without weights: when there are as many as partitions), covers every file in non-empty parts, and keeps the bound |
| TypeGraph.SearchIsExact | scripts/gen-config-catalog.ts:337-359 | despite the shared `seen` and the early exit, a declaration is found if and only if one is reachable along the re-exports that the search follows, and a found one is reachable |
| TypeGraph.ForwardsIff | scripts/gen-config-catalog.ts:343-354 | the re-exports that the search follows: `export *` under the same name, and a list under the name that its first element of that name has in the other file, both from relative sources only |
| TypeGraph.MissExhausts | scripts/gen-config-catalog.ts:337-359 | a miss leaves a visited set that is closed under re-exports and holds no declaration |
| TypeGraph.DenotesIff | scripts/gen-config-catalog.ts:361-397 | a type name denotes the first declaration of the file, or else what the package-relative or workspace file that it is imported from is found to export under the imported name |
| SearchOrder.SearchTakesFirst | scripts/gen-config-catalog.ts:337-359 | of several reachable declarations the search finds the one at the end of the first path: by the first statement that leads to a declaration without coming back, at every file |
| ModuleExports.ExplicitIff | scripts/gen-config-catalog.ts:335-336 | the rules of the language for what a file exports explicitly, against which the search is judged, told by its statements: an exported declaration, else the first list that has the name |
| ExportHonesty.ExportedIff | scripts/gen-config-catalog.ts:329-359 | the search finds what the file exports by the rules of the language, exactly when the declaration at the end of the first path is the only one that the export leads to |
| ExportHonesty.StraightIsExported | scripts/gen-config-catalog.ts:341-357 | it does so wherever each file that it can come to exports what it declares under the name, has no `export *` beside an explicit export, and hides no other export from the search, if the program gives the name one meaning |
| ExportHonesty.StarBeforeList | scripts/gen-config-catalog.ts:343-357 | for `export *` before `export { C } from` the search takes the `C` of the star, and the one of the list is exported |
| ExportHonesty.StarBeforePassedOn | scripts/gen-config-catalog.ts:343-345 | the same for an imported `C` that `export { C }` passes on |
| ExportHonesty.StarBesideClass | scripts/gen-config-catalog.ts:341-357 | beside `export class C` the search takes the `C` of a star, which is not exported |
| ExportHonesty.HiddenDeclarationIsFound | scripts/gen-config-catalog.ts:341-342 | for an unexported interface `C` beside `export { C } from './b.ts'` the search takes the unexported one, and the `C` of the other file is what is exported |
| PathPresence.DeclRight | scripts/gen-config-catalog.ts:407-470 | whatever was visited before, a definite answer on a declaration agrees with presence on every branch and on some branch, names denoting what `DenotesIff` says |
| PathPresence.TypeRight | scripts/gen-config-catalog.ts:425-493 | the same for every kind of type node, names being resolved as the script does, with exactness when nothing was cut by `seen` |
| LookupGuarantees.LookupIsRight | scripts/gen-config-catalog.ts:407-493 | for every `seen` set, and with names resolved as the script does: `found` implies presence on every branch, `missing` implies presence on none; without a cut the answer is exact |
| MemberLookup.WrappersAreTransparent | scripts/gen-config-catalog.ts:396-484 | `Partial`, `Required`, `Readonly` and `NonNullable` of a type are looked up as the type |
| MemberLookup.ArraysAreAlike | scripts/gen-config-catalog.ts:467-487 | `Array` and `ReadonlyArray` of a type are looked up as `T[]` |
| MemberLookup.NamesAreFollowed | scripts/gen-config-catalog.ts:478-490 | any other reference is looked up in the declaration that its name denotes, and unknown without one or with a qualified name |
| ProgramMeaning.RightAboutProgram | scripts/gen-config-catalog.ts:400-493 | the same about the program for every walk whose comparisons all read names as they are meant; in the program a property is its key, methods and index signatures declare keys, interfaces of one name are one with a class of that name, a declared or imported name comes before a global wrapper and a type parameter before both, and an import is what the other file exports |
| ReadingCases.MissingIsRightIff | scripts/gen-config-catalog.ts:426-431 | for an interface without heritage clauses, `missing` is right for every name exactly when it has no index signature and no class beside it and each key of each of its declarations is written, as it is, in the first |
| ReadingCases.FoundIsRightIff | scripts/gen-config-catalog.ts:426-431 | and `found` is right for every name exactly when everything written in the first is a key |
| HeritageCases.MissingIsRightAboveIff | scripts/gen-config-catalog.ts:432-449 | for an interface whose heritage is a tree of interfaces, `missing` is right for every name exactly when each key that it has or inherits in the program is written where the script looks |
| HeritageCases.FoundIsRightAboveIff | scripts/gen-config-catalog.ts:432-449 | and `found` is right for every name exactly when everything written where the script looks is a key that it has or inherits |
| HeritageCases.VerdictIsWritten | scripts/gen-config-catalog.ts:432-449 | there a name is found when it is written in an interface that the heritage clauses lead to, by what their names denote, and missed otherwise |
| HeritageCases.ImportedBaseIsSeen | scripts/gen-config-catalog.ts:438-449 | for an interface with one base that is imported from another file, as that file exports it, exactly the names written in either are found and all others missed |
| ReadingCases.QuotedKeyIsMissed | scripts/gen-config-catalog.ts:428 | the key of a quoted member is answered `missing`, and its text with the quotes `found` |
| ReadingCases.MethodIsMissed | scripts/gen-config-catalog.ts:428 | a method signature is answered `missing` |
| ReadingCases.IndexSignatureIsPassedOver | scripts/gen-config-catalog.ts:428 | every name is answered `missing` on an interface with an index signature |
| ReadingCases.ClassIsPassedOver | scripts/gen-config-catalog.ts:149-155 | every name that an interface with a class of its name beside it does not write is answered `missing`, and the class may have it |
| ReadingCases.MergedMemberIsMissed | scripts/gen-config-catalog.ts:149-155 | a member of the second interface of one name in a file is answered `missing` |
| ReadingCases.OwnWrapperIsMistaken | scripts/gen-config-catalog.ts:481-484 | a member of a declared interface `Partial` is answered `missing`, because the name is taken for the global type |
| ReadingCases.ParameterIsMistaken | scripts/gen-config-catalog.ts:489-491 | a type parameter is answered by the members of an interface of its name |
| ReadingCases.KeyOfIsLookedThrough | scripts/gen-config-catalog.ts:470 | the members of the operand of `keyof` are found on its keys |
| ReadingCases.HiddenDeclarationMisleads | scripts/gen-config-catalog.ts:364-394 | an import that stops at a hidden declaration is answered by the members of that one, whatever the exported one has |
| ReadingCases.StarMisleads | scripts/gen-config-catalog.ts:343-394 | an import through `export *` before an export list is answered by the members of the star's declaration, whatever the exported one has |
| ReadingCases.DisagreementCanBeHarmless | scripts/gen-config-catalog.ts:425-440 | one comparison that disagrees need not make the answer wrong, so agreement everywhere is sufficient but not necessary for a single answer |
| LookupGuarantees.MustIsMay | scripts/gen-config-catalog.ts:407-493 | presence on every branch is presence on some branch |
| LookupGuarantees.VerdictsNeverConflict | scripts/gen-config-catalog.ts:407-493 | two lookups of one path with different histories never answer `found` and `missing` |
| LookupGuarantees.DeclCapIrrelevant | scripts/gen-config-catalog.ts:407-493 | the cap on path length that makes the model total is not part of the answer: under any larger cap an answer that did not meet it is the same |
| LookupTermination.BoundedPathsTerminate | scripts/gen-config-catalog.ts:407-493 | on every declaration graph and for every `seen` set, the recursion ends when the paths that it can arrive with are bounded |
| LookupTermination.UncutIsBounded | scripts/gen-config-catalog.ts:407-493 | a lookup that ends without meeting a visited declaration again has bounded all paths that can be arrived with |
| LookupTermination.TerminatesIff | scripts/gen-config-catalog.ts:407-493 | where no visited declaration is met again, the recursion ends if and only if the paths are bounded |
| LookupCuts.TreeLikeTerminatesIff | scripts/gen-config-catalog.ts:407-493 | where no branches of a type and no bases of an interface lead into one declaration with equally long paths, and none leads back to itself so, the recursion ends if and only if the paths are bounded |
| LookupCuts.TreeLikeIsExact | scripts/gen-config-catalog.ts:407-493 | and there its answers say exactly whether the path is present or absent |
| TerminationCases.BranchOrderDecides | scripts/gen-config-catalog.ts:410-412 | otherwise the order of the branches of a union decides: the same unbounded paths, and one order ends while the other does not |
| TerminationCases.BoundedGrowthTerminates | scripts/gen-config-catalog.ts:407-476 | the paths are bounded, so the recursion ends, when the declarations that it can reach have growth bounds that no cycle exceeds |
| TerminationCases.NoIndexedTerminates | scripts/gen-config-catalog.ts:407-476 | it ends wherever no indexed access with a literal index can be reached, cyclic or not |
| TerminationCases.IndexedAccessCanDiverge | scripts/gen-config-catalog.ts:471-476 | a type that indexes itself exceeds every cap on the path length |
| PasteClosure.Paste | scripts/gen-config-catalog.ts:774-828 | the loop ends exactly when no name that it processes is endless, and where no name is met with two meanings exactly when no name met is; then there is no violation if and only if every name met has one meaning that can be rendered, and the pastes are exactly the closure of the config type, each name one declaration or one import, never both |
| PasteClosure.DoneIsFaithful | scripts/gen-config-catalog.ts:776-780 | an emptied worklist without violations renders every name met, from its own file, with exactly that meaning |
| NameResolution.EndlessIff | scripts/gen-config-catalog.ts:162-187 | resolving a name never returns exactly when no number of calls suffices, which is exactly when its package-local imports come back to a file before they meet a declaration |
| NameResolution.CircleIsEndless | scripts/gen-config-catalog.ts:176-182 | two files that import a name from each other are such a circle |
| NameResolution.ResolveMeans | scripts/gen-config-catalog.ts:162-187 | otherwise the meaning is what the files say at the end of the imports of the name: its first declaration there, the import from elsewhere, or nothing |
| DeclarationNames.TypeNamesAreAll | scripts/gen-config-catalog.ts:190-203 | the collected names of a declaration are exactly those of the references, however deep, and of the heritage bases in it |
| ConfigPaste.MetIff | scripts/gen-config-catalog.ts:780-828 | the worklist meets exactly the names that stand in the declarations drawn in after the config type |
| ConfigPaste.PasteConfigType | scripts/gen-config-catalog.ts:162-203 | it ends exactly when no name that it processes has imports that go round, and where no name is met with two meanings exactly when no name in what is drawn in has; it is then refused exactly when some occurrence of a name has no meaning, another one, or an imported one for the config type, and otherwise the fence starts with the config type, holds every declaration drawn in and no other, and renders every name in them, global ones apart, as the file of its declaration means it |
| SchemaPaths.ParsePath | scripts/gen-config-catalog.ts:313-326 | splits at dots and turns each trailing pair of brackets into an element step |
| SchemaPaths.ParseInvertsPrintIff | scripts/gen-config-catalog.ts:313-326 | printing then parsing gives the steps back exactly when no key has a dot or ends in brackets |
| SchemaPaths.EmittedPathsReadBack | scripts/gen-config-catalog.ts:512-610 | a path that a walk of nested objects, arrays and intersections emits parses to the steps walked exactly when the keys walked through are clean |
| SchemaMembers.WalkIsAll | scripts/gen-config-catalog.ts:512-608 | the walk visits exactly the members that the schema validates: properties, members of their values, and members of array elements, through refinements and parts |
| SchemaMembers.KeysAreAll | scripts/gen-config-catalog.ts:512-608 | its key paths are exactly the prints of these members |
| SchemaPaths.CheckSchemaKeys | scripts/gen-config-catalog.ts:861-875 | a path is reported exactly when the lookup definitely misses it; it is then on no branch of the declared type as the script resolves names, and on none in the program where names are read as they are meant; so the keys that a schema validates are absent, when they are clean and read as they are meant |
| SchemaCases.DottedKeyIsReported | scripts/gen-config-catalog.ts:313-317 | a declared key with a dot is reported: the path that is looked up is absent, the key is present |
| ComposeFold.FoldVisits | scripts/gen-config-catalog.ts:847-860 | a fold visits new packages once and leaves nothing composed unvisited |
| ComposeFold.FoldIsExact | scripts/gen-config-catalog.ts:844-861 | the folded keys are those of exactly the packages reachable along `schemaComposes`, each package once |
| ModuleLanguage.TraceValue | scripts/gen-doc-graphs.ts:1175-1182 | if an expression anywhere has a function as its value, then it names the function in that file, or the function's name occurs at home other than as a callee |
| ValueRules.ValuesAreRules | scripts/gen-doc-graphs.ts:1162-1163 | the values that calls are resolved by are those of rules without a bound on how far references are followed, found within some bound |
| Places.ListIsUnique | scripts/gen-doc-graphs.ts:1160-1171 | of what stands at certain places there is one list in source order |
| ExpressionPlaces.FileIdentsAreAll | scripts/gen-doc-graphs.ts:1225-1235 | the scan of a file meets exactly the identifiers that stand in it, with their ancestors |
| CallLists.FileCallsAreAll | scripts/gen-doc-graphs.ts:1160-1171 | every call that stands in a file, however deep, is collected once for each place |
| CallLists.CallsToAreAll | scripts/gen-doc-graphs.ts:1158-1173 | and the calls of a function are all those whose callee has it as its value |
| CallSites.ProvenLocalIsConfined | scripts/gen-doc-graphs.ts:1197-1239 | a call that resolves to a helper with a locality proof is in the helper's file, through any chain of aliases |
| CallSites.OnlyOwnFileMatches | scripts/gen-doc-graphs.ts:1175-1195 | for a proven helper the index of its file answers like the index of any set of files with it |
| CallSites.OwnFileIsNotEnough | scripts/gen-doc-graphs.ts:1178-1182 | the proof is needed: a helper that is not exported can be called from another file through an exported alias |
| CallSites.BuildCallSiteIndex | scripts/gen-doc-graphs.ts:1158-1173 | an index says of every function the calls, anywhere in the files, whose callee has it as its value: all of them, once for each place, in the order of the files and of the source |
| CallSites.IsDirectCallee | scripts/gen-doc-graphs.ts:1403-1415 | climbs wrappers only, and accepts only the callee position of a call |
| CallSites.ProvenLocalIff | scripts/gen-doc-graphs.ts:1206-1239 | what the scan of the identifiers of a file decides, place by place |
| CallSites.OnlyCalledIsConfined | scripts/gen-doc-graphs.ts:1178-1239 | no call in another file has such a function as its value, through however many references |
| CallSites.EventRelationCollector.ProvenLocalCallee | scripts/gen-doc-graphs.ts:1206-1239 | the proof, cached or not, holds exactly for a function of a module without `export` of whose name every occurrence in its file that is bound to it is called on the spot |
| CallSites.EventRelationCollector.CallSitesFor | scripts/gen-doc-graphs.ts:1183-1195 | after any queries and with either index, the answer is every call of the owner anywhere in the package sources, once for each place, in source order |
| WorkerPool.StepKeepsInvariant | scripts/benchmark-next-package-dependency.ts:189-197 | every claim, finish and retirement keeps: indices below the cursor are in flight at exactly one worker or have the right result |
| WorkerPool.EveryMoment | scripts/benchmark-next-package-dependency.ts:182-199 | in every interleaving: at most min(jobs, n) in flight, no index at two workers, no worker gone while items are unclaimed |
| WorkerPool.ClaimsAreConsecutive | scripts/benchmark-next-package-dependency.ts:190-192 | the claims of any schedule are consecutive indices, so each is claimed once |
| WorkerPool.NeverStuck | scripts/benchmark-next-package-dependency.ts:189-197 | an unfinished pool always has an enabled step |
| WorkerPool.SchedulesEnd | scripts/benchmark-next-package-dependency.ts:182-199 | a schedule has at most 2n + min(jobs, n) steps, and exactly that many when all workers have returned |
| WorkerPool.FinishedIsComplete | scripts/benchmark-next-package-dependency.ts:182-199 | when all workers have returned, every result is the operation's on its value, if and only if there is a job or nothing to do |
| BenchmarkCandidates.InstalledIff | scripts/benchmark-next-package-dependency.ts:149-155 | the queued names are exactly the dependencies, optional dependencies and required peers |
| BenchmarkCandidates.Search | scripts/benchmark-next-package-dependency.ts:140-158 | the search with a cursor and a queue with repeats ends with exactly the packages reachable through published manifests, each once |
| BenchmarkCandidates.DiscoverBenchmarkCandidates | scripts/benchmark-next-package-dependency.ts:134-165 | the candidates are exactly the released packages outside the policy with a peer besides the framework that an installation of the command line brings along through packages of the registry, each once, in order |
| SessionFormats.CountedIffComplete | scripts/gen-session-format-catalog.ts:125-135 | the count checks on a sorted inventory pass exactly when migration i is i -> i+1 for every i below the current version and nothing else is there |
| SessionFormats.CollectSessionFormatMigrations | scripts/gen-session-format-catalog.ts:82-168 | succeeds exactly when the packages can be ordered into a chain: one for every version below the current one, named and placed for it, its codec to read the one that the package before it writes, that package among its dependencies, and all of them among those of the catalog; it returns what their manifests say, in that order |
| SessionFormats.DeclarationSays | scripts/gen-session-format-catalog.ts:88-124 | a declaration is what the manifest says, field by field, with a leading `./` of the export path dropped, and there is none exactly when the manifest does not say it |
| SessionFormats.AcceptedIff | scripts/gen-session-format-catalog.ts:82-168 | the accepted inventories are exactly those that form such a chain |
| SessionFormats.AcceptanceIgnoresOrder | scripts/gen-session-format-catalog.ts:87-125 | the accepted list does not depend on the order of discovery |
| SessionCatalog.CatalogIsComplete | scripts/gen-session-format-catalog.ts:176-219 | the catalog has one codec per version, adjacent codecs match every migration, and every identifier taken from a declaration is imported from its package and nothing else is |
| SessionCatalog.AcceptedBindsOnceIff | scripts/gen-session-format-catalog.ts:180-219 | the generated source of an accepted inventory binds every identifier once exactly when one identifier in two places of it is declared by one package and is none of the seven bound anyway |
| SessionCatalog.AlikeCodecsCollide | scripts/gen-session-format-catalog.ts:147-185 | two migrations whose codecs all have one name are accepted, and the name is imported from both packages |
| SessionCatalog.AcceptedUpgrades | scripts/gen-session-format-catalog.ts:125-168 | following the accepted migrations from any version reaches the current one |
| ArtifactDigest.StreamDecodes | scripts/client-build-environment.ts:369-376 | the hashed stream can be decoded into the artifacts, for arbitrary bytes |
| ArtifactDigest.ClientArtifactDigest | scripts/client-build-environment.ts:362-378 | throws exactly without artifacts; otherwise the digest is the hash of the stream of the artifacts sorted by path |
| ArtifactDigest.SameStreamIffSameArtifacts | scripts/client-build-environment.ts:362-378 | two inventories with distinct paths have one stream if and only if they hold the same artifacts, in whatever order they were discovered |
| GitBatch.ReadGitFiles | scripts/benchmark-npm-resolution.ts:145-169 | moving an offset through the output is reading one framed object per path off the front and decoding it, with the four errors of the original |
| GitHeaders.HeaderSizeIff | scripts/benchmark-npm-resolution.ts:156-161 | a header is taken for a missing object exactly when it ends in ` missing`, else for a size exactly when its third field announces one up to 2^53 - 1, and for an invalid size otherwise |
| GitHeaders.BodyIsRead | scripts/benchmark-npm-resolution.ts:162-166 | behind a header an object is read exactly as announced, and is truncated without a newline behind it |
| GitBatch.BatchReads | scripts/benchmark-npm-resolution.ts:151-168 | of every list of objects, whatever bytes they have and whatever follows, the decoded contents are read back |
| GitBatch.PrefixFails | scripts/benchmark-npm-resolution.ts:151-168 | every strict prefix of a batch is refused |
| GitBatch.ContentsSay | scripts/benchmark-npm-resolution.ts:165 | a path maps to the decoded content of its last object |
| GitBatch.SameResultIff | scripts/benchmark-npm-resolution.ts:145-169 | two batches for the same distinct paths give one result if and only if their contents decode to the same texts |
| GitBatch.ValidIsToldApart | scripts/benchmark-npm-resolution.ts:145-169 | for contents that are valid UTF-8, if and only if the contents are the same |
| GitBatch.StrayByteIsLost | scripts/benchmark-npm-resolution.ts:165 | the byte 0xFF reads like a replacement character that was written |
| Utf8.DecodeInvertsEncode | scripts/benchmark-npm-resolution.ts:165 | decoding gives every text back from its UTF-8 bytes |
| Utf8.RecoverableIff | scripts/benchmark-npm-resolution.ts:165 | decoding loses nothing exactly on the bytes of some text |
| Utf8.TakeIsMaximal | scripts/benchmark-npm-resolution.ts:165 | of ill-formed bytes the longest stretch that begins a character, or one byte, becomes one replacement character |
| MarkerRegion.MarkersAreProper | scripts/gen-tsconfig-paths.ts:28-29 | the two real markers are single lines and the end marker is not inside the begin marker |
| MarkerRegion.OutsideIsPreserved | scripts/gen-tsconfig-paths.ts:194-211 | a rewrite keeps the text before the first marker and from the second one on, and with them the text that is read as hand-written |
| MarkerRegion.LastWriteWins | scripts/gen-tsconfig-paths.ts:194-201 | a second rewrite forgets the first body |
| MarkerRegion.RewriteIsIdempotentIff | scripts/gen-tsconfig-paths.ts:194-201 | writing a body twice equals writing it once exactly when the end marker does not occur in it |
| AliasKeys.ReadKeys | scripts/gen-tsconfig-paths.ts:142-149 | the loop over matches collects the keys of the pattern |
| AliasKeys.KeysAreExact | scripts/gen-tsconfig-paths.ts:144 | although a search goes on behind the last match, a key is collected if and only if it stands quoted before a colon as the first thing on some line |
| AliasKeys.KeysAreQuoted | scripts/gen-tsconfig-paths.ts:144 | the same told by the characters of the text: what stands between a quote and a quote with a colon, behind blanks only from a line's beginning, and goes on behind the prefix without a quote, and for bare names without a slash |
| TsconfigAliases.RealSettingsAreProper | scripts/gen-tsconfig-paths.ts:28-32 | the real markers and package prefix have the properties that the results below assume |
| TsconfigAliases.CollectPackageAliases | scripts/gen-tsconfig-paths.ts:99-119 | throws exactly when two directories claim one specifier; otherwise the packages named after their directory, sorted |
| TsconfigAliases.RenderAliases | scripts/gen-tsconfig-paths.ts:176-185 | the body is the lines of the aliases that are not written by hand |
| TsconfigAliases.BodyIsMarkerFree | scripts/gen-tsconfig-paths.ts:176-185 | a body of names without two slashes before a blank never has the end marker in it |
| TsconfigAliases.PlainBodyIsMarkerFree | scripts/gen-tsconfig-paths.ts:176-185 | so bodies of names without blanks, quotes and backslashes never have it either |
| TsconfigAliases.GeneratingIsIdempotent | scripts/gen-tsconfig-paths.ts:194-223 | writing the generated body again changes nothing exactly when the end marker does not occur in it; then the hand-written specifiers are the same after a rewrite, generating again changes nothing, and no generated alias repeats a hand-written key |
| TsconfigAliases.EveryAliasIsMapped | scripts/gen-tsconfig-paths.ts:142-223 | after a rewrite every alias is read back as mapped, by its generated line or by hand |
| TsconfigAliases.Run | scripts/gen-tsconfig-paths.ts:220-241 | the outcomes of the command in the order of its checks; stale only when checking, written only otherwise |
| TsconfigAliases.WrittenIsCurrent | scripts/gen-tsconfig-paths.ts:220-241 | what a run writes is current for the next run, checking or not, for all names of directory entries |
| TsconfigAliases.OnlyOthersAreUncovered | scripts/gen-tsconfig-paths.ts:151-169 | a package named after its directory is never reported as uncovered, if its name has no blank, quote or backslash |
| TsconfigAliases.GatePassesIff | scripts/gen-tsconfig-paths.ts:163-168 | the gate passes exactly when every package name stands as a key in the new text |
| TsconfigAliases.UncoveredAreExact | scripts/gen-tsconfig-paths.ts:163-168 | otherwise exactly the package names without a key are reported |
| AliasRegion.BodyListsPackages | scripts/gen-tsconfig-paths.ts:99-186 | the body is one line for every package that is named after its directory and not mapped by hand, which maps its name to `./packages/<group>/<directory>/src`, in collation order with a comma between |
| JsonStrings.QuoteEncodes | scripts/gen-tsconfig-paths.ts:180 | what `JSON.stringify` puts between the quotes is read back as the string by section 7 of RFC 8259 |
| ArchiveSeal.ValidateArchiveManifestExtension | scripts/archived-agent-notes.ts:57-68 | collects the faults of the sealed entries in order |
| ArchiveSeal.FaultsAreExact | scripts/archived-agent-notes.ts:61-66 | a path is reported missing or changed exactly when it is |
| ArchiveSeal.ExtendArchiveManifest | scripts/archived-agent-notes.ts:165-183 | files, added paths and errors, with the lookup in the growing object replaced by one in the old manifest |
| ArchiveSeal.ExtensionSeals | scripts/archived-agent-notes.ts:165-183 | a path has its old seal or else the hash of its artifact, and the old manifest accepts the new one |
| ArchiveSeal.ExtendSeals | scripts/archived-agent-notes.ts:165-183 | the extension of the script has the one-step properties that the results on runs assume of a sealing function |
| ArchiveSeal.NothingAddedIff | scripts/archived-agent-notes.ts:176-181 | nothing is added exactly when every artifact is sealed |
| ArchiveSeal.RepeatAddsNothing | scripts/archived-agent-notes.ts:165-183 | extending again with the same artifacts adds nothing and reports the same faults |
| ArchiveSeal.EveryEarlierManifestAccepts | scripts/archived-agent-notes.ts:57-183 | over any run of extensions, each manifest is accepted against every earlier one |
| ArchiveSeal.CleanDayIff | scripts/archived-agent-notes.ts:171-175 | an extension is free of errors exactly when every path sealed so far is present with its first hash |
| ArchiveSeal.CleanRunFreezes | scripts/archived-agent-notes.ts:165-183 | along an error-free run an archived path never disappears and keeps one content hash |
| ArchiveSeal.AcceptsIff | scripts/verify-archived-agent-notes.ts:88-106 | the check accepts exactly when the manifest lists the artifacts with their hashes, nothing else, and keeps the baseline |
| ArchiveSeal.WriteThenCheck | scripts/verify-archived-agent-notes.ts:88-115 | what `--write` leaves behind passes the check |
| ArchiveSeal.AcceptedHistoryIff | scripts/verify-archived-agent-notes.ts:86-106 | commits that may edit manifest and artifacts together pass, each against the one before, exactly when no archived path is ever lost or changed |
| TargetText.ParseInvertsRender | scripts/check-macos-deployment-target.py:22-26 | every version is parsed back from its dotted rendering |
| TargetText.ParseVersionIff | scripts/check-macos-deployment-target.py:22-26 | exactly numbers with dots between them are versions, leading zeros allowed |
| TargetText.ClaimedVersionIff | scripts/check-macos-deployment-target.py:29-34 | exactly the tags `macosx_<major>_<minor>_arm64` and `_x86_64` claim a version, which is the two numbers |
| TargetText.ClassifyIff | scripts/check-macos-deployment-target.py:41-52 | blanks around it apart, a line switches to a load command or sets a version exactly as its text says |
| TargetText.ClaimIsRead | scripts/check-macos-deployment-target.py:29-34 | the two numbers after the system name of a wheel tag are read back, for every listed machine |
| DeploymentTarget.TargetsAreDeclared | scripts/check-macos-deployment-target.py:40-52 | the collected versions are exactly those declared in the right spelling under the nearest load command above them |
| DeploymentTarget.ParseOtoolDeploymentTarget | scripts/check-macos-deployment-target.py:37-55 | returns the tuple maximum of the targets, or the error when there are none |
| DeploymentTarget.NewestIsNewest | scripts/check-macos-deployment-target.py:55 | the tuple maximum is one of the versions and no other is newer, whatever their lengths |
| DeploymentTarget.PaddedOrderIsVersionOrder | scripts/check-macos-deployment-target.py:78-82 | comparing padded tuples is comparing versions, for every width that holds both |
| DeploymentTarget.GateChecksEverySlice | scripts/check-macos-deployment-target.py:37-86 | the maximum is accepted if and only if every slice's version is at most the claimed one |
| DeploymentTarget.ValidateDeploymentTargets | scripts/check-macos-deployment-target.py:89-96 | measures all, then compares all: each outcome exactly when its condition holds |
| DeploymentTarget.ValidateRuntimes | scripts/check-macos-deployment-target.py:89-96 | the same with the readings of real `otool` text and wheel tags |

## Left out

- Processes, signals, servers, npm, pnpm, git and uv calls, file copying and deletion: a file read is an
  input value, a write is a result.
- The TypeScript checker, bundlers, YAML and SPDX libraries: only the tree or graph that the scripts walk
  is modelled.
- Rounding of floating-point durations; locale collation beyond being a total preorder.
- RightAboutProgram: one direction for a whole walk, because `DisagreementCanBeHarmless` refutes the
  other; the exact conditions are stated for paths of one name on an interface.
- BoundedGrowthTerminates: sufficient only; the exact statements are `TerminatesIff` and
  `TreeLikeTerminatesIff`, and beyond them `BranchOrderDecides`.
- OnlyOthersAreUncovered: names with a blank, a quote or a backslash, which are no package names.
- Substitution of type arguments: a type parameter may have any member. Properties named by a symbol.
- Module and global augmentations, `export =`, and programs that a compiler refuses because two exports or
  two `export *` give one name different meanings; what an `export *` of an unread package adds.
- Constraints and defaults of type parameters among the names that a declaration mentions; numeric and
  computed keys of schema objects.
- The `seen` sets of `lookupPath`, `findExportedTypeDecl` and `foldComposed` are passed on as values
  instead of being changed in place; what each call sees is the same.
- Read errors of source files that an import names: every such file is taken to be readable.
- `checkMemberDocs`, the resolution of schema aliases and the violations of `walkSchemaExpr`.
- Nested functions, `export *`, reassigned variables and class members in the module language; a call
  resolves through at most a given number of references, for every such number.
- The name and argument recovery of `EventRelationCollector` behind its call sites
  (`eventNamesFromParameter`, `finiteStringValues` and what they feed).
- Rejected operations and `undefined` elements in `mapConcurrent`; its asynchronous code is a
  transition system, not code.
- Measurements, medians and registry edits of benchmark-next-package-dependency.ts.
- UTF-8 decoding and non-ASCII blanks in git headers; a text is a sequence of code points, where
  JavaScript has pairs of surrogates.
- Blanks and line ends outside ASCII in the alias patterns; collecting workspace packages from disk.
- Object members that every JavaScript object inherits, used as archive paths; integer-like paths, which
  an object would list first; the validation of note triplets and dates; the strength of the hash.
- ASCII digits and blanks only in version text; splitting `otool` output into lines; missing executables.
- Rendering of catalogs and diagrams, prose checks, policy tables, command-line parsing.
