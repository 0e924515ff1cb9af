# Verified models of the repository's scripts

Dafny models of the algorithms that the build, test and documentation scripts under `scripts/` carry
themselves, with proofs of what those scripts promise. `dafny verify dfyconfig.toml` checks all of it.

| script | modules | what is proved |
|---|---|---|
| `scripts/coverage-partitions.ts` | Makespan, PartitionHeap, Partitions, Coordinator | the scheduler over the in-place heap places each file in a lightest partition and stays within 4/3 - 1/(3m) of any split; a run that returns zero accounts for every test file exactly once |
| `scripts/gen-config-catalog.ts` | TypeLookup, TypeExactness, TypeMisreadings, TypeHeritage, TypeTermination, TypeGrowth, KeyPaths, SchemaWalk, SchemaCoverage, ComposedKeys | the three-valued lookup on recursive types is sound and on paths without repetition exact, and where it is not, exactly when; when it ends; every declared schema path is collected, through cyclic aliases too, and round trips exactly for clean keys; composed packages are folded in through cycles, and the walk is silent exactly about what it sees |
| `scripts/gen-cli-help.ts` | HelpPrefetch, HelpPages, HelpPageGraph, HelpPageWalks, HelpPageClosure, HelpPageReference, HelpPageRecords, HelpCollector | slots are safe and fair in every interleaving, each request is answered by a read of its own arguments, and shutdown is complete; alias recording ends on every page graph, what it records is told exactly, and that is all walks if and only if there is no cycle |
| `scripts/client-build-environment.ts` | Decimals, ArtifactDigest | the digest stream determines the artifacts |
| `scripts/dev-web.ts` | StageSupervisor | signals escalate in order, and a stop surely waits for exactly the stages added before its last block |
| `scripts/coverage-fork-diagnostics.ts` | ForkDiagnostics | an exit is reported exactly when no orderly stop explains it |
| `scripts/benchmark-npm-resolution.ts` | GitBatch | the batch reader accepts exactly the printed streams |
| `scripts/cordis-core-api.ts` | BodyStripping, CancellingCuts | right-to-left cutting is a simultaneous replacement; every round removes one body of the declaration, if and only if no brace comes before a body |
| `scripts/benchmark-next-package-dependency.ts` | Packages, Reachability, CandidateDiscovery, MapConcurrent | the queue reaches exactly the least closed set; concurrent workers use each index once |
| `scripts/gen-official-bundle-catalog.ts` | InstallationCheck | the search fails exactly when a provider is needed |
| `scripts/gen-tsconfig-paths.ts`, `scripts/gen-cordis-catalog.ts` | AliasRegion, PageRegion, Text | rewriting a generated region twice is rewriting it once, exactly for clean regions |

How the scripts' forms are kept: what they update in place is a class or an array (buckets and the
heap, the coordinator, the prefetching reader, the supervisor, the fork worker, the help page
objects, the walkers that push to lists), each method proved against a function on values, and what is
promised is proved about that function. Code that awaits is a machine whose step is the stretch between
two awaits; theorems about it hold for every order of events.

Where the code does less than its documentation says, the code is modelled and the exact condition is
proved:

- The partitioner documents that every partition is non-empty. For recorded durations that are not negative
  this holds exactly when there are at least as many files as partitions; negative ones together fill at most
  one more (`Partitions.NoPartitionEmptyIff`, `Partitions.NoPartitionEmptyForDurations`).
- Persisted durations may be negative; the load bound holds for all weights from a limit on exactly when the
  limit is not negative (`Makespan.BoundIffNonNegative`, `Partitions.NegativePairBreaksBound`).
- Paths that differ only in their slashes are included twice: each file is included once exactly when no two
  listed paths do (`Coordinator.IncludedOnceIff`).
- The type walk compares a member's written text, quotes included, and skips members that are not property
  signatures, index signatures among them. Its answers about a literal and an interface are right under an
  exact condition on the members written in it and its ancestors (`TypeMisreadings.OneNameRightIff`,
  `TypeMisreadings.LiteralAnswerRightIff`, `TypeHeritage.HeritageRightIff`); a declared key can be reported as a violation (`SchemaWalk.QuotedKeyReported`).
- It passes through every type operator, which is right for `readonly` only (`TypeMisreadings.OperatorReadIff`).
- Its guard against recursive types does not stop an alias that indexes itself (`TypeTermination.SelfIndexedNeverEnds`).
  Bounded growth of the path is enough for it to end, and where no reference cycle passes
  both a hop and an indexed access and no interface with heritage answers a key asked for, it is necessary too (`TypeGrowth.AllWalksEndIffBounded`);
  in general it is not (`TypeGrowth.EndsWithoutPotential`).
- A stage that is added while a stop is under way is waited for exactly when its last block has not begun
  (`StageSupervisor.AwaitedIffBeforeLastBlock`, `StageSupervisor.LateStageIsMissed`).
- Writing the alias region again reproduces it only while no emitted name holds the end marker (`AliasRegion.GeneratingIsFixedIff`).
- A method without type and parameters keeps its body, and a brace in a comment before the body is cut at
  instead; the exact condition is `BodyStripping.BodyRemovedIff` for one node and `BodyStripping.StrippedIffCutAtBodies` for the
  text of whole declarations. The final text alone can hide two wrong cuts (`CancellingCuts.CutsMayCancel`).
- A page region that holds each marker once, but other lines outside them, is not replaced as a whole by
  the next splice (`PageRegion.SpliceTwice`, `PageRegion.ExtraLineSurvives`).
- Help invocations are not recorded beyond a cycle of the page graph (`HelpPageReference.RecordsEveryWalkIffAcyclic`);
  which ones are recorded on a page graph with cycles is `HelpPageRecords.RecordedExactly`.

Environment, as parameters: weights are reals; the order of file names is any total order; collation,
SHA-256, UTF-8 decoding, JSON string escaping, regular expressions and white space are functions; child processes, files and
reports are the fields of a world; signals, exits, timers and settled promises are events.

## Model

| member | source | states |
|---|---|---|
| `Makespan.LongestFirstBound` | scripts/coverage-partitions.ts:342-365 | for non-negative weights placed heaviest first, each into a lightest bucket, every load is at most 4/3 - 1/(3m) times the greatest load T of any other assignment of the same files to m buckets |
| `Makespan.BoundFailsForNegativeWeights` | scripts/coverage-partitions.ts:278-280 | the history may hold negative durations; two files of weight 1 and -1 break the bound, so it needs weights that are not negative |
| `Makespan.BoundIffNonNegative` | scripts/coverage-partitions.ts:342-365 | for every number of buckets from two on, the bound holds for all weights from lo on if and only if lo is not negative |
| `Makespan.LoadSpread` | scripts/coverage-partitions.ts:342-365 | greedy placement never lets two loads drift further apart than the heaviest file |
| `Makespan.BucketsFilled` | scripts/coverage-partitions.ts:351-365 | how many buckets hold a file: one for each non-negative weight and one more for all negative weights together, as far as there are buckets |
| `Makespan.PickIsLightest` | scripts/coverage-partitions.ts:353-363 | each file goes to a bucket that is lightest at its moment, and among equally heavy ones to one of fewest files |
| `PartitionHeap.RootIsLeast` | scripts/coverage-partitions.ts:353-358 | in an ordered heap the root names a lexicographic (sum, file count) minimum of all buckets |
| `PartitionHeap.LightestPosition` | scripts/coverage-partitions.ts:375-387 | the position of the lightest bucket among an index and its children, by the comparisons of the sift, the index itself on a tie |
| `PartitionHeap.SiftDown` | scripts/coverage-partitions.ts:368-397 | from a heap whose only hole is the start, sifting in place restores the heap order and keeps the heap a permutation of the bucket indices |
| `Partitions.Place` | scripts/coverage-partitions.ts:356-363 | one round: the file joins a lightest bucket, sums and lists follow, and the heap is in order again |
| `Partitions.AssignWeightedPartitions` | scripts/coverage-partitions.ts:342-365 | the loop over the in-place heap returns what placing each file, heaviest first, into a lightest bucket gives; empty partitions for no files |
| `Partitions.AssignmentConserves` | scripts/coverage-partitions.ts:347-365 | the partitions together hold every file exactly as often as it was listed |
| `Partitions.PlacedInOrder` | scripts/coverage-partitions.ts:347-349 | heavier files are placed first, and equally heavy ones in the order of their names |
| `Partitions.EqualFilesBalance` | scripts/coverage-partitions.ts:351-352 | files of one weight are spread evenly by count over the returned partitions, also when they weigh nothing |
| `Partitions.UnrecordedCounts` | scripts/coverage-partitions.ts:420-423 | without recorded durations a partition weighs as many as it has files |
| `Partitions.RecordedAdds` | scripts/coverage-partitions.ts:420-423 | a recorded duration adds to the weight of its partition |
| `Partitions.CompetitorAssignment` | scripts/coverage-partitions.ts:342-365 | any other split of the same files is an assignment of the same sorted weights with the same loads |
| `Partitions.WithinFourThirdsOfAnySplit` | scripts/coverage-partitions.ts:342-365 | every partition weighs at most 4/3 - 1/(3m), hence at most 2 - 1/m, times the heaviest partition of any other split of the files into m partitions |
| `Partitions.NegativePairBreaksBound` | scripts/coverage-partitions.ts:278-280 | every pair of recorded durations x and -x breaks the bound for every number of partitions from two on: some returned partition weighs x, another split leaves none above zero |
| `Partitions.PartitionsStayClose` | scripts/coverage-partitions.ts:342-365 | any two partitions differ in weight by at most the heaviest file |
| `Partitions.NoPartitionEmptyIff` | scripts/coverage-partitions.ts:340-365 | no partition is empty if and only if the files of non-negative weight, and one more when there are others, number at least m; the original promises it without a condition |
| `Partitions.NegativesLeaveOneEmpty` | scripts/coverage-partitions.ts:340-365 | a concrete failing history: two files of weight -1 leave one of two partitions empty |
| `Partitions.NoPartitionEmptyForDurations` | scripts/coverage-partitions.ts:340-365 | for weights that are not negative, no partition is empty if and only if there are at least as many files as partitions |
| `Coordinator.ReportAcceptedIff` | scripts/coverage-partitions.ts:670-691 | a report passes exactly when all its records have names and it lists the assigned files, each once; for a duplicate-free assignment, exactly the permutations of it |
| `Coordinator.AcceptedIffAccounts` | scripts/coverage-partitions.ts:670-691 | in the terms of the report alone: all its records have names, none occurs twice, and exactly the assigned files are named |
| `Coordinator.BlobsCompleteIff` | scripts/coverage-partitions.ts:656-667 | the sorted comparison passes exactly when the directory holds the expected blobs and nothing else |
| `Coordinator.FirstEmpty` | scripts/coverage-partitions.ts:538-546 | the first empty partition, or none when no partition is empty |
| `Coordinator.CoveragePartitionCoordinator.Create` | scripts/coverage-partitions.ts:470-486 | a coordinator that holds its inputs exactly when the number of partitions is a safe integer of at least two, otherwise the range error |
| `Coordinator.CoveragePartitionCoordinator.AssignFiles` | scripts/coverage-partitions.ts:565-584 | the injected files, else the collected inventory, distributed and ordered heaviest partition first; the process-bound map is taken from the inventory that was collected |
| `Coordinator.CoveragePartitionCoordinator.Run` | scripts/coverage-partitions.ts:495-546 | exactly when a run fails without an inventory, names the first empty partition, misses blobs, rejects reports, or ends with a code, each condition after the ones before it passed; the code is zero exactly when every partition and the merge exited with zero, without a signal and without an error, and one otherwise |
| `Coordinator.ScheduleConserves` | scripts/coverage-partitions.ts:581-583 | the ordered partitions hold every inventory file as often as it was listed |
| `Coordinator.HeaviestStartsFirst` | scripts/coverage-partitions.ts:582 | no partition starts before a heavier one |
| `Coordinator.NoEmptyAssignmentIff` | scripts/coverage-partitions.ts:538-546 | the emptiness check passes exactly when the files of non-negative weight, and one more when there are others, number at least m; for non-negative weights, when there are at least m files |
| `Coordinator.IncludeListsCount` | scripts/coverage-partitions.ts:433-450 | the two include lists of a partition together hold every path, in forward slashes, as often as the partition lists a file of that path |
| `Coordinator.IncludeListCounts` | scripts/coverage-partitions.ts:433-450 | the include list of a project holds the normalized path of a file of its kind as often as the partition lists the file, unless another file has the same normalized path |
| `Coordinator.IncludedAsListed` | scripts/coverage-partitions.ts:433-450 | the include lists of all partitions together hold each normalized path exactly as often as the inventory lists a file of that path |
| `Coordinator.IncludedOnceIff` | scripts/coverage-partitions.ts:433-450 | every file is included exactly once if and only if no two listed files have the same path in forward slashes |
| `Coordinator.SlashesIncludeTwice` | scripts/coverage-partitions.ts:433-450 | a concrete failing inventory: the two spellings a/b and a\b include one path twice |
| `Coordinator.EachFileIncludedOnce` | scripts/coverage-partitions.ts:433-450 | then each file is, by its normalized path, in the include list of one partition and one project, its own, once, and in no other |
| `Coordinator.ZeroAccountsForEveryFile` | scripts/coverage-partitions.ts:495-533 | a run that returns zero over a duplicate-free inventory means the partitions' reports together list every inventory file exactly once and nothing else |
| `Coordinator.AcceptedReportsCount` | scripts/coverage-partitions.ts:670-691 | accepted reports together list each file exactly as often as the assignments do |
| `Coordinator.AcceptedIff` | scripts/coverage-partitions.ts:495-533 | what zero stands for, spelled out: no partition without files, one blob per partition and no other, each report accounting for its files, every command having exited with zero without a signal or an error |
| `Coordinator.SlashedIs` | scripts/coverage-partitions.ts:433-437 | a path is included as it is, with a forward slash for each backslash |
| `TypeLookup.DeclLookupSound` | scripts/gen-config-catalog.ts:407-451 | where all members are property signatures of distinct keys written without quotes, the only operator is readonly, unions are not empty and built-in names are not used as qualifiers: for every environment of possibly recursive declarations, path and content of the shared record, found on a declaration implies that the path is present on every union branch and missing that it is present on none |
| `TypeLookup.TypeLookupSound` | scripts/gen-config-catalog.ts:452-493 | under the same condition, the same for every type node: references, wrappers, arrays, unions, intersections and indexed access |
| `TypeLookup.TypeLookupExact` | scripts/gen-config-catalog.ts:407-493 | under the same condition, on types that enter no declaration the answer is found exactly when every branch has the path and missing exactly when none has |
| `TypeLookup.BuiltInNames` | scripts/gen-config-catalog.ts:396-397 | by name: the four wrappers show the members of their argument, the two array types are array types, and every other name with arguments is looked up as one without |
| `TypeExactness.PathAnsweredExactly` | scripts/gen-config-catalog.ts:407-493 | on plain types with heritage of interfaces, for paths of any length and through recursive declarations: a path that runs through no declaration twice with the same number of steps left is answered found exactly when it is on every branch and missing exactly when it is on none |
| `TypeExactness.AcyclicAnswersExactly` | scripts/gen-config-catalog.ts:407-493 | without reference cycles, enough fuel exists for every path, and the answer is exact unless a declaration is entered twice with the same number of steps left |
| `TypeMisreadings.OneNameRightIff` | scripts/gen-config-catalog.ts:424-433 | for every literal, whatever its members, the answer about a name is right if and only if a property signature written like the name comes with a member declaring it, and otherwise no member declares it and there is no index signature |
| `TypeMisreadings.LiteralAnswerRightIff` | scripts/gen-config-catalog.ts:424-433 | for every path whose first name no property signature is written like, missing is right if and only if no member that admits the name can lead on; an index signature admits every name that no member declares |
| `TypeHeritage.HeritageRightIff` | scripts/gen-config-catalog.ts:435-450 | for every interface whose heritage is interfaces without a cycle, whatever their members, and every name: found if and only if the interface or an ancestor writes a property signature like the name, which is right if and only if one of them declares it; otherwise missing if and only if all heritage entries are within reach and none is inherited twice, which is right if and only if none declares the name and none has an index signature |
| `TypeHeritage.PlainHeritageRightIff` | scripts/gen-config-catalog.ts:435-450 | with plain ancestors and no own property signature written like the name, the answer is right if and only if an ancestor declares the name, or the own members neither declare it nor hold an index signature |
| `TypeMisreadings.RootInterfaceRightIff` | scripts/gen-config-catalog.ts:435-450 | without heritage, missing is right if and only if no member declares the name and there is no index signature |
| `TypeMisreadings.QuotedMemberRightIff` | scripts/gen-config-catalog.ts:428 | a property signature is answered rightly for its own key if and only if it is written without quotes |
| `TypeMisreadings.QuotedKeyReportedMissing` | scripts/gen-config-catalog.ts:428 | a concrete interface whose quoted, declared key is answered missing |
| `TypeMisreadings.IndexSignatureReportedMissing` | scripts/gen-config-catalog.ts:424-433 | an index signature admits every key, and every key is answered missing |
| `TypeMisreadings.OperatorReadIff` | scripts/gen-config-catalog.ts:470 | the answers about every plain operand of an operator are right if and only if the operator is readonly |
| `TypeMisreadings.KeyofEmptyMisread` | scripts/gen-config-catalog.ts:470 | any other operator over an empty literal, such as keyof, is answered missing although nothing is known about its members |
| `TypeTermination.WalkEndsSoundly` | scripts/gen-config-catalog.ts:407-416 | where a potential bounds how much references lengthen the path, the walk ends on every recursive environment and whatever was recorded before, and its one answer is sound |
| `TypeGrowth.AllWalksEndIffBounded` | scripts/gen-config-catalog.ts:407-493 | where no reference cycle passes both an indexed access and a member or array hop, and no interface with heritage answers a key asked for by indexed access, all walks end if and only if the growth of paths is bounded |
| `TypeGrowth.EndsWithoutPotential` | scripts/gen-config-catalog.ts:407-493 | without that restriction the bound is sufficient only: a concrete environment, an alias that indexes twice into an interface without such a member, in which all walks end and which admits no potential |
| `TypeTermination.NoIndexedAccessEnds` | scripts/gen-config-catalog.ts:407-493 | in an environment without indexed access every walk ends |
| `TypeTermination.SelfIndexedNeverEnds` | scripts/gen-config-catalog.ts:471-475 | the alias that indexes itself makes the path longer on each round, so the record never stops the recursion |
| `TypeTermination.DeclWalkEnds` | scripts/gen-config-catalog.ts:412-416 | each entry of a declaration uses up one of finitely many (declaration, path length) pairs, so enough fuel exists |
| `KeyPaths.ParsePath` | scripts/gen-config-catalog.ts:313-326 | the two loops split a key path into a member per segment and an array hop per trailing pair of brackets |
| `KeyPaths.ParseAtDot` | scripts/gen-config-catalog.ts:315 | a dot ends the steps before it |
| `KeyPaths.ParseAtBrackets` | scripts/gen-config-catalog.ts:318-323 | a pair of brackets behind any path adds exactly one array hop |
| `KeyPaths.CleanParses` | scripts/gen-config-catalog.ts:313-326 | a key parses to the one member it names exactly when it holds no dot and does not end in brackets |
| `KeyPaths.RoundTripIffClean` | scripts/gen-config-catalog.ts:313-326 | a printed path parses back to its own steps if and only if all its keys are clean |
| `SchemaWalk.SchemaWalker.CollectValuePaths` | scripts/gen-config-catalog.ts:524-544 | the recursive push collects the nested paths of a value behind its base |
| `SchemaWalk.SchemaWalker.Visit` | scripts/gen-config-catalog.ts:545-612 | the visit collects the keys, the composed packages and the violations of a schema expression in order, following each named schema once a path and reporting an alias cycle or an unknown name |
| `SchemaWalk.SchemaWalker.VisitProperties` | scripts/gen-config-catalog.ts:563-577 | the properties of an object give their keys with the nested paths of their values, or a violation, in order |
| `SchemaWalk.DeclaredIffFresh` | scripts/gen-config-catalog.ts:545-562 | a name that is in use is not followed again, and still no path that the schema declares through its aliases is lost: those found without repeating a name are exactly the declared ones |
| `SchemaWalk.SchemaWalker.VisitParts` | scripts/gen-config-catalog.ts:579-600 | an intersection visits inline parts and records composed packages; a union accepts inline parts only |
| `SchemaWalk.DeclaredPathsCollected` | scripts/gen-config-catalog.ts:524-577 | every member path that the schema declares, at any depth of aliases, objects, arrays and refinements, is collected in print, on cyclic aliases too |
| `SchemaWalk.CollectedPathsDeclared` | scripts/gen-config-catalog.ts:524-577 | every collected key is the print of a path the schema declares |
| `SchemaWalk.SchemaRoundTripsIffClean` | scripts/gen-config-catalog.ts:524-577 | all declared paths of a schema survive printing and parsing if and only if its keys hold no dot and do not end in brackets |
| `SchemaWalk.KeysAreDeclaredPaths` | scripts/gen-config-catalog.ts:313-326 | on a clean schema the collected keys are, parsed, exactly the declared paths |
| `SchemaWalk.ReportIsDefinite` | scripts/gen-config-catalog.ts:870-874 | where the types have only property signatures written without quotes and readonly as the only operator, a reported key of a clean schema is a declared path that no reading of the type declarations admits |
| `SchemaWalk.ReportedIffAbsent` | scripts/gen-config-catalog.ts:870-874 | where the path of a key enters no declaration twice with the same number of steps left, a key is reported exactly when it is a declared path of the clean schema that no reading of the plain types admits |
| `SchemaWalk.QuotedKeyReported` | scripts/gen-config-catalog.ts:870-874 | a concrete clean schema, an object with one quoted key, and a concrete interface that declares the key in quotes: the key is reported |
| `SchemaCoverage.ComposedExactly` | scripts/gen-config-catalog.ts:579-588 | the composed packages are exactly those that an intersection met in the schema names, through refinements, inline parts and names, cyclic ones too |
| `SchemaCoverage.SilentExactly` | scripts/gen-config-catalog.ts:545-612 | the walk reports nothing if and only if it sees through all it meets: no property without a plain key, no foreign part, no unknown name, no chain without a base call, nothing but calls and names, and no name inside itself |
| `ComposedKeys.ComposedFold.FoldComposed` | scripts/gen-config-catalog.ts:847-861 | the recursion with its shared set ends on cyclic compositions, gives the keys of each newly met package once, and lists the composed names that are no packages |
| `ComposedKeys.ComposedIsLeastClosed` | scripts/gen-config-catalog.ts:847-861 | what a schema composes in turn is the least set of names that holds its package and, with each package, all that it composes |
| `ComposedKeys.CheckKeys` | scripts/gen-config-catalog.ts:842-877 | a key is reported exactly when it is missing from the declared type and some package composed in turn collected it; a name is reported exactly when it is composed in turn and no package has it |
| `ComposedKeys.ReportedIffDeclaredAndAbsent` | scripts/gen-config-catalog.ts:842-877 | over clean schemas and plain types, where the path of the key enters no declaration twice with the same number of steps left: a key is reported if and only if the schema, or one it composes through any number of packages, declares it and no reading of the type admits it |
| `HelpPrefetch.StepValid` | scripts/gen-cli-help.ts:104-147 | every atomic step keeps the slot accounting, the grant order, the one read per task and the one answer per prefetched read |
| `HelpPrefetch.SlotsSafeAndFair` | scripts/gen-cli-help.ts:104-133 | in every interleaving the slots held equal the counter and stay within the limit, a waiter implies a full pool, and slots are granted in the order the reads were started |
| `HelpPrefetch.NoReadBeginsAfterAbort` | scripts/gen-cli-help.ts:120-131 | once aborted, no read ever begins, whatever is requested or resumed afterwards |
| `HelpPrefetch.NothingRunsAfterClose` | scripts/gen-cli-help.ts:143-146 | close resolves only after every read started before it has settled, and then none of them runs again |
| `HelpPrefetch.RequestAnswered` | scripts/gen-cli-help.ts:134-141 | in every run the first request for prefetched arguments is answered by the last read prefetched for them and starts none; each later one, and one for other arguments, starts a read for its own arguments |
| `HelpPrefetch.AnswersAsRequested` | scripts/gen-cli-help.ts:119-141 | in every run the task that answers a request was started for the arguments requested |
| `HelpPrefetch.SettlesAsRead` | scripts/gen-cli-help.ts:119-131 | in every run a task is fulfilled exactly when its own read was, and only an abort rejects a task without its read |
| `HelpPrefetch.StepsAreBounded` | scripts/gen-cli-help.ts:104-133 | without new requests only boundedly many steps are left, in any order |
| `HelpPrefetch.UnsettledCanProceed` | scripts/gen-cli-help.ts:104-133 | while a task is unsettled, some task that holds a slot can step |
| `HelpPrefetch.AllSettleEventually` | scripts/gen-cli-help.ts:104-133 | if running reads settle, all tasks settle |
| `HelpPrefetch.PrefetchedHelpReader.Create` | scripts/gen-cli-help.ts:95-133 | exactly when the concurrency is a safe integer of at least one, a reader that has started its prefetched reads in the given order and keeps the last one for each argument list; otherwise the error |
| `HelpPrefetch.PrefetchedHelpReader.Start` | scripts/gen-cli-help.ts:119-132 | starting a read takes a free slot or queues behind every earlier task |
| `HelpPrefetch.PrefetchedHelpReader.ReleaseSlot` | scripts/gen-cli-help.ts:114-118 | a released slot goes to the oldest waiter without changing the counter, or is freed |
| `HelpPrefetch.PrefetchedHelpReader.ReadHelp` | scripts/gen-cli-help.ts:135-141 | a kept read is served once, another request starts a read, and the task returned reads the requested arguments |
| `HelpPrefetch.PrefetchedHelpReader.Resume` | scripts/gen-cli-help.ts:121-125 | a task with its slot calls read with the arguments it was started for, or rejects after the abort |
| `HelpPrefetch.PrefetchedHelpReader.ReadSettled` | scripts/gen-cli-help.ts:125-128 | a settled read passes its slot on, whether it was fulfilled or rejected |
| `HelpPrefetch.PrefetchedHelpReader.Close` | scripts/gen-cli-help.ts:142-146 | closing aborts and waits for the reads started so far |
| `HelpPageGraph.AliasSound` | scripts/gen-cli-help.ts:52-58 | recording an alias, on cyclic page graphs too, keeps the pages, their arguments and children, never records an invocation twice, and records this one |
| `HelpPageGraph.VisitInduction` | scripts/gen-cli-help.ts:160-172 | what the steps of a visit carry from one to the next holds of every visit, which ends because each new page uses up a text |
| `HelpPageGraph.VisitSound` | scripts/gen-cli-help.ts:160-172 | a visit records its own call on the page of its text, keeps one page per text, duplicate-free invocations, and children that show what their commands print |
| `HelpPageGraph.VisitCompletes` | scripts/gen-cli-help.ts:170-171 | a visit leaves only the pages on its path without a child for every listed command |
| `HelpPageWalks.VisitRecordsWalks` | scripts/gen-cli-help.ts:52-58 | a visit whose own call is a walk of the page graph records walks only |
| `HelpPageClosure.AliasClosed` | scripts/gen-cli-help.ts:49-58 | below everything on the path, alias recording continues each invocation on every child and touches nothing above |
| `HelpPageClosure.VisitClosed` | scripts/gen-cli-help.ts:160-172 | on a page graph without a cycle a visit leaves every page outside the path with all its invocations continued below |
| `HelpPageReference.PagesAreReachableTexts` | scripts/gen-cli-help.ts:156-176 | one page for exactly the texts that walks from the top calls reach; each shows what its arguments print, without a duplicate invocation, and has as children exactly the pages its commands lead to |
| `HelpPageReference.EveryReadIsRecorded` | scripts/gen-cli-help.ts:160-174 | every call that was read, at the top or for a command of a page, is recorded on the page of its text |
| `HelpPageReference.RecordedIsWalk` | scripts/gen-cli-help.ts:52-58 | every recorded invocation spells a walk of the page graph from a top call to its page |
| `HelpPageReference.RecordsEveryWalkIffAcyclic` | scripts/gen-cli-help.ts:49-58 | the recorded invocations are exactly the walks if and only if the page graph has no cycle |
| `HelpPageRecords.AliasRecords` | scripts/gen-cli-help.ts:49-58 | on every page graph, recording an alias adds exactly the walks from it over pages that are new to the path, up to the last one, as far as they were not recorded |
| `HelpPageRecords.VisitRecords` | scripts/gen-cli-help.ts:160-172 | on every page graph a visit records exactly what its call adds |
| `HelpPageRecords.RecordedExactly` | scripts/gen-cli-help.ts:156-176 | on every page graph, cyclic or not, the recorded invocations are exactly those of walks from a top call over different pages, up to the last one, through calls that no earlier top call recorded |
| `HelpPageRecords.AliasReachesChildren` | scripts/gen-cli-help.ts:52-58 | on every page graph, an alias that is new to a page off the path is recorded, with the name of each child, on the page of that child |
| `HelpPageRecords.TopReachesCommands` | scripts/gen-cli-help.ts:156-176 | a top call whose text has a page that did not record it is followed to every command of that page |
| `HelpPageRecords.SpelledWords` | scripts/gen-cli-help.ts:161 | an invocation is spelled as the launcher and its words, each behind a blank |
| `HelpPageReference.SuccessfulCallsCollect` | scripts/gen-cli-help.ts:156-176 | the collection fails only because some call does |
| `HelpPages.TopCalls` | scripts/gen-cli-help.ts:65-67 | the calls at the top are the launcher, the plugin command, and for each profile in turn its short and its explicit form |
| `HelpCollector.EveryProfileCalled` | scripts/gen-cli-help.ts:65-67 | sorting loses no profile: both forms of every profile are called, and the explicit form of no other word |
| `HelpCollector.Collector.AddAlias` | scripts/gen-cli-help.ts:52-58 | the recursion over page objects that point to each other, cyclically or not, ends and does to their contents what the specification says |
| `HelpCollector.Collector.AddBelow` | scripts/gen-cli-help.ts:57 | the loop over a page's children continues the alias on each of them in order |
| `HelpCollector.Collector.AddPage` | scripts/gen-cli-help.ts:168-169 | a text that no page shows gets a page with its invocation and no children |
| `HelpCollector.Collector.AdoptChild` | scripts/gen-cli-help.ts:171 | a command's page becomes a child; a known name keeps its place |
| `HelpCollector.Collector.Visit` | scripts/gen-cli-help.ts:160-172 | a visit of one call updates the page objects as the specification says, or rejects |
| `HelpCollector.Collector.VisitCommands` | scripts/gen-cli-help.ts:170-171 | the loop over a new page's commands visits each and adopts its page |
| `HelpCollector.Collector.CollectCliHelp` | scripts/gen-cli-help.ts:156-176 | visiting the top calls in order leaves the pages of the specified collection, or rejects when it fails |
| `ArtifactDigest.ReadsStream` | scripts/client-build-environment.ts:379-385 | reading back the bytes fed to the hash gives the whole list of paths and contents, whatever they hold |
| `ArtifactDigest.StreamRead` | scripts/client-build-environment.ts:379-385 | only streams of framed artifacts read back |
| `ArtifactDigest.StreamDetermines` | scripts/client-build-environment.ts:379-385 | two different artifact lists never feed the hash the same bytes |
| `ArtifactDigest.Feed` | scripts/client-build-environment.ts:380-384 | four updates feed a path and a content, each behind its decimal length and a colon; the bytes are spelled out |
| `ArtifactDigest.StreamConcatenates` | scripts/client-build-environment.ts:379-385 | what is fed for a list is what is fed for its artifacts one after the other, each spelled out |
| `ArtifactDigest.SortedPathsAre` | scripts/client-build-environment.ts:372-378 | the digested paths are the kept ones of the listing, each once, in order |
| `ArtifactDigest.ClientArtifactDigest` | scripts/client-build-environment.ts:372-387 | the digest of the kept paths in code unit order, with their number; an error when there is none |
| `ArtifactDigest.RecordMatches` | scripts/client-build-environment.ts:362-367 | the record is accepted exactly when count and hash of the current artifacts equal it |
| `ArtifactDigest.RecordAcceptsSameArtifacts` | scripts/client-build-environment.ts:362-387 | up to a collision of the hash, a record is accepted exactly when the artifacts are those it was made from |
| `Decimals.ValueOfDecimal` | scripts/client-build-environment.ts:381 | the decimal spelling of a length reads back as that length |
| `Decimals.DigitRunOf` | scripts/client-build-environment.ts:381-383 | a length is told from the colon behind it |
| `StageSupervisor.StepValid` | scripts/dev-web.ts:250-282 | every step keeps, for each stage added before the stop, the deliveries of the rounds so far |
| `StageSupervisor.EscalatesInOrder` | scripts/dev-web.ts:262-273 | each stage added before the stop receives a prefix of requested signal, SIGTERM, SIGKILL in that order, each only after outliving every earlier grace period |
| `StageSupervisor.StopWaitsForStages` | scripts/dev-web.ts:262-273 | in every run that resolves, each stage added before the last block of the stop has exited, also one added during a grace period |
| `StageSupervisor.LastBlockKills` | scripts/dev-web.ts:266-272 | such a stage that still runs when the last block has begun was sent SIGKILL last |
| `StageSupervisor.SurvivorHasWholePlan` | scripts/dev-web.ts:262-272 | a stage added before the stop that still runs in the last block has received exactly the requested signal if any, SIGTERM unless that was requested, and SIGKILL |
| `StageSupervisor.NothingLeftResolves` | scripts/dev-web.ts:267 | a stop that finds no live stage before its last block resolves at once and signals nobody |
| `StageSupervisor.UnresolvedCanProceed` | scripts/dev-web.ts:262-282 | a stop that has not resolved is never stuck: the timer, an exit or a callback can move it |
| `StageSupervisor.ReportsExitsBeforeStop` | scripts/dev-web.ts:250-256 | an exit is reported exactly when its callback ran before any stop, with its code |
| `StageSupervisor.StepsAreBounded` | scripts/dev-web.ts:262-282 | while no stage is added and no stop is called, only boundedly many steps are left, in any order |
| `StageSupervisor.StopResolvesEventually` | scripts/dev-web.ts:262-282 | from every state of a stop, some run of signals, time and exits resolves it |
| `StageSupervisor.LateStageIsMissed` | scripts/dev-web.ts:266-273 | from every state in which the last block has begun, some run resolves the stop with a newly added stage running and never signalled |
| `StageSupervisor.AwaitedIffBeforeLastBlock` | scripts/dev-web.ts:266-273 | a new stage has exited whenever the stop resolves, in every run, if and only if it is added before the last block of the stop |
| `StageSupervisor.Supervisor.Track` | scripts/dev-web.ts:250-256 | a stage added is live until its exit |
| `StageSupervisor.Supervisor.OnExit` | scripts/dev-web.ts:252-255 | an exit removes the stage and is reported unless a stop began |
| `StageSupervisor.Supervisor.Kill` | scripts/dev-web.ts:268 | the loop over the live stages, in whatever order, delivers one signal to each that still runs, to each stage the one signal that the round calls for |
| `StageSupervisor.Supervisor.RequestStop` | scripts/dev-web.ts:262-267 | a stop without live stages resolves at once, otherwise its first signal is sent |
| `StageSupervisor.Supervisor.Round` | scripts/dev-web.ts:266-272 | one round of the escalation, or the final SIGKILL and the wait for all |
| `StageSupervisor.Supervisor.OnGraceElapsed` | scripts/dev-web.ts:275-282 | the timer moves the stop to its next round |
| `StageSupervisor.Supervisor.OnAwaitedExited` | scripts/dev-web.ts:275-282 | the exit of every awaited stage moves the stop on |
| `ForkDiagnostics.FlagsTell` | scripts/coverage-fork-diagnostics.ts:12-78 | the flags of a trace: never both, an exit is expected exactly when a stop came before any worker error, an error counts exactly when it came after a start and before any stop |
| `ForkDiagnostics.RequestTells` | scripts/coverage-fork-diagnostics.ts:50-65 | the remembered request is the latest run or collect request that has not finished |
| `ForkDiagnostics.ExitReportedExactly` | scripts/coverage-fork-diagnostics.ts:20-79 | after a start an exit is reported exactly when no stop preceded it or a worker error preceded the first stop, with the latest unfinished request |
| `ForkDiagnostics.WholeTraceReported` | scripts/coverage-fork-diagnostics.ts:20-79 | over any trace the reports are exactly, in order, one per start for each exit that no orderly stop explains, with the request open at that exit |
| `ForkDiagnostics.ReportsNameRequest` | scripts/coverage-fork-diagnostics.ts:20-34 | each report of an unexplained exit carries its code and signal and the worker and files of the open request, or neither worker nor files without one; one report for each start |
| `ForkDiagnostics.DiagnosticForkWorker.Start` | scripts/coverage-fork-diagnostics.ts:43-48 | the listeners are attached once the process is up |
| `ForkDiagnostics.DiagnosticForkWorker.Send` | scripts/coverage-fork-diagnostics.ts:50-54 | a run or collect message is remembered; a stop message expects the exit unless the worker errored |
| `ForkDiagnostics.DiagnosticForkWorker.Deserialize` | scripts/coverage-fork-diagnostics.ts:57-65 | a finished response clears the request |
| `ForkDiagnostics.DiagnosticForkWorker.ObserveError` | scripts/coverage-fork-diagnostics.ts:35-40 | an error counts only when no exit is expected |
| `ForkDiagnostics.DiagnosticForkWorker.Stop` | scripts/coverage-fork-diagnostics.ts:67-78 | a stop expects the exit and detaches the exit listener, unless the worker errored |
| `ForkDiagnostics.DiagnosticForkWorker.ReportExit` | scripts/coverage-fork-diagnostics.ts:22-34 | an attached listener reports an exit that was not expected |
| `GitBatch.GitHeaderAnnounces` | scripts/benchmark-npm-resolution.ts:160-166 | a header as git prints it announces exactly its size, whatever the object id and kind |
| `GitBatch.HeaderSays` | scripts/benchmark-npm-resolution.ts:159-164 | what any header line says: it reports a missing object exactly when it ends so, otherwise announces a size exactly when its third field begins with a numeral of a safe value that is not negative, and else gives none |
| `GitBatch.EntryIsRead` | scripts/benchmark-npm-resolution.ts:157-169 | which of the four errors an entry gives, or its slice, told from the bytes at the offset |
| `GitBatch.FailsAfter` | scripts/benchmark-npm-resolution.ts:156-169 | the error of the first entry that fails is the error of the whole |
| `GitBatch.SlicesApart` | scripts/benchmark-npm-resolution.ts:156-172 | on any output, accepted contents lie in bounds and no two of them share a byte |
| `GitBatch.ReadsStream` | scripts/benchmark-npm-resolution.ts:156-172 | a printed stream of well-formed entries reads back wherever it lies and whatever follows it |
| `GitBatch.AcceptedIffPrinted` | scripts/benchmark-npm-resolution.ts:148-172 | an output is accepted exactly when it begins with one well-formed entry per path, and what is read are their contents |
| `GitBatch.ReadNext` | scripts/benchmark-npm-resolution.ts:157-170 | one round of the loop: the entry of one path, or the error of that path |
| `GitBatch.ReadFiles` | scripts/benchmark-npm-resolution.ts:154-172 | the loop with its running offset reads what the specification reads, as decoded texts, into a map in which a later path replaces an earlier equal one |
| `GitBatch.ReadGitFiles` | scripts/benchmark-npm-resolution.ts:148-173 | the same for the header grammar of the original |
| `GitBatch.ReadsWhatGitPrints` | scripts/benchmark-npm-resolution.ts:148-172 | from what git prints for objects exactly their content bytes are cut, even when these hold newlines or header-like text |
| `GitBatch.TextsOfWhatGitPrints` | scripts/benchmark-npm-resolution.ts:148-173 | the result of the reader on what git prints holds, for each path and no other, the decoded text of its content, the later one for a path asked for twice |
| `BodyStripping.CutsAreOutermostBodies` | scripts/cordis-core-api.ts:312-325 | there is a cut for every outermost function-like node with a body, and no other |
| `BodyStripping.CutsApart` | scripts/cordis-core-api.ts:312-325 | because the visit stops at each body, the cuts lie in order inside the node and no two overlap |
| `BodyStripping.SortingReverses` | scripts/cordis-core-api.ts:328 | sorting by descending start reverses the order of the visit |
| `BodyStripping.Cutter.Visit` | scripts/cordis-core-api.ts:312-325 | the recursive visit pushes the cuts of its subtree in order |
| `BodyStripping.CutAll` | scripts/cordis-core-api.ts:326-333 | cutting by descending start on the changing text equals one simultaneous left-to-right replacement on the original text |
| `BodyStripping.StripBodies` | scripts/cordis-core-api.ts:310-335 | the stripped text is the original with every cut replaced at once, and the cuts do not overlap |
| `BodyStripping.KeptIffEmpty` | scripts/cordis-core-api.ts:330-332 | a cut changes nothing exactly when it is empty |
| `BodyStripping.BareSignatureKeepsBody` | scripts/cordis-core-api.ts:319-320 | a node of a declaration with neither type nor parameters stands in the stripped text with its body |
| `BodyStripping.BodyRemovedIff` | scripts/cordis-core-api.ts:319-332 | the body, with white space before it, is exactly what a cut removes if and only if the signature has a type or a parameter and no brace stands between it and the body |
| `BodyStripping.StrippedInPlace` | scripts/cordis-core-api.ts:326-333 | the stripped declaration is its own text with, in the place of each outermost function-like node, what its cut leaves, the text around them kept |
| `BodyStripping.EntryIsOutermost` | scripts/cordis-core-api.ts:312-325 | these nodes are exactly the function-like ones with a body that no other such node encloses |
| `BodyStripping.StrippedAround` | scripts/cordis-core-api.ts:326-333 | each of them is stripped on its own, between the stripped text before it and behind it |
| `BodyStripping.StrippedIffCutAtBodies` | scripts/cordis-core-api.ts:310-335 | after every round of the loop the text of the declaration is the original without the last bodies and the white space before them, if and only if every outermost function-like node has a type or a parameter and no brace before its body |
| `BodyStripping.StrippedTextIff` | scripts/cordis-core-api.ts:310-335 | the final text is the declaration without its bodies if and only if that holds, unless a bare signature and an early brace come together |
| `CancellingCuts.CutsMayCancel` | scripts/cordis-core-api.ts:310-335 | a concrete namespace in which they do: two wrong cuts give the text without the bodies |
| `BodyStripping.BraceInCommentIsCutAt` | scripts/cordis-core-api.ts:330-332 | a concrete class whose method is cut inside its comment |
| `BodyStripping.SignatureStays` | scripts/cordis-core-api.ts:319-332 | a node of a declaration with no brace before its body stands in the stripped text as its signature and the text behind it without trailing white space |
| `BodyStripping.PartsStay` | scripts/cordis-core-api.ts:319-320 | whatever is cut, every parameter and the return type of a node stay in the stripped text, with all before them |
| `CandidateDiscovery.InstallsMeans` | scripts/benchmark-next-package-dependency.ts:148-153 | a published package installs its dependencies, its optional dependencies and its peers not marked optional, as far as they are published |
| `CandidateDiscovery.ReachedPackages` | scripts/benchmark-next-package-dependency.ts:140-157 | the queue with its cursor ends on cyclic graphs and reaches exactly the packages at the end of a walk of published packages from the target, each once |
| `CandidateDiscovery.DiscoveredIsLeastClosed` | scripts/benchmark-next-package-dependency.ts:140-157 | what is reached is the least set that holds the target and, with a package, every published package it installs |
| `CandidateDiscovery.CandidateMeans` | scripts/benchmark-next-package-dependency.ts:158-164 | a candidate is a release package outside the policy whose manifest has a peer other than Cordis |
| `CandidateDiscovery.DiscoverBenchmarkCandidates` | scripts/benchmark-next-package-dependency.ts:134-165 | the reached candidates, each once, in code unit order |
| `MapConcurrent.StepValid` | scripts/benchmark-next-package-dependency.ts:187-197 | every event keeps: each index below the position was used exactly once, by a result, a worker or a skip |
| `MapConcurrent.EachIndexOnce` | scripts/benchmark-next-package-dependency.ts:187-197 | in every interleaving each index is taken by at most one worker, and an index with a result by none any more |
| `MapConcurrent.ResultsOfAllEnded` | scripts/benchmark-next-package-dependency.ts:182-199 | once all workers ended without a failure, the results are exactly those of the defined values with fewer undefined ones before them than there are jobs, in whatever order operations settled |
| `MapConcurrent.SettledStays` | scripts/benchmark-next-package-dependency.ts:187-199 | an operation that succeeds gives the result of its own index, whatever happens afterwards, and no more run at once than there are jobs |
| `MapConcurrent.EveryValueMapped` | scripts/benchmark-next-package-dependency.ts:182-199 | with at least one job and no undefined value, every value has its result |
| `MapConcurrent.Mapping.TakeNext` | scripts/benchmark-next-package-dependency.ts:188-192 | a worker takes the shared position and advances it, stops at an undefined value, or finishes |
| `MapConcurrent.Mapping.Settled` | scripts/benchmark-next-package-dependency.ts:193 | a settled operation stores its result under its own index and the worker goes on |
| `InstallationCheck.ReadManifests` | scripts/gen-official-bundle-catalog.ts:22-36 | the manifest map is built exactly when no name occurs twice, and a package then needs exactly what its three runtime sections name; otherwise a duplicate is named |
| `InstallationCheck.Check.CheckInstallation` | scripts/gen-official-bundle-catalog.ts:37-43 | the search ends on cyclic graphs; a failure names an on-demand provider that is needed, success leaves everything visited searched, needed and harmless |
| `InstallationCheck.AdmitCatalog` | scripts/gen-official-bundle-catalog.ts:20-45 | the check passes exactly when the list is non-empty and duplicate-free, the installation has a manifest, and no on-demand provider is reachable from it |
| `InstallationCheck.NothingNeeded` | scripts/gen-official-bundle-catalog.ts:37-45 | a searched set without providers holds everything the installation needs |
| `AliasRegion.PlaceMeans` | scripts/gen-tsconfig-paths.ts:186-190 | the region is found exactly when both markers occur and the first end does not come before the first begin |
| `AliasRegion.MarkersApart` | scripts/gen-tsconfig-paths.ts:33-34 | no end marker can start anywhere on a begin marker, not even one that runs beyond it |
| `AliasRegion.CleanRewrite` | scripts/gen-tsconfig-paths.ts:185-192 | a body without an end marker leaves the text before the region, the text behind it, and the place of the region as they were |
| `AliasRegion.RewriteWrites` | scripts/gen-tsconfig-paths.ts:185-192 | a region is written exactly when both markers occur and the first end does not come before the first begin, and is then the begin marker, the body on its lines and the end marker, between the text before and behind |
| `AliasRegion.WriteRegionTwice` | scripts/gen-tsconfig-paths.ts:185-192 | writing a second body over a first is writing it over the original if and only if the first holds no end marker |
| `AliasRegion.RenderAliases` | scripts/gen-tsconfig-paths.ts:167-176 | the loop renders one line for each alias that is not mapped by hand, joined without a trailing comma |
| `AliasRegion.EmittedOrByHand` | scripts/gen-tsconfig-paths.ts:167-176 | every alias is emitted or mapped by hand, and none is both |
| `AliasRegion.EmittedInOrder` | scripts/gen-tsconfig-paths.ts:167-176 | aliases are emitted in their order, as often as they are listed |
| `AliasRegion.RenderedLines` | scripts/gen-tsconfig-paths.ts:170-176 | line by line, the rendered text holds each emitted alias as a JSON member, all but the last followed by a comma |
| `AliasRegion.EndInRendered` | scripts/gen-tsconfig-paths.ts:167-176 | the rendered lines hold an end marker only when a name of an emitted alias does |
| `AliasRegion.OutsideStays` | scripts/gen-tsconfig-paths.ts:199-208 | a clean body leaves the text from which hand-written keys are read as it was |
| `AliasRegion.EndInsideLine` | scripts/gen-tsconfig-paths.ts:167-176 | no end marker starts a line of the rendered aliases |
| `AliasRegion.GeneratingIsFixedIff` | scripts/gen-tsconfig-paths.ts:185-227 | generating again from generated text gives the same text if and only if no name of an emitted alias, as it is quoted, holds an end marker |
| `AliasRegion.EndMarkerNameMoves` | scripts/gen-tsconfig-paths.ts:185-227 | a concrete failing package: one whose declared name ends in the end marker |
| `PageRegion.AroundRegion` | scripts/gen-cordis-catalog.ts:1098-1107 | a spliced page is its own lines before and behind the markers, which hold no marker, around any region |
| `PageRegion.ReplacedIffEnclosed` | scripts/gen-cordis-catalog.ts:1097-1107 | a page is spliced exactly when it holds each marker once, the begin before the end, and what stands between is then replaced |
| `PageRegion.ReplacedTwice` | scripts/gen-cordis-catalog.ts:1097-1107 | on lines: replacing twice is replacing by the second if and only if the first region starts with the begin marker, ends with the end marker and holds each once |
| `PageRegion.ExtraLineSurvives` | scripts/gen-cordis-catalog.ts:1097-1107 | a concrete region that holds each marker once, with a line behind the end marker that survives the next splice |
| `PageRegion.SpliceTwice` | scripts/gen-cordis-catalog.ts:1097-1107 | splicing a second region over a first is splicing it into the original page if and only if the first starts with the begin line, ends with the end line and holds each once; holding each marker once is not enough |
| `PageRegion.SpliceKeepsOutside` | scripts/gen-cordis-catalog.ts:1097-1107 | the lines around the region stay as they were |
| `Text.SplitJoin` | scripts/gen-cordis-catalog.ts:1098 | splitting joined lines gives the lines back |
| `Text.JoinSplit` | scripts/gen-cordis-catalog.ts:1098-1107 | joining the lines of a text gives the text back |
| `Sorting.CodeUnitsDecide` | scripts/benchmark-next-package-dependency.ts:165 | in code unit order a string comes before its extensions, and otherwise the first difference decides |

## Left out

- Rounding of double weights: loads are exact reals, so equal sums of the model may differ in the last bits.
- Process spawning, file I/O, network, JSON parsing of reports and records, and TypeScript parsing: their results are inputs.
- Reading, merging and persisting durations, and the text of generated configurations and pages.
- Which missing blob, rejected report or failed command is named: the coordinator says which check failed.
- Type declarations merged over several files or statements under one name: an environment has one declaration per name.
- The record of entered declarations is threaded through the type walk as a value instead of a shared set, and the walk carries fuel; `TypeTermination` shows when enough fuel exists.
- TypeTermination.WalkEndsSoundly: its growth condition is sufficient only; it is exact where `TypeGrowth.AllWalksEndIffBounded` applies. A condition that is exact for all environments would have to follow each path through each declaration.
- Schema aliases are unique names with their schemas: files, imports under other names and the shadowing of names are resolved before.
- Aliases inside the value of a property contribute no nested paths, here as in the original.
- Index signatures over numbers, symbols or template strings, which admit some keys only: an index signature of the model is one over strings.
- Interfaces that extend a type alias, and paths of several names, in the exact condition for heritage: there `TypeMisreadings.InterfaceRightIff` relates the answer to that of the heritage.
- Folding composed packages: the order and the number of the reports is not stated, only which keys and names are reported.
- TypeExactness.PathAnsweredExactly: heritage that names aliases, and paths that enter a declaration twice with the same number of steps left, are outside its condition; there soundness (`TypeLookup.DeclLookupSound`) holds.
- HelpPageRecords.RecordedExactly: the names of commands hold no blank, as the pattern that lists them has it.
- Promise scheduling below an await: a callback runs as one step at any time after its promise settled.
- Two concurrent calls of `StageSupervisor.stop`: the first one is followed.
- Parsing of the help text itself: a call gives a text and its commands, LF line ends, or fails; the order in which pages are listed is not modelled.
- Help that prints another text when it is read again: a call's text is a function of its arguments.
- Help reads that print one of infinitely many texts, for which the original may not end.
- The part of a record that is not the artifact comparison: schema checks and the public environment.
- White space of more than one byte before a size in a git header.
- The remaining checks of the official catalog: locales, icons and titles of its entries.
- Collecting the package aliases from directories, and the coverage report of unmapped packages.
- Partition problems of documentation pages, the rendered Markdown, and the choice of markers.
- Stack depth of the recursive walks.
