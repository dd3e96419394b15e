# A verified model of Clarinet's protocols, worklists, caches and codecs

Clarinet is a toolchain for Clarity smart contracts. This project models, in Dafny, the parts of it in which
several steps have to fit together, and proves what these parts promise. Code that updates state is modelled by
methods and classes that are proved against functions of the old state; laws about these functions are lemmas.
`dafny verify dfyconfig.toml` checks everything.

| module | what it models |
|---|---|
| `ContractOrder` | ordering contracts by their dependencies: the graph, its depth-first walk, the search for cycles |
| `Requirements` | the dependency detector on one contract, and the worklist that discovers a project's requirements |
| `DeploymentPlan` | the plan generator: both orderings, the epoch map, batches, all four networks |
| `DeploymentCases` | plans in which something that a contract needs is published after it |
| `SessionCache` | running a plan on a prepared session that is kept between runs |
| `AstCache` | parsed contracts kept between builds, builds given up midway, the editor's builds |
| `DebugFraming`, `DebugRelay` | the `Content-Length` framing of the Debug Adapter Protocol's base protocol, and the adapter's relay |
| `PlanEditing` | taking custom transactions out of a plan and merging them back |
| `EnvAnnotation`, `EnvSimnet` | recognising `#[env(simnet)]`, and stripping the annotated code |
| `DotSegments` | removing `/./` from a path by repeated replacement |
| `Stacking` | when devnet posts stacking orders, with machine arithmetic |
| `SnapshotImages` | the images a snapshot was built with, and how they are displayed |
| `Snapshot`, `SnapshotSafety` | devnet snapshots in a cache, over any sequence of starts, crashes and new snapshots |
| `KeyMemo` | the bounded memo of derived keys, under any interleaving of callers |
| `CallArgs` | byte buffers that crossed JSON as maps from index to byte |
| `SbtcFunding` | topping accounts up to their configured sBTC |
| `Common` | values that several modules share |

## What the code does not do

In these places the code does less than its comments say or a caller may expect. The model follows the code, and a
lemma says exactly when the expectation is met; others show inputs on which it is not.

- The requirement loop does not end when it is led to a contract that refers to something which one of its own, already
  loaded dependencies does not offer: it puts the contract back behind a dependency that is never missing.
  `FinishesIff` gives the exact condition under which it can end, `DanglingStaysQueued` the reason.
- On testnet an sBTC contract stays among the loaded contracts while it is analysed itself, and the detector records no
  dependencies for loaded contracts. `RecordedIsFollowed` says what is recorded then, `RequiredIsRecordedIff` when that
  is still everything required, and `AlwaysRetrievedHidesDependencies` when a contract's own dependencies are lost;
  `AlwaysRetrievedAloneIsNotClosed` shows a run whose result is not closed. As the order of publication follows the
  recorded dependencies, an sBTC contract may come before one that it needs: `ComesFirst` (proved in `DependencyOrder`)
  says exactly when it does, `HiddenByKeys` how that follows from the order of the ids, `HiddenIsFirstIff` that without
  it only an earlier epoch makes it certain, and `TestnetPublishesSbtcLate` is a plan in which it does not.
- On devnet the sBTC contracts are scheduled at epoch 3.0 behind the requirements. A requirement comes after the sBTC
  contract it needs exactly when its own epoch is later than 3.0, a project contract exactly when its epoch is 3.0 or
  later (`ComesFirst`); `DevnetPublishesSbtcLate` and `SbtcUserHasPlan` are a case.
- When a project contract has the id of a requirement, the requirement's publication uses the requirement's own epoch
  while the order was checked with the project's. `ComesFirst` gives the condition, `CollisionPublishesLate` a case.
- The key of a cached syntax tree does not contain the contract's id. `RightIff` and `RebuiltIff` say when a build over
  the cache is right all the same, `RenamedIff` and `SharedPathIff` what that means for a contract renamed in the manifest
  and for two contracts that share a file.
- Extraction treats the publication of a requirement as a custom transaction, and extracting and merging back is the
  identity only on settled plans: `RemergedIff`.
- Stripping loses a carriage return when two of them precede a line feed, or when the last line ends in one without a
  line feed: `StrippedLines`.
- When the PoX contract changes, the comment speaks of restacking the active orders; the code restacks all of them, also
  those whose first cycle is still to come (`TransitionStacksEarly`), and goes on extending on schedule, so that cycles
  which both reach are locked twice (`LocksAcrossChange`).
- A new snapshot may begin in a directory that is ready. A crash while the old data is removed then leaves the marker
  beside the rest, and the next start uses it: `RemovedMisleadsIff` says exactly when. It also goes on when the removal
  fails. If the marker was left, a crash during the first file makes the next start use half of it:
  `PartMisleadsIff`. If data was left, it becomes part of the new snapshot unless it is overwritten:
  `LeftoversMisleadIff`. `TroubleIff` shows that these steps, and no others, can make a later start use other data than
  the snapshot completed last was to have, `TroubleIsReached` that all of them can happen, and `UsedSnapshotIsComplete`
  that nothing goes wrong without them.
- Image urls in which the text between two urls stands a second time share a snapshot directory and a marker with other
  images, and only these do: `SharedIff`. Exactly such images can be given a snapshot that was built with others:
  `SafeIff`.
- An address listed with two targets may get both shortfalls. `EndsWithSum` says what it ends with, `EndsAtTargetIff`
  when an account ends with its target; `TwiceListedIsOverfunded` is a case in which it does not. And since a deposit is identified by address and target,
  an account that has spent what it was given is not topped up to the same target again: `OthersKeepTheirs`.

## Model

| member | source | states |
|---|---|---|
| ContractOrder.GraphWalker.SortDependenciesRecursion | components/clarity-repl/src/analysis/ast_dependency_detector.rs:943-960 | the depth-first walk from a node extends the order, in post-order and without repetition, by nodes that can be reached from it, and these lead only to nodes seen |
| ContractOrder.GraphWalker.GetSortedDependencies | components/clarity-repl/src/analysis/ast_dependency_detector.rs:934-941 | the order holds every node of the graph once, in post-order, and whatever the first nodes lead to before everything else |
| ContractOrder.GraphWalker.GetCyclingDependencies | components/clarity-repl/src/analysis/ast_dependency_detector.rs:962-991 | reports nothing exactly when the graph has no cycle, and else exactly the nodes from which a cycle can be reached |
| ContractOrder.AcyclicOrderIsTopological | components/clarity-repl/src/analysis/ast_dependency_detector.rs:934-960 | without cycles, the walk's order puts every contract after all its dependencies |
| ContractOrder.CyclesAreReachedAlike | components/clarity-repl/src/analysis/ast_dependency_detector.rs:326-372 | a node of the graph reaches a cycle exactly when the contract it stands for leads into a cycle of dependencies |
| ContractOrder.CyclingContracts | components/clarity-repl/src/analysis/ast_dependency_detector.rs:352-372 | the reported nodes, named, are exactly the contracts that lead into a cycle, and some contract is in one |
| ContractOrder.BuildGraph | components/clarity-repl/src/analysis/ast_dependency_detector.rs:317-350 | the graph has an edge for each dependency among the contracts, unless a contract's epoch is before its dependency's, which is named |
| ContractOrder.InvertedIff | components/clarity-repl/src/analysis/ast_dependency_detector.rs:331-343 | a dependency is too late exactly when it has an epoch after 2.0 and the contract has an earlier one or none |
| ContractOrder.NodesAreKeys | components/clarity-repl/src/analysis/ast_dependency_detector.rs:326-350 | so whatever the first contracts in key order lead to comes before everything else |
| ContractOrder.OrderContracts | components/clarity-repl/src/analysis/ast_dependency_detector.rs:313-380 | succeeds exactly when no epoch goes back along a dependency and there is no cycle; the result lists each contract once, after its dependencies, and otherwise key by key; each error names exactly its reason |
| Requirements.DetectIsTrue | components/clarity-repl/src/analysis/ast_dependency_detector.rs:246-311 | a contract that the detector accepts refers only to what there is and, unless it was loaded itself, gets its true dependencies; nothing else is ever recorded |
| Requirements.TrueDependenciesIff | components/clarity-repl/src/analysis/ast_dependency_detector.rs:486-498 | in the fields of the registry: a contract depends on those it names, and on those that it passes, as a principal literal, at a place where a function or trait that is there for it has a trait parameter |
| Requirements.DanglingIff | components/clarity-repl/src/analysis/ast_dependency_detector.rs:687-714 | a contract dangles exactly when a contract that there is does not offer it something that it refers to |
| Requirements.UnresolvedIsNew | components/clarity-repl/src/analysis/ast_dependency_detector.rs:687-714 | what the detector misses is neither loaded nor the contract itself, and is one of its dependencies, if no reference dangles |
| Requirements.StepKeepsInvariant | components/clarinet-deployments/src/lib.rs:1005-1166 | every turn of the loop looks only at followed contracts, forgets none, and records truly but for sBTC contracts on testnet |
| Requirements.StepProgresses | components/clarinet-deployments/src/lib.rs:1005-1166 | every turn on a contract without dangling reference makes the lexicographic measure smaller, re-enqueueing turns included |
| Requirements.RunKeepsInvariant | components/clarinet-deployments/src/lib.rs:988-1166 | the invariant holds at the end of every run |
| Requirements.RecordedIsFollowed | components/clarinet-deployments/src/lib.rs:1005-1166 | at the regular end, on every network, what is recorded lies between what is followed at least and at most, and is exactly that if no contract downloaded twice passes on one that it does not name |
| Requirements.RecordedIsRequired | components/clarinet-deployments/src/lib.rs:1005-1166 | at the regular end exactly the contracts reachable from the listed ones are recorded, with their true dependencies, if none of these is an sBTC contract on testnet |
| Requirements.RequiredIsRecordedIff | components/clarinet-deployments/src/lib.rs:1008-1022 | when sBTC contracts are required on testnet, everything required is recorded if and only if none that the loop is led to has a dependency that the loop is not led to otherwise |
| Requirements.FollowedIsRequired | components/clarinet-deployments/src/lib.rs:1005-1166 | whatever the loop is led to is required |
| Requirements.FinishesBetween | components/clarinet-deployments/src/lib.rs:1005-1166 | the loop can come to its regular end only if what it follows at least can be had and dangles nowhere, and does if that holds of what it follows at most |
| Requirements.FinishesIff | components/clarinet-deployments/src/lib.rs:1005-1166 | the loop can come to its regular end if and only if every contract it is led to can be had and no reference of one dangles, cycles or not |
| Requirements.FinishesIffRequired | components/clarinet-deployments/src/lib.rs:1005-1166 | the same of the required contracts, on every network, if none of them is an sBTC contract on testnet |
| Requirements.DanglingStaysQueued | components/clarinet-deployments/src/lib.rs:1147-1164 | a queued contract with a dangling reference is queued for ever |
| Requirements.AlwaysRetrievedHidesDependencies | components/clarinet-deployments/src/lib.rs:1010-1022 | dependencies of a contract that is downloaded although loaded are recorded truly if and only if it was not loaded or has none |
| Requirements.AlwaysRetrievedAloneIsNotClosed | components/clarinet-deployments/src/lib.rs:1010-1022 | listing only such a contract ends after one turn without any of its dependencies |
| Requirements.PushFront | components/clarinet-deployments/src/lib.rs:1157-1164 | pushing ids to the front one by one puts them there in reverse |
| Requirements.PushBack | components/clarinet-deployments/src/lib.rs:1139-1156 | pushing a set to the back, in any order, adds exactly its members |
| Requirements.Turn | components/clarinet-deployments/src/lib.rs:1005-1166 | one turn of the loop is one step of the model, or fails exactly when the head must be downloaded and cannot |
| Requirements.DiscoverRequirements | components/clarinet-deployments/src/lib.rs:988-1166 | ends with what the listed requirements lead to, if and only if all of that can be had; a failure names a contract that cannot |
| DeploymentPlan.AddTransactionToEpoch | components/clarinet-deployments/src/lib.rs:1644-1657 | the epoch map keeps, per epoch, exactly what has been scheduled, in order |
| DeploymentPlan.EarlierComesFirst | components/clarinet-deployments/src/lib.rs:1534-1552 | emission by epoch is stable: earlier epochs first, and the schedule's order within one |
| DeploymentPlan.BeforeIff | components/clarinet-deployments/src/lib.rs:1534-1552 | of two transactions the one comes first that has the earlier epoch or, in one epoch, was scheduled first, and only then |
| DeploymentPlan.ChunkedRoundTrip | components/clarinet-deployments/src/lib.rs:1541-1551 | the chunks of a list, joined, give the list back |
| DeploymentPlan.PlannedRoundTrip | components/clarinet-deployments/src/lib.rs:1539-1552 | all batches joined are the schedule sorted by epoch, and the batches of one epoch joined are exactly that epoch's list |
| DeploymentPlan.PlannedIsWellBatched | components/clarinet-deployments/src/lib.rs:1534-1552 | ids are positions, no batch is empty or over the limit, epochs never go back, and only the last batch of an epoch is not full |
| DeploymentPlan.BuildBatches | components/clarinet-deployments/src/lib.rs:1539-1552 | the loop over the epoch map gives these batches |
| DeploymentPlan.AddChunks | components/clarinet-deployments/src/lib.rs:1542-1551 | the inner loop appends one epoch's chunks, numbered on |
| DeploymentPlan.KeepIsDependenciesFirst | components/clarinet-deployments/src/lib.rs:1177-1190 | leaving contracts out of a dependency order leaves a dependency order of the others |
| DeploymentPlan.PublishedRequirementsWereRetrieved | components/clarinet-deployments/src/lib.rs:1192-1215 | a requirement that is to be published was downloaded, so that looking up its publication never panics |
| DeploymentPlan.FreshContractsAreTheProjects | components/clarinet-deployments/src/lib.rs:1509-1518 | ordered contracts that are not loaded are exactly the project's, so that taking one out never panics |
| DeploymentPlan.StagesAreDistinct | components/clarinet-deployments/src/lib.rs:1192-1259 | requirements, devnet's sBTC contracts and project contracts are disjoint: nothing is published twice |
| DeploymentPlan.DependencyOrder | components/clarinet-deployments/src/lib.rs:1168-1259 | for each kind of publisher and everything it truly needs, recorded or not, exactly when that is published first |
| DeploymentPlan.HiddenByKeys | components/clarinet-deployments/src/lib.rs:1008-1022 | of an sBTC contract on testnet and what it hides, the one that the first ids in order lead to comes first, within an epoch |
| DeploymentPlan.HiddenIsFirstIff | components/clarinet-deployments/src/lib.rs:1008-1022 | of two requirements the second of which hides its dependencies, the first precedes it in every order that the recorded dependencies allow if and only if its epoch is earlier |
| DeploymentPlan.DiscoveryIsRequired | components/clarinet-deployments/src/lib.rs:985-1166 | exactly the required contracts are discovered, with their true dependencies, if none is an sBTC contract on testnet |
| DeploymentPlan.Config.ProjectDependenciesIff | components/clarity-repl/src/analysis/ast_dependency_detector.rs:486-498 | the same of a project contract that is not loaded, for functions of the project and for what loaded contracts export |
| DeploymentCases.DevnetPublishesSbtcLate | components/clarinet-deployments/src/lib.rs:1217-1259 | every devnet plan for a requirement of epoch 3.0 that depends on an sBTC contract publishes it before that contract |
| DeploymentCases.SbtcUserHasPlan | components/clarinet-deployments/src/lib.rs:1217-1259 | and there is such a plan |
| DeploymentCases.TestnetPublishesSbtcLate | components/clarinet-deployments/src/lib.rs:1008-1022 | two sBTC contracts listed on testnet have a plan that publishes one before the other, which it needs |
| DeploymentCases.CollisionPublishesLate | components/clarinet-deployments/src/lib.rs:1477-1518 | a project contract under a requirement's id makes a plan that publishes the requirement after a contract that depends on it |
| DeploymentPlan.AllDependenciesFirst | components/clarinet-deployments/src/lib.rs:1508-1552 | away from devnet, without a project contract under a requirement's id, every published contract but an sBTC contract on testnet follows every published contract that it needs |
| DeploymentPlan.PublishedContracts | components/clarinet-deployments/src/lib.rs:1177-1259 | exactly which contracts are published |
| DeploymentPlan.PublishedInItsEpoch | components/clarinet-deployments/src/lib.rs:1192-1259 | every transaction is in the bucket of its contract's own epoch |
| DeploymentPlan.PlanRequirements | components/clarinet-deployments/src/lib.rs:985-1215 | the requirements to publish in dependency order; fails for want of a contract exactly when one they lead to cannot be had, and else only if they cannot be ordered |
| DeploymentPlan.OrderProject | components/clarinet-deployments/src/lib.rs:1475-1518 | exactly the project's contracts, dependencies first, if all contracts can be ordered, and else the reason why they cannot |
| DeploymentPlan.RefusedIff | components/clarity-repl/src/analysis/ast_dependency_detector.rs:313-380 | contracts can be ordered, without cycle and without an epoch that goes back, if and only if there is no reason to refuse |
| DeploymentPlan.PlannedHoldsExactly | components/clarinet-deployments/src/lib.rs:1192-1259 | in the fields of the configuration: which contracts a plan publishes, as what kind of transaction and in which epoch, the limit of a batch, and the dependencies of every contract |
| DeploymentPlan.GenerateDefaultDeployment | components/clarinet-deployments/src/lib.rs:758-1642 | on every network the plan publishes exactly the right contracts, once, in their epochs, by transactions of the right kind (emulated on simnet; elsewhere the project's own as contracts and all others as requirements), what they need first as stated, in well-formed batches, and both orderings exist; if there is none, a contract that the requirements lead to cannot be had or one of the orderings is refused, and the error says which |
| SessionCache.AdvancesOncePerBatch | components/clarinet-deployments/src/lib.rs:362-389 | a local run that does not panic advances the tip once per batch and once for an empty plan, a remote run once per batch |
| SessionCache.RunGoesThrough | components/clarinet-deployments/src/lib.rs:515-583 | whatever records the operations of a session, a run that does not panic has gone through the building of a local or remote session, the genesis, then batch by batch the tip, the epoch (4.0 without one) and the transactions in order, and the funding last; an empty plan counts as one batch, except for a remote session |
| SessionCache.RunResults | components/clarinet-deployments/src/lib.rs:537-583 | the results are those of the transactions, in order, and the session keeps its settings |
| SessionCache.RunPanicsIff | components/clarinet-deployments/src/lib.rs:544-553 | a run panics if and only if some transaction is one that its epoch's session panics on |
| SessionCache.SharesBaseIff | components/clarinet-deployments/src/lib.rs:440-495 | two local runs have one key exactly if they agree on settings, genesis and the first batch's epoch |
| SessionCache.Prepare | components/clarinet-deployments/src/lib.rs:362-388 | the prepared session of a local plan is a function of the cache key alone |
| SessionCache.Resume | components/clarinet-deployments/src/lib.rs:515-583 | resuming from a prepared session equals entering and executing every batch in turn, and panics when that does |
| SessionCache.BaseSessionCache.PreparedSession | components/clarinet-deployments/src/lib.rs:469-495 | a hit or a miss gives the session a fresh preparation gives; remote sessions are evicted and never kept; hits count exactly the answers from the cache |
| SessionCache.BaseSessionCache.RunDeploymentPlan | components/clarinet-deployments/src/lib.rs:459-467 | a run on the cache equals a run without one |
| SessionCache.RunAll | components/clarinet-deployments/src/lib.rs:459-510 | over every sequence of runs, some of which may panic midway, each result is the uncached one, and the hits are the repetitions of a key from one local run to the next |
| AstCache.Habits.MatchingEntryIsCold | components/clarinet-deployments/src/types.rs:178-214 | an entry that matches a contract holds what parsing the contract gives, if hashes tell the sources seen apart and paths keep their ids |
| AstCache.WarmIsCold | components/clarinet-deployments/src/lib.rs:1406-1473 | over good entries, trees, diagnostics, success flag and new entries are those of parsing anew |
| AstCache.ColdBuildIs | components/clarinet-deployments/src/lib.rs:1429-1473 | parsing anew succeeds if and only if every contract parses, and gives each contract its own result |
| AstCache.WarmSuccessIff | components/clarinet-deployments/src/lib.rs:1413-1473 | over any cache a build succeeds if and only if every result it takes or makes is a success |
| AstCache.SavedIff | components/clarity-lsp/src/common/backend.rs:47-112 | a save gives results if and only if both builds get to their end, and then each is a success if and only if all its contracts parse |
| AstCache.KeysAgreeIff | components/clarinet-deployments/src/lib.rs:1413-1416 | entries are told apart by path and environment, and by nothing else |
| AstCache.RightIff | components/clarinet-deployments/src/lib.rs:1413-1428 | a build over any cache gives what parsing anew gives if and only if every entry it takes holds what its contract parses as |
| AstCache.RebuiltIff | components/clarinet-deployments/src/lib.rs:1413-1428 | over the cache of an earlier build that is so if and only if every contract that gets another's entry, be it renamed or sharing a path, parses as that one did |
| AstCache.RenamedIff | components/clarinet-deployments/src/lib.rs:1413-1428 | after a renaming the build is right if and only if both names parse alike |
| AstCache.SharedPathIff | components/clarinet-deployments/src/lib.rs:1413-1428 | two contracts sharing a path, built twice, come out right if and only if they parse alike |
| AstCache.AstCacheRestoreGuard.TryReuse | components/clarinet-deployments/src/lib.rs:705-716 | takes the key out of the input cache, and hands the entry over if it matches |
| AstCache.AstCacheRestoreGuard.Commit | components/clarinet-deployments/src/lib.rs:724-728 | hands over all pending entries and disarms the guard |
| AstCache.AstCacheRestoreGuard.Drop | components/clarinet-deployments/src/lib.rs:730-736 | without a commit all pending entries go back to the input cache |
| AstCache.ParseAll | components/clarinet-deployments/src/lib.rs:1406-1473 | the loop gives what the specification over any cache says; what is pending is out of the input cache |
| AstCache.BuildAsts | components/clarinet-deployments/src/lib.rs:1400-1473 | a build over any cache, completed, given up or panicking at any point, gives that result or none, one entry per contract done, and leaves disjoint keys |
| AstCache.GoodBuild | components/clarinet-deployments/src/lib.rs:1400-1473 | over good entries it gives what parsing anew gives, and however it ends it leaves good entries |
| AstCache.DoneContractsAreKept | components/clarinet-deployments/src/lib.rs:686-736 | a build given up midway keeps an entry for every contract it got done |
| AstCache.EditorState.BuildAndCommit | components/clarity-lsp/src/common/backend.rs:47-112 | a save that fails in either environment leaves the editor's cache alone; one that succeeds adds the entries of both |
| AstCache.BuildAll | components/clarity-lsp/src/common/state.rs:930-998 | over every sequence of saves the results are those of cold builds |
| DebugFraming.StartIsStable | components/clarity-vscode/debug/debug.ts:10-33 | more input changes nothing about a header or frame that is already complete |
| DebugFraming.ExtractMessages | components/clarity-vscode/debug/debug.ts:6-36 | the loop ends on every buffer and gives the messages of the declarative reading, with the remainder |
| DebugFraming.ExtractMore | components/clarity-vscode/debug/debug.ts:6-36 | extracting from a buffer and then from its remainder with more input is extracting from all of it |
| DebugFraming.ExtractChunks | components/clarity-vscode/debug/debug.ts:80-91 | any cut of a stream into chunks gives the same messages and the same remainder |
| DebugFraming.RemainderIsIncomplete | components/clarity-vscode/debug/debug.ts:31-36 | what remains holds no complete message |
| DebugFraming.DecimalRoundTrip | components/clarity-vscode/debug/debug.ts:39-45 | the printed decimal length reads back as the number |
| DebugFraming.PrintedHeaderIsRead | components/clarity-vscode/debug/debug.ts:19-23 | a printed header has no carriage return and its length is found in it |
| DebugFraming.FirstBlankLine | components/clarity-vscode/debug/debug.ts:12-15 | the first blank line of a printed message is its header's own |
| DebugFraming.HeaderEndIs | components/clarity-vscode/debug/debug.ts:11-12 | in any input a header ends at the first blank line, and without one nowhere |
| DebugFraming.ContentLengthIs | components/clarity-vscode/debug/debug.ts:14-23 | its length is read where the field's name, in either case, is first followed by a digit |
| DebugFraming.ExtractSkips | components/clarity-vscode/debug/debug.ts:15-19 | a header without a length is skipped |
| DebugFraming.ExtractTakes | components/clarity-vscode/debug/debug.ts:21-33 | a body of that length is taken and gives its message, or none if it cannot be parsed; one that is not complete stays |
| DebugFraming.FramesAreExtracted | components/clarity-vscode/debug/debug.ts:6-45 | printed messages in front of anything are read back, all of them, in order |
| DebugRelay.RunExplained | components/clarity-vscode/debug/debug.ts:61-174 | at every moment of every run one history explains where each byte of the client and of the transport is, and what it says was seen are the messages completed before the hand-over |
| DebugRelay.TransportReadsTheClient | components/clarity-vscode/debug/debug.ts:94-174 | the transport reads the client's messages in order, less the initialize requests among those completed before the hand-over, however the stream is cut |
| DebugRelay.ClientReadsTheTransport | components/clarity-vscode/debug/debug.ts:67-92 | at every moment the client reads exactly the transport's messages in order and one answer for each initialize request completed before the hand-over, in order, and nothing else; message k is the transport's own with only its number set, or the answer made for that request, under number k + 1 |
| DebugRelay.ClientReadsNoGap | components/clarity-vscode/debug/debug.ts:65-92 | the seq values the client reads are 1, 2, 3 and so on, under every interleaving |
| DebugRelay.SidesOfMore | components/clarity-vscode/debug/debug.ts:67-92 | what is answered and what is relayed, of any two parts of an interleaving, is that of the whole (`SidesOfOne` says which a single message is) |
| DebugRelay.SeenMore | components/clarity-vscode/debug/debug.ts:137-150 | the same of the messages seen (`SeenOne`: a single one is answered if it is an initialize request, and else forwarded) |
| DebugRelay.SeenUntilHandOver | components/clarity-vscode/debug/debug.ts:132-173 | seen before the hand-over are the messages of the first events that hold a launch or attach request, or of all |
| DebugRelay.PossibleNext | components/clarity-vscode/debug/debug.ts:104-173 | the client can speak at any time, a transport connects once when one was asked for, and speaks only then |
| DebugRelay.FirstSelects | components/clarity-vscode/debug/debug.ts:150-166 | the first launch or attach request among the messages selects, and without one nothing is selected |
| DebugRelay.TransportIsSelected | components/clarity-vscode/debug/debug.ts:137-173 | a transport is selected exactly when a whole launch or attach request has arrived, by the first one |
| DebugRelay.Relay.AnswerInitialize | components/clarity-vscode/debug/debug.ts:67-78 | sends one answer under the next number |
| DebugRelay.Relay.OnData | components/clarity-vscode/debug/debug.ts:137-167 | one chunk before the hand-over does what the model's step does |
| DebugRelay.Relay.Replay | components/clarity-vscode/debug/debug.ts:94-102 | everything kept goes to the transport before any later input |
| DebugRelay.Relay.RelayOutput | components/clarity-vscode/debug/debug.ts:80-92 | one chunk of the transport does what the model's step does |
| DebugRelay.Serve | components/clarity-vscode/debug/debug.ts:61-176 | the adapter's state after any possible sequence of events is the model's |
| PlanEditing.ExtractionSplits | components/clarinet-deployments/src/types.rs:1058-1089 | per epoch, the publications on one side and the other transactions on the other, each in order |
| PlanEditing.PartitionKinds | components/clarinet-deployments/src/types.rs:1064-1071 | of a list's transactions exactly the contract publications, real or emulated, are on the one side, and exactly all others on the other |
| PlanEditing.ExtractionKinds | components/clarinet-deployments/src/types.rs:1058-1089 | every transaction left is a contract publication, real or emulated, and none extracted is one; no batch is empty, and each has the id and epoch of one of the plan's |
| PlanEditing.MergeOneInserts | components/clarinet-deployments/src/types.rs:1091-1103 | a merged batch's transactions land together in its own epoch, among the others of that epoch |
| PlanEditing.MergeConserves | components/clarinet-deployments/src/types.rs:1091-1105 | merging any batches conserves the multiset of every epoch's transactions |
| PlanEditing.SortingIsStable | components/clarinet-deployments/src/types.rs:1051-1056 | sorting leaves every epoch's batches in their order |
| PlanEditing.SortedIsInOrder | components/clarinet-deployments/src/types.rs:1051-1056 | after sorting epochs never go back |
| PlanEditing.RemergedKeepsEpochs | components/clarinet-deployments/src/types.rs:1051-1105 | extracting and merging back keeps each epoch's publications in order and all its transactions, and leaves batches sorted and numbered, even if ids and epochs repeat |
| PlanEditing.RemergedIsSettled | components/clarinet-deployments/src/types.rs:1051-1105 | the result is settled, whatever the plan was |
| PlanEditing.RemergedIff | components/clarinet-deployments/src/types.rs:1051-1105 | extracting and merging back changes nothing if and only if the plan is settled |
| PlanEditing.DeploymentSpecification.SortBatchesByEpoch | components/clarinet-deployments/src/types.rs:1051-1056 | the batches become the stable sort of the old ones, renumbered: those without epoch first, then ascending epochs, ids by position, every epoch's transactions in order |
| PlanEditing.DeploymentSpecification.ExtractNoContractPublishTxs | components/clarinet-deployments/src/types.rs:1058-1089 | gives the deployment's two parts, which are of the kinds `ExtractionKinds` says and conserve every epoch's transactions, and leaves it alone |
| PlanEditing.DeploymentSpecification.MergeBatches | components/clarinet-deployments/src/types.rs:1091-1105 | merges batch by batch, then sorts and renumbers; the result is in that order and conserves every epoch's transactions |
| PlanEditing.PartitionTransactions | components/clarinet-deployments/src/types.rs:1064-1076 | splits a list into its contract publications, real or emulated, and its other transactions, in order, losing none |
| EnvAnnotation.MightCarryIff | components/clarity-repl/src/utils.rs:104-109 | the test accepts a source if and only if some mark in it is followed by text that trims to `env` before its first parenthesis |
| EnvAnnotation.PieceIsEnough | components/clarity-repl/src/utils.rs:104-109 | looking only up to the next mark makes no difference |
| EnvAnnotation.AnnotationIff | components/clarity-repl/src/analysis/annotation.rs:18-72 | a comment is an annotation if and only if it reads `#[env(simnet)]`, with white space at most around the brackets, the name, the parentheses and the value |
| EnvAnnotation.AnnotationSaysSimnet | components/clarity-repl/src/analysis/annotation.rs:52-66 | with any other value in this place it is none, `onchain` included |
| EnvAnnotation.WhitespaceIs | components/clarity-repl/src/utils.rs:104-109 | white space is what Unicode calls so |
| EnvAnnotation.AnnotationIsAnnounced | components/clarity-repl/src/analysis/annotation.rs:18-72 | every comment that parses as this annotation has such a mark |
| EnvAnnotation.AnnotatedSourceIsNotSkipped | components/clarity-repl/src/utils.rs:97-109 | a source with such a comment anywhere is never skipped |
| EnvSimnet.CollectEnvSimnetSpans | components/clarity-repl/src/utils.rs:161-198 | the walk with its pending annotation collects exactly the spans of annotated expressions, as defined without state |
| EnvSimnet.EndOfLineByLast | components/clarity-repl/src/utils.rs:180-187 | scanning all earlier siblings is the same as looking at the last one that is not a comment |
| EnvSimnet.SpansAreMarked | components/clarity-repl/src/utils.rs:161-198 | a span is collected if and only if, at some depth, it goes from the start of the first annotating comment in front of some code to the end of that code, and is not inside such code |
| EnvSimnet.SpansAreIncreasing | components/clarity-repl/src/utils.rs:161-198 | on well-nested expressions the spans come in strictly increasing source order, so they are disjoint |
| EnvSimnet.GetEnvSimnetSpans | components/clarity-repl/src/utils.rs:113-130 | no spans without the mark, an error for an unparsable source that has it, else the spans |
| EnvSimnet.RemoveEnvSimnet | components/clarity-repl/src/utils.rs:136-159 | nothing to strip, an error, or the lines with those under a span blanked; indexing is in bounds |
| EnvSimnet.BlankLines | components/clarity-repl/src/utils.rs:143-148 | exactly the lines under some span are dropped |
| EnvSimnet.LinesAre | components/clarity-repl/src/utils.rs:143 | lines end at a line feed, with or without a carriage return in front of it, or at the end |
| EnvSimnet.StrippedLines | components/clarity-repl/src/utils.rs:150-158 | one line per line: blank under a span, else identical exactly when the line does not end in a carriage return of its own |
| EnvSimnet.SkippingLosesNothing | components/clarity-repl/src/utils.rs:97-109 | a source with anything to strip passes the test without parsing |
| DotSegments.ReplaceShortens | components/clarinet-files/src/paths.rs:46-49 | a pass over a path that has `/./` shortens it, so the loop ends |
| DotSegments.SplitReplaced | components/clarinet-files/src/paths.rs:46-49 | one pass of non-overlapping replacement drops every other dot of each run of dot segments |
| DotSegments.ReplaceKeepsCanonical | components/clarinet-files/src/paths.rs:46-49 | a pass does not change the path without its inner dots |
| DotSegments.NormalizeDotSegments | components/clarinet-files/src/paths.rs:40-51 | the result has no `/./` and is the path split at slashes, without dots that are neither first nor last, joined again |
| Stacking.PublishesOnSchedule | components/stacks-network/src/chains_coordinator.rs:633-655 | without overflow an order is due exactly in the cycle before its start and whole durations later, with wrapping or checked arithmetic |
| Stacking.CheckedBuildAnswersIff | components/stacks-network/src/chains_coordinator.rs:633-655 | exactly when checked arithmetic gives an answer, which then is the schedule's |
| Stacking.Coordinator.PublishStackingOrders | components/stacks-network/src/chains_coordinator.rs:765-845 | posts what every order decides, in order, counts it, and remembers the contract it saw, also when nothing is due |
| Stacking.DecisionOnSchedule | components/stacks-network/src/chains_coordinator.rs:825-853 | an order posts exactly when scheduled and stackable: fresh the first time, an extension later if it extends itself |
| Stacking.BlockPosts | components/stacks-network/src/chains_coordinator.rs:765-860 | whatever a block posts, on schedule or on a change of contract, has its order's duration, the minimum times the slots, the first account with the order's label, and the signer's key at the order's place counted round the keys; it has the block's cycle, posts no order twice, and without a change is at position 10 |
| Stacking.WrapsAround | components/stacks-network/src/chains_coordinator.rs:633-655 | unchecked arithmetic is that modulo 2^32 and 2^64, and checked arithmetic gives the same or nothing |
| Stacking.LastSeenIs | components/stacks-network/src/chains_coordinator.rs:802-808 | what is remembered is the contract of the last block that could be read |
| Stacking.TransitionRestacksAll | components/stacks-network/src/chains_coordinator.rs:802-838 | a change of contract posts every order with a known wallet once, as new, at any position in the cycle |
| Stacking.TransitionStacksEarly | components/stacks-network/src/chains_coordinator.rs:802-834 | it does so even before an order's first cycle |
| Stacking.TriggersOncePerCycle | components/stacks-network/src/chains_coordinator.rs:793-816 | a cycle triggers at one height, at position 10, if it has more than ten blocks, and else never |
| Stacking.SteadyRunPostsOnSchedule | components/stacks-network/src/chains_coordinator.rs:765-845 | over consecutive blocks with one contract, an order posts exactly once for each cycle that is due and whose trigger block could be read |
| Stacking.LocksTile | components/stacks-network/src/chains_coordinator.rs:633-655 | the locks of the scheduled cycles tile all cycles from the start on: each is locked from exactly one of them |
| Stacking.EachCycleIsLockedOnce | components/stacks-network/src/chains_coordinator.rs:765-845 | an order locks each cycle of its first duration exactly once, anew, and if it extends itself each later one exactly once by extension, and no other |
| Stacking.LocksAcrossChange | components/stacks-network/src/chains_coordinator.rs:802-838 | from a change of contract on, a cycle is locked once if the fresh stack of that block reaches it and once more if the schedule is to lock it and its trigger is seen later, for orders that extend themselves and for others |
| Stacking.Follow | components/stacks-network/src/chains_coordinator.rs:365-400 | the coordinator's calls over consecutive blocks post what the run of the model does |
| SnapshotImages.SharedIff | components/stacks-network/src/snapshot_extractor.rs:54-65 | other images display as these if and only if the text between two urls stands elsewhere across them too |
| SnapshotImages.SingleLineIsUnambiguous | components/stacks-network/src/snapshot_extractor.rs:54-65 | that is never so for urls without line breaks |
| SnapshotSafety.StepKeepsSound | components/stacks-network/src/snapshot_extractor.rs:121-158 | each step that does not trouble, be it part of a removal, of a file or of the marker, keeps: a directory that is ready has exactly the data its last snapshot was to have |
| SnapshotSafety.TroubleIff | components/stacks-network/src/chains_coordinator.rs:681-757 | a step troubles if and only if further steps that do not trouble can lead to a start that uses other data |
| SnapshotSafety.LeftoversIff | components/stacks-network/src/chains_coordinator.rs:689-713 | files written over leftovers give exactly their own data if and only if all leftover data is overwritten |
| SnapshotSafety.UsedSnapshotIsComplete | components/stacks-network/src/lib.rs:303-341 | over every sequence of starts, crashes and new snapshots in which no step troubles, a snapshot that is used is complete and was built with the very images asked for, unless these are ambiguous |
| SnapshotSafety.SafeIff | components/stacks-network/src/lib.rs:303-341 | in all such runs a used snapshot was built with the images asked for if and only if these are not ambiguous |
| SnapshotSafety.LeftoversMisleadIff | components/stacks-network/src/chains_coordinator.rs:689-757 | a new snapshot that goes on after a failed removal is used with other data than its own if and only if some leftover data is not overwritten |
| SnapshotSafety.PartMisleadsIff | components/stacks-network/src/chains_coordinator.rs:689-713 | after a failed removal a crash during the first file makes the next start use other data if and only if the marker was left and the file has changed |
| SnapshotSafety.ExtractionIsNeverTroubled | components/stacks-network/src/snapshot_extractor.rs:121-158 | without new snapshots that holds in every run |
| SnapshotSafety.RemovedMisleadsIff | components/stacks-network/src/chains_coordinator.rs:657-693 | after a crash during the removal the next start uses other data if and only if the directory was ready, the marker was not removed, and some data was |
| SnapshotSafety.TroubleIsReached | components/stacks-network/src/chains_coordinator.rs:681-693 | each kind of step that troubles is reached from an empty cache by a run without trouble |
| Snapshot.SnapshotDir.UnpackSnapshot | components/stacks-network/src/snapshot_extractor.rs:121-158 | the directory becomes the archive's content without its marker, then the marker is written; if the old files cannot all be removed, these stay, and another failure leaves no marker |
| Snapshot.SnapshotDir.PrepareGlobalSnapshot | components/stacks-network/src/lib.rs:303-341 | a snapshot is used exactly when it is ready or the embedded one fits and can be unpacked, and exactly then the directory is ready afterwards; one that is ready, or for other images, is left alone |
| Snapshot.UninterruptedExtraction | components/stacks-network/src/snapshot_extractor.rs:121-158 | the machine's steps, uninterrupted, leave the files that the program leaves |
| Snapshot.ExportIsAside | components/stacks-network/src/chains_coordinator.rs:695-757 | a new snapshot's exported events are put beside its files, whether or not all could be copied, and nothing else changes |
| Snapshot.CopyableIff | components/stacks-network/src/chains_coordinator.rs:695-713 | a new snapshot takes exactly the project's Bitcoin data, and its Stacks data but for the event observer's database and journal, at any depth |
| Snapshot.UnpackableIff | components/stacks-network/src/snapshot_extractor.rs:140-151 | exactly what the archive has below `devnet`, but for its marker, is unpacked, by its path from there |
| Snapshot.LastWritten | components/stacks-network/src/snapshot_extractor.rs:140-151 | of several entries for a path the last one stays, and other paths are left alone |
| KeyMemo.MemoIsTransparent | components/clarinet-utils/src/lib.rs:107-169 | under every interleaving the memo stays within its limit, its entries are what deriving gives, and every caller gets what deriving gives |
| KeyMemo.StepKeepsInvariant | components/clarinet-utils/src/lib.rs:120-169 | each atomic step of each caller keeps that |
| KeyMemo.OnlyMemoizableIsStored | components/clarinet-utils/src/lib.rs:141-156 | only keys asked for without a passphrase and not precomputed are ever stored |
| KeyMemo.PassphraseIsNeverStored | components/clarinet-utils/src/lib.rs:141-148 | no step of a caller with a passphrase changes the memo |
| KeyMemo.NothingLeavesBelowTheLimit | components/clarinet-utils/src/lib.rs:107-128 | while fewer keys than the limit have been asked for, nothing stored is evicted |
| KeyMemo.EveryCallEnds | components/clarinet-utils/src/lib.rs:136-169 | from every state a new caller whom nobody interrupts is back after four steps with what deriving gives; the memo changes only for a derived key without passphrase, by that entry, in the place of one other if it was full |
| KeyMemo.HitIsNotDerived | components/clarinet-utils/src/lib.rs:150-156 | where the table or else the memo has the answer, that is the answer, and nothing is derived |
| KeyMemo.Cache.Memoize | components/clarinet-utils/src/lib.rs:120-128 | stores the key, evicting at most one entry, and only when full |
| KeyMemo.Cache.GetKeys | components/clarinet-utils/src/lib.rs:136-169 | answers what deriving answers, memoizes a success once, and leaves the memo alone otherwise |
| CallArgs.PigeonHole | components/clarinet-sdk-wasm/src/core.rs:134-145 | n keys below n are all of the first n indexes |
| CallArgs.IsBufferIff | components/clarinet-sdk-wasm/src/core.rs:129-145 | a map stands for a buffer if and only if its keys are 0 to n-1 |
| CallArgs.ParseArg | components/clarinet-sdk-wasm/src/core.rs:138-144 | succeeds exactly then, in any order of the entries, with the buffer whose map it is |
| CallArgs.FromJsonArgs | components/clarinet-sdk-wasm/src/core.rs:134-155 | reads back every call that crossed JSON, and accepts exactly the calls all of whose maps stand for buffers |
| SbtcFunding.FundAccounts | components/stacks-network/src/chains_coordinator.rs:1057-1123 | the posts are those that `PostsAre` describes, and are counted |
| SbtcFunding.PostsAre | components/stacks-network/src/chains_coordinator.rs:1064-1116 | posted for are exactly the accounts whose balance could be read and is short of the target by 546 or more and whose post is accepted, in order, each over what is missing, under the next nonce, identified by address and target |
| SbtcFunding.NoncesAreConsecutive | components/stacks-network/src/chains_coordinator.rs:1057-1116 | posts carry consecutive nonces, failed ones consuming none, and none is below the dust limit |
| SbtcFunding.DepositsAfter | components/stacks-network/src/chains_coordinator.rs:1164-1173 | exactly the deposits of the funded accounts, identified by address and target, are completed |
| SbtcFunding.EndsWithSum | components/stacks-network/src/chains_coordinator.rs:1057-1116 | once settled, an address holds what it held and the shortfalls of its distinct new deposits, whatever else is listed under it |
| SbtcFunding.EndsAtTargetIff | components/stacks-network/src/chains_coordinator.rs:1057-1116 | for any list of accounts, one whose deposit is new ends with its target if and only if no other new deposit has its address and another target, and else with more |
| SbtcFunding.OthersKeepTheirs | components/stacks-network/src/chains_coordinator.rs:1064-1091 | an address without new deposit keeps what it held, also one that has spent what an equal deposit gave it |
| SbtcFunding.FundedOnce | components/stacks-network/src/chains_coordinator.rs:1057-1116 | funding again after the posts have settled mints nothing to an account funded before, unless its deposit had been completed before the first run |
| SbtcFunding.TwiceListedIsOverfunded | components/stacks-network/src/chains_coordinator.rs:1057-1116 | an address listed with two targets ends up with their sum |

## Left out

- The Clarity interpreter, its parser and its analyses: sessions and parsed contracts are values made by functions that the theorems hold for, whatever they are.
- In `Requirements`, contract ids are compared only, placeholder arguments and nested trait types are not told apart, and functions and traits are one kind of definition; the sBTC sources built into the program are taken to be the deployed ones.
- In `DeploymentPlan`, whether the built-in sBTC contracts, which the program lists by hand, are in dependency order among themselves; patching of principals and of the signers' key; file output.
- GenerateDefaultDeployment: asks that no contract it is led to has a dangling reference, because the program does not return otherwise (`FinishesIff`).
- DiscoverRequirements: asks the same for the same reason; for a downloaded sBTC contract other than the built-in ones that passes on a contract it does not name, what is recorded depends on the order of the queue, and only bounds are stated (`RecordedIsFollowed`, `FinishesBetween`).
- FinishesIff: asks that there is no such contract (`Determined`), for the same reason.
- Maps are visited in the order of their keys where that matters for the result (`OrderContracts`); sets, and other maps, in any order, of which the program's is one. So which of two contracts that the same first id leads to comes first is left open.
- The wall clock that seeds a session's datastore, which the cache key deliberately does not contain.
- BuildAll: assumes that a path keeps its contract id and that the content hash tells the sources seen apart; `RightIff` and `RebuiltIff` say what a build gives without the former.
- In `DebugFraming`, JSON itself: reading back what was written gives the message; bodies are JSON objects, and lengths are natural numbers.
- In `DebugRelay`, the processes and sockets behind a transport, and errors that end the adapter.
- EnvSimnet.StrippedLines: states equality up to one trailing carriage return, because the program loses it.
- In `Stacking`, the building and signing of transactions, the version in the contract's name, and what the stacking threads report.
- EachCycleIsLockedOnce: asks that no u32 sum overflows in the blocks of the run; `CheckedBuildAnswersIff` says what a checked build does outside that.
- In `Snapshot`, the hash that names a directory is taken to tell displays apart; one program at a time works on the cache; the exported events are optional data; directories without files are not told from absent ones; the removal of the unkeyed snapshot of earlier versions.
- UsedSnapshotIsComplete: asks that the images are not ambiguous, which `SafeIff` shows to be needed, and that no step troubles, which `TroubleIff` shows to be needed.
- In `KeyMemo`, the derivation itself; the precomputed table is taken to hold what deriving gives.
- In `SbtcFunding`, the connection to the node and the width of nonces; the hash in a deposit id is taken to tell addresses and targets apart.
- In `SessionCache`, panics while a session is built; those while a plan is run are modelled.
- JSON schemas, settings and manifests, the dashboard, Docker and Bitcoin RPC, telemetry and bundling: easy facts only.
