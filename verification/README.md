# Verification of the event stream and its neighbours

A Dafny model of the parts of the `metta` Python package, and of its benchmark
arithmetic, whose behaviour is hardest to see from reading one body, with proofs
about all inputs, all runs or all reachable states.

**The fold registry** (`metta/events.py`). `FoldProtocol.dfy` is the delivery protocol
as a state machine: one step per region held under the registry's lock or a fold's
state lock, plus the reads made outside both. Each thread owns a stack of open calls,
because steps call back. `FoldProtocolInvariant.dfy` proves what every step keeps and
`FoldProtocolTheorems.dfy` what follows for whole runs: no lost wake-up, the
cancellation barrier, conservation of updates; `FoldReads.dfy` when a blocked read blocks
and what a read answers, from the actions of a run alone; `FoldCounts.dfy` exactly when an
update is lost. `DeliveryTable.dfy` is the nested table of deliveries in flight, its values and the
object that keeps it. `FoldRegistry.dfy` has the list, the pattern trees
and the engine's list of watched spaces as plain values and whole histories of them;
`FoldRegistryClass.dfy` is the object whose methods are proved against those values.
`FoldOrder.dfy` is what each registry operation does and the order of the list from a
history's operations. `RestoreOrder.dfy` is about where a restored fold goes. `Atoms.dfy` and `Matching.dfy`
model atoms and one-way matching, `TokenPaths.dfy`, `Tries.dfy` and `MatchIndex.dfy` the
discrimination tree (`metta/structures.py`), so that indexed dispatch is compared with
the scan it stands for. `SegmentClock.dfy` is the generation counter and the announcement flag, as an
object and over all interleavings. `Dispatch.dfy` is the delivery loop, with the effect
of a step on the rest of the program left as a parameter; `DispatchHistory.dfy` is that loop
while its steps change the registry.

**Proof trees** (`metta/derivation.py`). `Derivation.dfy` has the row grammar, its
recursive reading and the parser with its own stack; `ProofWalks.dfy` the walk, the
rendering and the projections; `Renaming.dfy` the display names of variables and `PrettyPatterns.dfy`
what they do to a pattern.

**Package layering** (`metta/_layers.py`). `Layers.dfy` has paths, the analysis and its
topological sort; `LayerModes.dfy` the import modes and published layers.

**The form reader** (`metta/__main__.py`). `FormReader.dfy` has a grammar of text, the scan
of a line compared with it, and the reader with the reading its forms come from.

**Curve arithmetic** (`benchmarks/curves.py`). `LeastSquares.dfy` and `Curves.dfy`, over
exact reals. Logarithms, powers, exponentials and square roots are parameters known by
their laws: the logarithm of a product, monotonicity, and being inverses.

`Names.dfy` and `Sequences.dfy` are shared: strings in code-point order, and
what several modules say about sequences.

`dafny verify dfyconfig.toml` checks the whole project.

## Where the code departs from what it says

- The tree and the scan part on equal atoms with different tokens.
  `metta/structures.py:20-22` promises agreement with brute force, not-a-numbers kept
  together; the tokens hold the number object itself, so two not-a-number objects are
  one atom and two tokens. A symbol and a space handle of its name part the same way.
  The exact condition is proved (`IndexIsScanExactly`, `IndexedDispatchIsScanExactly`).
- The guard against nested commits compares objects, so a nested step that leaves in
  place the very object its outer step answers is lost without an error, as for small
  integers (`NestedCountIsLost`). `LosesExactly` says when a commit loses an update, for
  every step function; `CountExactly` and `CountWithoutReads` when a count is right.
- `wait` promises to block until a step has run (`metta/events.py:255-260`). It compares the
  version it looked at with the consumed mark it looks at next, without the fold's lock, so
  if another thread commits and reads in between, the wait returns with nothing new to
  read. `BlocksExactly` is the exact condition, `BlocksUntilCommit` the promise where no
  such read comes between.
- A restore leaves snapshot order when nobody of the snapshot is left and others were
  added before it. `RestoreAfterDrift` has the exact condition for all histories, those
  included that add a cancelled fold again, which no caller in the package does.
- `listen` through no runtime returns before it publishes, so such a watch is live and
  never announced (`WatchWithoutEngine`, `PublishedIsWatched`).
- Display names can merge a variable the author named `$a` with a machine variable
  (`PrettyMergesAuthorName`; exact condition in `PrettyIsRenamingExactly`). The
  anonymous variable counts as a machine name, so two of them become one variable; when
  the display still matches the same atoms is `PrettyKeepsInstancesExactly`.
- Shape selection divides by the mean, so a negative mean makes the greatest error win
  (`LeastErrorExactly`, `NegativeMeanPicksWorst`).

## Model

| member | source | states |
|---|---|---|
| `FoldProtocolTheorems.NoLostWakeup` | metta/events.py:314-326 | In every interleaving, a thread asleep on a fold whose version differs from the one at its last read (what that is from the run alone is FoldReads.BlocksExactly) is owed a notify by another thread that bumped the version and has not notified yet; the count that thread reads outside the lock is not zero |
| `FoldProtocolTheorems.NotifyWakesAll` | metta/events.py:438-441 | The owed notification wakes every sleeper, whichever fold it sleeps on |
| `FoldProtocolTheorems.CancelEndsWaits` | metta/events.py:408-410 | From a cancel that takes effect on, whatever was abandoned before, nobody sleeps on the cancelled fold exactly as long as the fold is not abandoned again under a blocked read |
| `FoldProtocolTheorems.StrandedExactly` | metta/events.py:465-479 | In every run a blocked read is left asleep on an inactive fold if and only if some abandonment clears the flag under it |
| `FoldProtocolInvariant.RunInv` | metta/events.py:283-328 | Every run keeps: table counts equal open frames per fold and thread, the waiter count equals the threads between join and leave, each lock has one owner, and every stale sleeper is covered by a debtor |
| `FoldProtocolTheorems.AccountingBalanced` | metta/events.py:498-512 | The release at the end of a delivery always finds its own claim, in every run |
| `FoldProtocolTheorems.CancellationBarrier` | metta/events.py:245-248 | Once a cancel has returned, no other thread is inside the fold and none enters later, old dispatch snapshots included, until something reactivates the fold |
| `FoldProtocolTheorems.InactiveRun` | metta/events.py:488-496 | While nothing reactivates an inactive fold, no thread's count of open deliveries of it grows |
| `FoldProtocolTheorems.NoUpdateLost` | metta/events.py:294-315 | For an appending step, over every run of concurrent, nested and re-entrant deliveries and reads, what the reads took followed by what the fold holds is every committed change in commit order |
| `FoldProtocolTheorems.QuietStepCommits` | metta/events.py:294-315 | A step that calls nothing back is never refused, whatever other threads do while it runs |
| `FoldProtocolTheorems.QuietFoldCommitsInPlace` | metta/events.py:300-314 | If user code of a fold never re-enters the fold, every answer is computed on the very object it replaces and the refusal never fires, for any step function |
| `FoldReads.BlocksExactly` | metta/events.py:452-481 | In every run a blocked read whose time is not up stops waiting if and only if some commit of its fold stands between the fold's last read and the thread's own look at the version, whichever came first; otherwise it falls asleep |
| `FoldReads.BlocksUntilCommit` | metta/events.py:452-481 | When the last read came before the look, that is exactly when something was committed since the last read |
| `FoldReads.ReadsAnswerExactly` | metta/events.py:443-450 | Over every run the reads of a fold hand over, in order, the object committed last since the read before, or the initial one; a read leaves the initial one in place |
| `FoldReads.LeavesExactly` | metta/events.py:465-479 | A blocked read leaves its loop only on finding the fold inactive, finding a version that differs, or running out of time, and always does on the first and the last |
| `FoldReads.FlagExactly` | metta/events.py:400-431 | The only steps that move a fold's flags, and what each makes of them |
| `FoldReads.StatelessNeverCommits` | metta/events.py:286-293 | Over every run a stateless fold's user code runs unlocked and nothing is committed to it, and a stateful fold's never runs without its lock |
| `FoldCounts.CountAccounted` | metta/events.py:294-315 | For a counting step, over every run of concurrent, nested and re-entrant deliveries and reads, what was read, what is held and what was lost add up to the commits |
| `FoldCounts.LosesExactly` | metta/events.py:300-314 | For every step function a commit loses an update if and only if, inside its own open step, the last nested commit or read of the fold left in place the very object the commit answers, another than it was given; only its own thread moved the fold meanwhile |
| `FoldCounts.CountExactly` | metta/events.py:300-314 | A counting fold's count is right if and only if no commit of the run was overtaken from inside its own step |
| `FoldCounts.ReentryLosesExactly` | metta/events.py:300-314 | While nobody reads the fold, a counting commit loses an update if and only if its own step delivered to the fold again and that delivery committed |
| `FoldCounts.CountWithoutReads` | metta/events.py:300-314 | While nobody reads it, a counting fold holds the number of its commits if and only if no committing step committed to the fold again from inside |
| `FoldProtocolTheorems.NestedCountIsLost` | metta/events.py:302-315 | A concrete run in which the identity guard lets two commits count one, because the nested answer is the same interned integer |
| `DeliveryTables.DeliveryTable.Begin` | metta/events.py:488-496 | The claim is made only for an active fold, and the nested table becomes the raised one |
| `DeliveryTables.DeliveryTable.End` | metta/events.py:498-512 | The release refuses exactly when the thread has no claim, and the nested table becomes the lowered one |
| `DeliveryTables.DeliveryTable.OthersOut` | metta/events.py:514-525 | The test a cancel waits on is true exactly when every other thread's count is zero |
| `DeliveryTables.RaisedMovesOne` | metta/events.py:488-496 | A claim raises exactly one count by one and keeps no empty or zero entry |
| `DeliveryTables.LoweredMovesOne` | metta/events.py:498-512 | A release lowers exactly one count by one and forgets it at zero, or leaves the table when there is no claim |
| `DeliveryTables.EndUndoesBegin` | metta/events.py:488-512 | Ending a delivery just begun restores the nested table exactly |
| `Matching.MatchExact` | metta/_atoms/factories.py:609-615 | The matcher answers exactly when some binding makes the pattern an instance equal to the atom, and answers such a binding |
| `Matching.RunMatch` | metta/_atoms/factories.py:709-730 | The work-stack matching loop computes the specified match on every pair of atoms |
| `Matching.MatchBindsExactly` | metta/_atoms/factories.py:709-730 | A match binds the pattern's variables other than the anonymous one, and no others |
| `Atoms.AtomEqExactly` | metta/_atoms/model.py:251-283 | Two atoms are equal if and only if they are written alike once handles are written as their symbols and not-a-numbers as one |
| `Atoms.AtomEqTransitive` | metta/_atoms/model.py:251-283 | Atom equality, with all not-a-numbers one atom and a space handle equal to its symbol, is transitive; symmetry and reflexivity stand beside it |
| `TokenPaths.Flatten` | metta/structures.py:345-387 | The explicit-stack flattening is the pre-order token path, for every atom |
| `TokenPaths.SkipTable` | metta/structures.py:459-475 | The backward pass gives, for each position, where the subterm starting there ends |
| `TokenPaths.CoversExactly` | metta/structures.py:421-457 | A stored path is followed by a probe's tokens exactly when the pattern has the probe's tokens outside its variables |
| `TokenPaths.InstanceSharesTokens` | metta/structures.py:369-376 | A pattern that matches shares the atom's tokens, unless a space handle or a not-a-number on both sides is involved |
| `Tries.WalkSound` | metta/structures.py:421-457 | Every number retrieved stands under a path the probe's tokens follow |
| `Tries.WalkComplete` | metta/structures.py:421-457 | Every number under such a path is retrieved |
| `Tries.WalkDistinct` | metta/structures.py:421-457 | No number is retrieved twice |
| `MatchIndexes.MatchIndex.Add` | metta/structures.py:389-399 | Registration appends one entry to the index's list of entries and keeps tree and table consistent |
| `MatchIndexes.MatchIndex.Remove` | metta/structures.py:401-419 | Removal takes away the oldest entry with this very pattern and value, answers whether there was one, and otherwise changes nothing |
| `MatchIndexes.MatchIndex.Matches` | metta/structures.py:421-457 | The answers are the matching entries in registration order, for ground probes through the tree and for others by the sweep |
| `MatchIndexes.AnswersExactly` | metta/structures.py:421-457 | A probe with variables is answered by exactly the patterns some binding makes equal to it or it equal to; a ground one by those some binding makes equal to it along its tokens |
| `MatchIndexes.SelectExactly` | metta/structures.py:421-457 | The answers are the answering entries, each at its own place, in registration order |
| `MatchIndexes.WithoutExactly` | metta/structures.py:401-419 | A removal takes out the first fitting entry and leaves the others as they stood |
| `MatchIndexes.IndexIsScanExactly` | metta/structures.py:421-457 | On a ground probe the index equals the scan of all entries if and only if every matching pattern has the probe's tokens outside its variables |
| `MatchIndexes.IndexIsScan` | metta/structures.py:20-24 | Without space handles, and without not-a-numbers on both sides, the index equals brute force over every entry |
| `MatchIndexes.IndexMissesEqualAtoms` | metta/structures.py:20-24 | Two not-a-number objects, and a symbol against the space handle it names, are equal atoms that the index does not bring together |
| `RestoreOrder.FindRestorationIndex` | metta/events.py:590-599 | The two search loops find the specified position |
| `RestoreOrder.RestoreInvertsCancel` | metta/events.py:400-426 | A restore right after its cancel gives back the exact list, at every position |
| `RestoreOrder.NestingRestores` | metta/events.py:400-426 | Every properly nested sequence of cancels and restores gives back the exact list |
| `RestoreOrder.RestoreAfterDrift` | metta/events.py:590-599 | After any adds and cancels, snapshot members added again among them, a restore gives the snapshot order of the survivors and the restored fold followed by the adds, if and only if its nearest registered successor of the snapshot was never cancelled or heads the adds with no survivor left after it, or without successor its nearest registered predecessor was never cancelled, or without either it stood first or nothing was added |
| `RestoreOrder.RestoreAfterNewAdds` | metta/events.py:590-599 | When only new folds were added, that is if and only if a snapshot member survives, or the fold stood first, or nothing was added |
| `RestoreOrder.ReaddBreaksOrder` | metta/events.py:590-599 | A concrete list on which the two search loops leave snapshot order, a snapshot member having been added again |
| `FoldRegistries.HistoryKeepsOrder` | metta/events.py:357-436 | Every history of adds, cancels, restores and lock-free abandonments, publications failing or not, keeps each tree in list order with every active fold filed |
| `FoldRegistries.ReachedExactly` | metta/events.py:536-563 | The candidates that pass admission and matching are, in list order, the active folds of the space that match and, for a ground atom, share its tokens |
| `FoldRegistries.IndexedDispatchIsScanExactly` | metta/events.py:536-563 | Indexed dispatch equals the scan if and only if every interested fold's pattern has the ground atom's tokens |
| `FoldRegistries.HistoryDispatchIsScan` | metta/events.py:536-563 | After every history, an atom with variables reaches exactly the active matching folds in registration order, and a ground one does if and only if every interested pattern has its tokens |
| `FoldRegistries.EngineAgrees` | metta/events.py:572-588 | While every failed publication was rolled back, the engine watches exactly the sorted set of registered spaces, after every history |
| `FoldOrders.AddExactly` | metta/events.py:357-372 | An add is refused for a registered fold or without the engine's consent, and otherwise puts the fold last in the list and in its space's tree |
| `FoldOrders.CancelExactly` | metta/events.py:374-411 | A cancel takes exactly its fold out, the others keeping their order, takes its flag down and unfiles it |
| `FoldOrders.RestoreExactly` | metta/events.py:413-436 | A restore puts its fold at its restoration index, as active as told, the others keeping their order |
| `FoldOrders.OlderStandsFirst` | metta/events.py:368-372 | In every history, restores of other folds among it, of two registered folds the one whose last add came first stands first |
| `FoldOrders.RegisteredSince` | metta/events.py:357-436 | A registered fold got there by an add or a restore of it that it has stayed registered since |
| `FoldOrders.OlderAttemptedFirst` | metta/events.py:990-1014 | Of two folds a change is delivered to, the one added first is attempted first, whatever the steps do to the registry |
| `FoldRegistryObject.FoldRegistry.PublishLocked` | metta/events.py:572-588 | No call when the spaces do not change; otherwise accepted, rolled back, or lost with both calls failed |
| `FoldRegistryObject.FoldRegistry.Add` | metta/events.py:357-372 | The fold goes last and nothing else moves, or nothing changes, with the refusals exactly where they apply; the engine keeps agreeing unless a rollback failed |
| `FoldRegistryObject.FoldRegistry.Cancel` | metta/events.py:374-411 | Withdrawal by identity with its snapshot, the other folds as they stood, None for a fold already gone and inactive, and a refusal for an active one missing from the list |
| `FoldRegistryObject.FoldRegistry.Restore` | metta/events.py:413-436 | The fold goes back at its restoration index as active as it was, with its space's tree rebuilt in list order, or nothing changes |
| `FoldRegistryObject.FoldRegistry.RebuildLocked` | metta/events.py:565-570 | The rebuilt tree holds the space's active folds in list order, and no other tree is touched |
| `FoldRegistryObject.FoldRegistry.Candidates` | metta/events.py:536-563 | What dispatch is offered: the list for an atom with variables, else the tree's answers in order |
| `FoldRegistryObject.FoldRegistry.ForSpace` | metta/events.py:527-534 | Every active fold of one space in registration order |
| `SegmentClocks.SegmentClock.Tick` | metta/events.py:669-689 | Counts one change and stamps it while a watch is live, else answers zero and counts nothing |
| `SegmentClocks.SegmentClock.Listen` | metta/events.py:691-707 | Puts a fresh watch last and turns announcements on, or refuses and leaves everything as it was |
| `SegmentClocks.SegmentClock.Forget` | metta/events.py:709-717 | Takes out one watch, the others keeping their order, and turns announcements off with the last one, or refuses and leaves everything as it was |
| `SegmentClocks.SegmentClock.Committed` | metta/events.py:730-736 | Every live watch hears the generation exactly once |
| `SegmentClocks.PublishedIsWatched` | metta/events.py:719-728 | In every interleaving the flag is up exactly when a watch is live and an engine is known; so it means watched exactly when no watch listens through no engine |
| `SegmentClocks.WatchWithoutEngine` | metta/events.py:719-728 | A watch taken through no engine is live and never announced |
| `SegmentClocks.WatchesExactly` | metta/events.py:691-717 | In every interleaving the live watches are those of the listenings no later action withdraws, in the order of the listenings |
| `SegmentClocks.EngineKnownExactly` | metta/events.py:691-707 | The clock knows an engine if and only if some listening of the run came through it |
| `SegmentClocks.CountedExactly` | metta/events.py:685-689 | Whatever comes before and after, a change is counted or waiting to be if and only if the watches were not empty at its own read, and stamped zero if and only if they were |
| `SegmentClocks.ClockCountsWatchedChanges` | metta/events.py:669-689 | In every interleaving the generation is the number of reads that found the watches not empty less those still to be counted; it is also the number of counts, and the stamps above zero are the numbers up to it, each once |
| `SegmentClocks.StampIsPlace` | metta/events.py:687-689 | A counted change keeps as its stamp the place of its count among all counts |
| `SegmentClocks.BoundaryReportsLastStamp` | metta/events.py:730-736 | A boundary's callbacks, whenever made, receive the stamp of the commit's last change if and only if no other change was counted in between |
| `SegmentClocks.EngineAgrees` | metta/events.py:719-728 | While failing engine calls change nothing there, the engine announces exactly when the clock believes it does |
| `Dispatching.Deliver` | metta/events.py:979-1040 | Every wanted candidate admitted at its turn is attempted once in snapshot order; a control signal stops dispatch and passes alone; otherwise what is raised holds the failing turns' folds and errors, each once and in turn order |
| `Dispatching.FailuresAreIsolated` | metta/events.py:1014-1030 | Two sets of steps with the same effects attempt the same folds on the same worlds whatever either raises |
| `Dispatching.RaisedExactly` | metta/events.py:1033-1040 | Without a signal nothing is raised if and only if no turn failed, one error if and only if exactly one did, and a group if and only if two or more did |
| `Dispatching.FailuresExactly` | metta/events.py:1014-1030 | The failures collected are exactly the ordinary ones of attempted folds |
| `Dispatching.WantedExactly` | metta/events.py:990-1014 | A fold wants a change if and only if it watches its kind and some binding makes its pattern equal to the atom; its step is then told the change, such a binding, and the stamps there are |
| `Dispatching.TurnsRunSteps` | metta/events.py:990-1014 | An attempted turn runs its fold's step, told so, on the world it finds; any other turn leaves the world and raises nothing |
| `DispatchHistories.AttemptedExactly` | metta/events.py:1010-1014 | While steps add, cancel, restore and abandon folds, a candidate is attempted if and only if it is wanted and the registry has it active at its own turn |
| `DispatchHistories.DispatchExactly` | metta/events.py:990-1014 | From any history, with any changes made by the steps, the folds attempted are, each once and in registration order, exactly the candidates wanted and active at their turn |
| `DispatchHistories.WithdrawnIsSkipped` | metta/events.py:488-496 | A candidate cancelled or abandoned before its turn and not made active again is not attempted |
| `DispatchHistories.AddedIsNotAttempted` | metta/events.py:1010-1014 | A fold registered meanwhile is not attempted |
| `DispatchHistories.UnwithdrawnIsAttempted` | metta/events.py:990-1014 | A fold the change is for that nobody withdraws before its turn is attempted, once, if dispatch gets that far |
| `DispatchHistories.DispatchReachesAudience` | metta/events.py:990-1014 | When no candidate's own activity is changed before its turn, exactly the folds the change is for are attempted, in registration order |
| `ProofTrees.Nodes` | metta/derivation.py:336-362 | The explicit-stack parser equals the recursive reading on every list of atoms, refusals included, and terminates |
| `ProofTrees.ReadExactly` | metta/derivation.py:291-325 | An atom is read as a node if and only if it is a row that spells that node, for a grammar stated as a relation |
| `ProofTrees.FromAtomExactly` | metta/derivation.py:104-110 | A tree is read as a derivation if and only if it is a row that spells it |
| `ProofTrees.OwnErrorExactly` | metta/derivation.py:291-325 | Which row a refusal of an atom's own row names, and which atom, for every way the row can be broken |
| `ProofTrees.FailsAtFirstBrokenRow` | metta/derivation.py:291-325 | Parsing fails exactly when some node breaks its row, and reports the first such node in pre-order |
| `ProofTrees.DerivationRoundTrip` | metta/derivation.py:104-110 | Whatever tree is written in the row grammar is read back as it was |
| `ProofTrees.UncheckedAgrees` | benchmarks/derivation_trees.py:110-119 | Where every row is well formed, the former recursive conversion builds the same tree |
| `ProofTrees.UncheckedAcceptsMore` | benchmarks/derivation_trees.py:110-119 | A concrete row the former conversion accepts and the grammar refuses |
| `ProofWalks.Walk` | metta/derivation.py:369-376 | The explicit-stack walk equals recursive pre-order at every depth |
| `ProofWalks.WalkIsEveryPlace` | benchmarks/derivation_trees.py:122-126 | Pre-order yields the node of every place of the tree and nothing else, each place once, parents first and left to right |
| `ProofWalks.CompleteExactly` | metta/derivation.py:122-130 | A derivation is complete exactly when no place of its tree holds a truncation |
| `ProofWalks.Project` | benchmarks/derivation_trees.py:199-204 | Asking only what was kept gives the members with nothing equal before them |
| `ProofWalks.Facts` | metta/derivation.py:112-114 | The facts are the first-seen facts of the walk, up to fact equality |
| `ProofWalks.Rules` | metta/derivation.py:116-120 | The rules are the first-seen equations of the walk, up to atom equality |
| `ProofWalks.FirstSeenExactly` | metta/derivation.py:112-120 | What a projection lists stands, in order, at exactly the places with nothing equal before them |
| `ProofWalks.RulesAreTheTreesEquations` | metta/derivation.py:116-120 | An equation is listed exactly when an equal one fired somewhere in the tree, and no two listed are equal |
| `ProofWalks.FactsAreTheTreesFacts` | metta/derivation.py:112-114 | A fact is listed exactly when an equal one stands somewhere in the tree, and no two listed are equal |
| `ProofWalks.RenderNodes` | metta/derivation.py:379-396 | The explicit-stack rendering equals the recursive rendering at every depth and indent |
| `ProofWalks.RenderedIsWalk` | metta/derivation.py:379-396 | The rendered lines are those of the walked nodes in order, each indented by the depth of its place |
| `ProofWalks.RenderingLooksLike` | metta/derivation.py:51-85 | The five lines of a step over one child of each other kind, whatever they hold |
| `Renaming.RunPretty` | metta/derivation.py:141-163 | The stack form that names variables as it meets them equals renaming by order of first appearance |
| `Renaming.DisplayedExactly` | metta/derivation.py:148-160 | A variable the author named is shown as it is, a machine one under the name of its place: how many machine names were met before its own first appearance |
| `Renaming.GeneratedExactly` | metta/derivation.py:154-160 | The first twenty-six names are the small letters in order; after them comes a v and the place in decimal |
| `Renaming.VarsLeftToRight` | metta/derivation.py:141-163 | Variables are met left to right |
| `Renaming.PrettyInjective` | metta/derivation.py:148-160 | Two machine names never share a display name, however many there are |
| `Renaming.PrettyIdempotent` | metta/derivation.py:141-163 | Renaming again changes nothing |
| `Renaming.PrettyIsRenamingExactly` | metta/derivation.py:141-163 | The result is alpha-equivalent to the atom if and only if no name the author wrote equals one generated for this atom |
| `PrettyPatterns.PrettyKeepsInstancesExactly` | metta/derivation.py:141-163 | Read as a pattern, the display matches the same atoms as the equation if and only if no author-written name is generated for it and it has at most one anonymous variable |
| `Renaming.PrettyMergesAuthorName` | metta/derivation.py:153-160 | A concrete atom whose two variables become one |
| `Layering.Analyse` | metta/_layers.py:80-94 | Refused exactly for undeclared foundations, listed sorted, or for a cycle; otherwise orders are longest chains and foundations are exactly what one or more edges reach |
| `Layering.AnalysisUnique` | metta/_layers.py:80-94 | Whatever topological order is used, the answer is the same |
| `Layering.FoundationIsLower` | metta/_layers.py:92-93 | Every foundation has a strictly smaller order |
| `Layering.StuckHasCycle` | metta/_layers.py:90-90 | The topological sort gets stuck only where a cycle exists |
| `ImportModes.PackageExactly` | metta/_layers.py:103-114 | A module belongs to a package exactly when its second component names it and it is declared, or it is the root |
| `ImportModes.DirectIsPartialOrder` | metta/_layers.py:118-126 | Direct import between packages is reflexive, antisymmetric and transitive |
| `ImportModes.ModesExactly` | metta/_layers.py:118-126 | Direct one way and lazy the other exactly along foundations; otherwise lazy up, refused down, and refused both ways at one order |
| `ImportModes.ModuleIsDirectExactly` | metta/_layers.py:118-126 | The decision for every module of a declared package, the root module included, in terms of reachability and orders |
| `ImportModes.LayerGroups` | metta/_layers.py:129-135 | Layers strictly downwards, none empty, siblings sorted, each holding exactly the packages of its order but the root |
| `ImportModes.LayersUnique` | metta/_layers.py:129-135 | The orders determine the layers, in whatever order packages are filed |
| `ImportModes.LayersRespectFoundations` | metta/_layers.py:129-135 | Every package but the root stands in one layer, once, and its foundations only in later ones |
| `FormReaders.LayoutDecides` | metta/__main__.py:301-324 | Text in which everything opened is closed leaves the depth as it was; each unclosed parenthesis adds one, an open string or comment is where the text ends, and a parenthesis that closes nothing over-closes for good |
| `FormReaders.EveryTextIsLaidOut` | metta/__main__.py:301-324 | Every text is laid out so, so LayoutDecides decides every text |
| `FormReaders.FinishedExactly` | metta/__main__.py:355-363 | Lines are finished if and only if every parenthesis and string of theirs is closed, or one parenthesis closes nothing |
| `FormReaders.ScanLine` | metta/__main__.py:293-324 | What one line comes to, from the carried depth and string state, is how the parentheses and the string open before it, followed by the line, are laid out; every such layout comes to the same |
| `FormReaders.NextLine` | metta/__main__.py:293-324 | Going on from what was carried over a line end is one scan of the joined text |
| `FormReaders.Forms` | metta/__main__.py:336-364 | The forms yielded are those of the reading that ends each form at its earliest complete or over-closed line |
| `FormReaders.YieldsExactly` | metta/__main__.py:336-364 | What is yielded is the joined lines of every form and of what was left at the end, in order |
| `FormReaders.JoinExactly` | metta/__main__.py:336-364 | Joining loses no line: the lines are what stands between the joined text's ends of line |
| `FormReaders.StripExactly` | metta/__main__.py:355-359 | Stripping takes off space and all of it on both sides; a line is blank if and only if it is all space |
| `FormReaders.LeavesExactly` | metta/__main__.py:359-360 | A line ends the session if and only if it is one of two words, space about it aside |
| `FormReaders.ReadingUnique` | metta/__main__.py:336-364 | The input determines its reading, so no other list of forms is right |
| `FormReaders.NoLineLost` | metta/__main__.py:336-364 | Up to an exit or the end of input every line typed stands in exactly one item, in order |
| `FormReaders.NothingGivenUp` | metta/__main__.py:336-364 | Without interrupts no buffer is given up |
| `LeastSquaresFits.FitIsBest` | benchmarks/curves.py:77-101 | No line has a smaller squared error than the fit, whatever the points |
| `LeastSquaresFits.FitIsOnlyBest` | benchmarks/curves.py:77-101 | Where two abscissas differ, a line is as good as the fit if and only if it is the fit |
| `LeastSquaresFits.RSquaredRange` | benchmarks/curves.py:134-143 | R-squared is absent exactly when nothing varies, else in [0, 1], and one exactly when a line passes through every point |
| `LeastSquaresFits.RSquaredExactly` | benchmarks/curves.py:134-143 | What R-squared leaves is the fit's error as a share of the error of the best level line |
| `LeastSquaresFits.SlopeBetween` | benchmarks/curves.py:84-90 | The fitted slope lies between the smallest and largest consecutive slope, for every increasing ladder |
| `Curves.ReportedFit` | benchmarks/curves.py:91-101 | The line reported has the least squared error of any and is level without two different abscissas, the residual is its root mean, the mean is where the observations balance, and the span the widest gap |
| `Curves.ExponentBetweenPairSlopes` | benchmarks/curves.py:130-148 | The fitted exponent lies between the smallest and largest pair slope, and the fit is refused only for want of two usable points |
| `Curves.PairSlopesAreSteps` | benchmarks/curves.py:145-148 | Each pair slope is the steepness of the logarithms from one point to the next |
| `Curves.PairSlopesExactly` | benchmarks/curves.py:145-148 | On any ladder each pair slope is the rise of the logarithms over their run |
| `Curves.PowerFitIsOnlyBest` | benchmarks/curves.py:114-149 | In logarithms no line has a smaller squared error than the power law reported, coefficient included, and none but it as small |
| `Curves.PowerRefusedExactly` | benchmarks/curves.py:114-149 | Refused if and only if the lengths differ, fewer than two points are usable, or two usable points in a row have one size |
| `Curves.KeptLeftToRight` | benchmarks/curves.py:114-121 | Points are used in the order given, each by itself: whether its size and value are positive |
| `Curves.PowerShareExactly` | benchmarks/curves.py:139-143 | R-squared of a power fit is absent exactly when the values used are all the same, else in [0, 1] |
| `Curves.PlantedPower` | benchmarks/curves.py:114-149 | A planted power law is recovered, exponent and coefficient, for every real exponent |
| `Curves.PlantedBase` | benchmarks/curves.py:161-194 | A planted base is recovered on any ladder, slope and coefficient |
| `Curves.ExponentialFitIsBest` | benchmarks/curves.py:161-194 | In base-two logarithms no line against the sizes has a smaller squared error than the exponential reported, coefficient included |
| `Curves.ExponentialShareExactly` | benchmarks/curves.py:186-193 | R-squared is absent exactly when the values used are all the same, else in [0, 1] and what the line leaves of the variance subtracted |
| `Curves.DoublingSlopeBetween` | benchmarks/curves.py:161-194 | The doubling slope lies between the least and the greatest from point to point |
| `Curves.CoefficientIsBest` | benchmarks/curves.py:242-250 | No multiple of a shape has a smaller squared error than the coefficient used |
| `Curves.ScoreExactly` | benchmarks/curves.py:242-256 | A score, times the mean where that is not zero, is the root mean squared error of the shape |
| `Curves.SelectModel` | benchmarks/curves.py:234-262 | The name chosen is the earliest whose score no other is below; refusals exactly for unequal lengths, too few points, or no shapes |
| `Curves.ChosenShape` | benchmarks/curves.py:257-262 | With a mean not negative the choice is the earliest name of least error over every multiple of every named shape, a repeated name standing for its last shape; with a negative mean the earliest of greatest error |
| `Curves.LeastErrorExactly` | benchmarks/curves.py:257-262 | The choice has the least error if and only if the mean is not negative or all named shapes have one error |
| `Curves.NegativeMeanPicksWorst` | benchmarks/curves.py:257-262 | Two points a line fits perfectly, for which the constant is chosen |

## Left out

- Progress: the protocol's theorems are about safety. Two threads that cancel one
  fold from inside its own steps can wait on each other, as in the source.
- FoldProtocolTheorems.CancellationBarrier: says of the cancelling thread itself only that it enters no new delivery of the fold, because a step may cancel its own fold and is then still inside it.
- MatchIndexes.IndexIsScan: a sufficient condition only; MatchIndexes.IndexIsScanExactly has the exact one.
- DispatchHistories.DispatchExactly: the registry changes during a dispatch are those its own steps make; what other threads do between two turns is in the protocol's runs.
- Asynchronous exceptions between two bytecodes of a locked region, and calls back into
  the registry from inside the engine call of a publication.
- Deadlines: a timed wait may end at any time, so the remaining-time arithmetic is not modelled.
- State objects mutated in place by a step; an object's contents never change in the protocol.
- The runtime's identity in the protocol's and the registry's histories; the registry
  object has it.
- Atoms: carried engine terms, number subclasses, infinities, and space handles equal to
  expressions; opaque values are compared by identity, as the source compares them.
- Hash-bucket and dictionary order, and object identity of unchanged expressions in `_map_atoms`.
- `EventStream.publish` after a failing watcher: it then announces no boundary; the
  delivery loop and the clock are modelled apart.
- Exceptions raised by a boundary callback, which would end the remaining calls of that boundary.
- The text of error messages, except which atom or row they name.
- HTML output, `Derivation.__str__` beyond its lines, and the check that node classes and rows agree.
- The table of packages itself; the analysis is proved for every finite graph.
- `graphlib`'s batching: the topological sort picks any ready package at each step.
- FormReaders.ScanLine: takes a line as the terminal gives it, without a newline in it.
- Prompts, terminal echo and history of the form reader.
- Floating-point rounding in the fits; shapes whose term is undefined at a size; sizes
  out of range for a float.
- The algebra carriers, cells, the wire codec, lazy imports, servers and the benchmark drivers.
