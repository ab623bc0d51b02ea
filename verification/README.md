# Verification model of the code-graph backend

A Dafny model of five parts of the backend, with proofs of what they keep, promise and refine:

- the incremental code-graph store: replacing one file inside a repository-wide graph, its cache,
  the denormalised `callers`/`callees` arrays, and the full and incremental ingest that drive it;
- the PageRank scorer over the call graph;
- the tokenizer, recursive-descent parser and three-valued evaluator of Go build constraints;
- refresh-token rotation, as a protocol of concurrent requests;
- the fixed-window rate limiter.

`dafny verify dfyconfig.toml` checks everything.

## How the code is modelled

The database is a set of maps. `CodeGraph` holds node rows by id, edges by their unique key (source,
type, target name) and the two list columns; `parent_id` is a map of its own. Deleting a row deletes
the edges it is the source of and unbinds the edges it is the target of
(backend/app/models/code_edge.py:57-69), and `parent_id` cascades. Ids are numbers that are never
reused. Extraction is abstract: a `File` is what the extractor made of it.

`FileRewrite`, `CallScope`, `RowReplacement` and `GraphStates` say what one `persist_graph`, delete,
refresh and prune do to the tables and prove when that is right; `CallArrays`, `GraphBuilder` and
`IngestCache` are the loops, with methods proved to do exactly that. `StoreRuns`, `StoreSessions` and
`CallCounts` are about whole histories, with commits and crashes, and `ParentRuns` about the parents
along them; the four `Inherits...` modules and `WalkOrders` are about the one kind of edge whose binding
depends on the history. `ChangeLists`,
`Ingest` and `WalkResume` work on what the module rows record, path to hash and stamp, and
`IncrementalRuns` joins them to the graph.

A store knows its `due` rows, which the run's refresh will be given, and its `owed` rows, the explicit set
outside which the lists are exact (`GraphStates.OwedAfterPersist`, `OwedAfterRefresh`). Histories are those
in which no step misleads an edge: none keeps a row that edges of other files are bound to under another
name. That is all they suppose; as the code is written the lists of `owed` rows may be inexact, and read as
intended nothing that is committed owes any.

Go selection, hashing and stamps are parameters of an ingest run. The statements hold for every choice
of them.

### Where the code departs from what it says

Each place is kept as written, with the exact condition under which it does no harm and a concrete
case in which it does; where the code says what it meant instead, that form is proved beside it.

- backend/app/graph/builder.py:279-297 collects the old call targets of kept rows only, so a surviving
  callee of a deleted row goes on listing it, unless something else in the call reaches it. What reaches
  it is told from the arguments of the call (`CallScope.ListsExactIff`, `CallScope.InScopeIffReached`,
  `Departures.DeletedCallerLeavesTrace`). `Collection` chooses between this and collecting the deleted
  rows' targets too, as backend/app/graph/ingest.py:742-752 does. Over whole histories such rows are the
  ones `owed` (`StoreRuns.HistoryGood`, `StoreRuns.NewlyOwedIsInexact`).
- backend/app/graph/builder.py:408-427 asks an unbound INHERITS edge again only if a file defines or
  defined its full target, while lines 902-910 also resolve by a last segment that one row fits. So a
  subclass whose file comes before its base stays unbound (`Departures.SubclassFirstStaysUnbound`). All
  walks over the same files agree on an INHERITS edge iff `InheritsOrder.OrderIrrelevant` holds of them
  (`InheritsWalk.WalksAgreeOnInheritsIff`); all histories that keep rows under their names and end with
  the same files agree on it iff `InheritsHistory.HistoryIrrelevant` holds
  (`InheritsDetours.HistoriesAgreeOnInheritsIff`). Edges of every other type are bound alike
  (`StoreRuns.HistoryIndependence`).
- backend/app/graph/builder.py:573-590 loads only the rows to refresh, so the filter at line 732 drops
  calls to all other rows (`CallArrays.RefreshOfLoadedRowsExactIff`,
  `CallArrays.RefreshLosesOutsideCaller`). `Reading.refreshLoadsAll` chooses.
- backend/app/graph/builder.py:129-136 may rename a kept row that edges of other files are bound to;
  they stay bound to it under the old name (`FileRewrite.BindingExactIff`). Symbol keys contain the
  qualified name (backend/app/graph/extractor.py:94-102), so this takes an orphan module
  (`RowReplacement.RenameSafeIff`, `Departures.RenamedModuleMisleadsImport`).
- backend/app/graph/ingest_cache.py:46-51 renames a row in the cache without looking at its kind, so a
  row that becomes the file's module gets no slot in the module dictionary
  (`RowReplacement.SlotsMirrorIff`, `Departures.PromotedRowMissesSlot`). Where keys tell modules from the
  rest this cannot happen (`RowReplacement.KindsStay`): it takes a Python class, which has no signature,
  whose qualified name another extractor gives to the file's module.
- backend/app/graph/ingest.py:863-909 skips a file when a name of it is taken, and an incremental run does
  not come back to it: that happens exactly when the name is still held by the old version of another file
  that the run has yet to rewrite (`IncrementalRuns.SkippedIff`). Of two files that exchange names one is
  skipped in any order (`IncrementalRuns.ExchangeIsBlocked`).
- backend/app/graph/ingest.py:558-567 applies the JS noise test to the old path of a rename whatever its
  language: `build/x.py` renamed to `build/x.js` leaves the Python rows. Lines 492-494 look for Go files
  by the suffix `.go` as written, while every other place lower-cases it: rows of a removed `a.GO` stay
  (`ChangeLists.OutcomeExactIff` and the two `...Strands` lemmas).
- backend/app/graph/go_variants.py:369 calls a method that does not exist; `Call369` chooses between that
  and the method of the nearly same name (`GoParser.EvaluationRoundTrip`).
- backend/app/graph/go_variants.py:372-373 takes whatever stands in the place of an operand for a tag, so
  that `)`, `&&` or `||` there is FALSE and no error (`GoParser.StrayOperatorIsTag`). Leftover tokens, a
  missing operand and an unclosed parenthesis are errors (`GoParser.LeftoverRejected`,
  `MissingOperandRejected`, `UnclosedRejected`).
- backend/app/graph/go_variants.py:437-439 has UNKNOWN make the caller fail (line 134) rather than guess
  between variants; `unix || !unix` leaves nothing to guess and is UNKNOWN all the same
  (`GoExpressions.DeterminedYetUnknown`). UNKNOWN means that the open tags leave the constraint
  undetermined whenever no open tag occurs both negated and not
  (`GoExpressions.OneWayUnknownIffUndetermined`), and for the rest UNKNOWN says that the occurrences can
  disagree (`GoExpressions.UnknownIffOccurrencesDisagree`). To say exactly which of the rest are
  determined is to decide tautologies.

## Model

| member | source | states |
|---|---|---|
| FileRewrite.BindingExactIff | backend/app/graph/builder.py:350-449 | after a file is replaced every edge of the repository but INHERITS is bound to the live row its target names, or unbound if there is none, iff no row that edges of other files are bound to was kept under a new name |
| FileRewrite.OwnEdgeBoundRight | backend/app/graph/builder.py:356-406 | the file's own edges come out bound right whatever was there before |
| FileRewrite.OtherEdgeBoundRightIff | backend/app/graph/builder.py:408-449 | an edge of another file is rebound when its target row was deleted and re-inserted, and wrong iff its target was kept under another name |
| FileRewrite.FinalReferences | backend/app/graph/builder.py:169-188 | no edge is left with a dead source or target |
| FileRewrite.FitsMeans | backend/app/graph/builder.py:902-908 | a short name fits a row that has it, or whose qualified name ends in it right after a dot |
| CallScope.ListsExactIff | backend/app/graph/builder.py:275-515 | given exact lists before, a row's callers and callees are exact after unless a deleted row called it and nothing that the call was given reaches it; collecting the deleted rows' targets makes it always so |
| CallScope.InScopeIffReached | backend/app/graph/builder.py:275-515 | what the call touches of other files, from its arguments: rows that edges of kept rows were bound to, that the file's edges will resolve to, or that have an edge to ask again |
| CallScope.ResolvesOutsideIff | backend/app/graph/builder.py:892-912 | when a name will resolve to a row of another file once the file is replaced, told from the table before |
| Departures.DeletedCallerLeavesTrace | backend/app/graph/builder.py:279-297 | two files walked from empty, then one emptied, with rows matched as the code matches them: the callee goes on listing its deleted caller |
| Departures.TraceLeft | backend/app/graph/builder.py:279-297 | and so it does after every such call, whatever ids and lists it chooses |
| Departures.RenamedModuleMisleadsImport | backend/app/graph/builder.py:129-136 | two files walked from empty, then the module of one renamed: the import in the other is left bound to it under its old name |
| Departures.PromotedRowMissesSlot | backend/app/graph/ingest_cache.py:46-51 | a class with the key that the file's module gets becomes the module, and an exact module dictionary does not learn of it |
| Departures.SubclassFirstStaysUnbound | backend/app/graph/builder.py:408-427 | two walks over the same two files, one of which leaves an INHERITS edge unbound that the other binds |
| CallArrays.SwappedElements | backend/app/graph/builder.py:754-762 | a swapped list loses the stale entries, gains the fresh ones and repeats nothing |
| CallArrays.SwappedUnchanged | backend/app/graph/builder.py:754-762 | a peer whose edges are unchanged keeps an identical list, order included |
| CallArrays.SwappedInOrder | backend/app/graph/builder.py:754-762 | surviving entries keep their order, and new ones follow them in theirs |
| CallArrays.ScopedRebuildExactIff | backend/app/graph/builder.py:656-663 | a scoped rebuild leaves a node's lists equal to a full recomputation iff the node was touched, a peer, or no call at it changed |
| CallArrays.RefreshOfLoadedRowsExactIff | backend/app/graph/builder.py:558-591 | the refresh after deletions, as written, is exact at a touched row iff all its callers and callees are touched |
| CallArrays.RefreshLosesOutsideCaller | backend/app/graph/builder.py:573-590 | one caller outside the refreshed set is lost |
| CallArrays.SweepTouched | backend/app/graph/builder.py:711-721 | the two chunked sweeps find each bound call at a touched node once |
| CallArrays.GroupPairs | backend/app/graph/builder.py:723-739 | the calls found, distributed over the wanted nodes as duplicate-free lists, calls with an unloaded end skipped |
| CallArrays.WriteBack | backend/app/graph/builder.py:741-751 | touched nodes get their new list, peers a swap, every other node keeps what it had |
| CallArrays.RebuildScoped | backend/app/graph/builder.py:647-751 | the scoped rebuild relists touched nodes, swaps in peers and leaves the rest alone |
| CallArrays.RebuildAll | backend/app/graph/builder.py:534-556 | the full rebuild makes every list exact whatever it was |
| Chunking.Chunked | backend/app/graph/_chunking.py:33-48 | batches in order, nothing lost or repeated, all full but the last, none empty; an error for a size that is not positive |
| GraphStates.PersistConsistentIff | backend/app/graph/builder.py:36-532 | replacing a file keeps a consistent store consistent iff no row that edges of other files are bound to is renamed, and no row that a deleted row called is out of the call's reach |
| GraphStates.DeleteConsistent | backend/app/graph/ingest.py:718-766 | after a file is deleted only the collected peers can have inexact lists |
| GraphStates.RefreshConsistent | backend/app/graph/builder.py:558-591 | loading every row, the refresh repairs all that the deletions left stale |
| GraphStates.RefreshAsWrittenConsistentIff | backend/app/graph/builder.py:573-590 | loading the touched rows only, it does so iff no call leaves the touched set |
| GraphStates.PruneConsistent | backend/app/graph/ingest.py:957-992 | pruning and the full rebuild leave a consistent store with rows of the present files only |
| GraphStates.PersistOwes | backend/app/graph/builder.py:36-532 | replacing a file keeps the lists exact outside an explicit set: those owed before, less the file's rows, and the unreached callees of deleted rows; each of these is inexact |
| GraphStates.RefreshOwes | backend/app/graph/builder.py:558-591 | likewise the refresh: it repairs the touched rows, but as written spoils those that a call joins to an untouched one |
| StoreRuns.StepKeepsGood | backend/app/graph/ingest.py:365-446 | replacing, skipping, deleting, refreshing and pruning each keep the store consistent, holding exactly the current files, and its lists exact outside the owed rows; no step may mislead an edge by a rename |
| StoreRuns.NewlyOwedIsInexact | backend/app/graph/builder.py:489-591 | a row that a replacement or a refresh newly owes does have inexact lists |
| StoreRuns.HistoryGood | backend/app/graph/builder.py:36-532 | so does every history of such steps from the empty repository, as the code is written |
| StoreRuns.IntendedHistoryOwes | backend/app/graph/ingest.py:742-752 | read as intended, only rows that the pending refresh will be given are owed |
| StoreRuns.BoundCallsFromScratch | backend/app/graph/builder.py:378-449 | the bound calls are, by name, those a recomputation from the files gives |
| StoreRuns.ListsFromScratch | backend/app/graph/builder.py:489-515 | and so are the stored callers and callees of a row that is not owed |
| StoreRuns.EdgeFromScratch | backend/app/graph/builder.py:378-449 | an edge that is no INHERITS is bound, by name, to its target iff some file defines it |
| StoreRuns.HistoryIndependence | backend/app/graph/builder.py:378-515 | two histories that end with the same files, no step of which misleads an edge, agree by name on rows, edges, what every edge but INHERITS is bound to, and the lists of rows that neither owes, whatever their order and whatever they replaced on the way |
| StoreRuns.RowsHaveModules | backend/app/graph/builder.py:65-77 | every row belongs to a file with a module row, in every history |
| StoreSessions.BeginWalkGood | backend/app/graph/ingest.py:306-342 | the first commit of a full walk saves a consistent store and newly owes no lists, even when the rebuild is skipped |
| StoreSessions.EveryCommitGood | backend/app/graph/ingest.py:306-446 | what is committed at any point of any schedule of walks, incremental runs and crashes, no step of which misleads an edge, is consistent, holds exactly its files, and has exact lists outside the owed rows |
| StoreSessions.IntendedCommitsOweNothing | backend/app/graph/ingest.py:742-752 | read as intended, all its lists are exact |
| StoreSessions.CommitSurvivesCrash | backend/app/graph/ingest.py:342-446 | a commit saves what the run saw, and a crash goes back to it |
| InheritsOrder.InheritsSettledIff | backend/app/graph/builder.py:892-912 | an INHERITS edge ends up bound as a lookup in the whole repository would bind it, whichever files came before its own, iff the files meet a condition on how many rows of each fit |
| InheritsWalk.WalkBinds | backend/app/graph/builder.py:378-449 | what an INHERITS edge is bound to at any point of a walk, from the files inserted so far and those inserted before its own |
| InheritsWalk.WalksAgreeOnInheritsIff | backend/app/graph/builder.py:378-449 | all walks over the same files bind an INHERITS edge alike iff the files meet that condition |
| WalkOrders.WalkExists | backend/app/graph/ingest.py:365-446 | a walk can take the files in any order |
| InheritsHistory.HistoryBindsAsWhole | backend/app/graph/builder.py:378-449 | an INHERITS edge whose own file defines the target or has several rows that fit, or that nothing fits, is bound as a lookup in the whole repository would bind it, after any history that keeps rows under their names |
| InheritsDetours.HistoriesAgreeOnInheritsIff | backend/app/graph/builder.py:378-449 | all such histories that end with the same files bind an INHERITS edge alike iff it is of that kind |
| IncrementalRuns.IncrementalAgreesIff | backend/app/graph/ingest.py:571-716 | after an incremental run, skips included, the rows, edges, bindings other than INHERITS and lists that are not owed agree by name with a full walk's of the new tree iff the change list strands no file and no file is written before another whose old version has a name that it needs |
| IncrementalRuns.SkippedIff | backend/app/graph/ingest.py:863-909 | an insert is skipped iff one of its names is still held by the old version of another file that the run has yet to rewrite |
| IncrementalRuns.ExchangeIsBlocked | backend/app/graph/ingest.py:571-699 | of two files that exchange names one is skipped, whatever the order |
| IncrementalRuns.RowsLeftAreNewIff | backend/app/graph/ingest.py:571-628 | when the inserts begin every row left is of a file of the new tree iff no file is stranded, so only old versions of such files can hold a name that an insert needs |
| IncrementalRuns.RunExists | backend/app/graph/ingest.py:571-716 | there is such a run for every order of the inserts |
| IncrementalRuns.InheritsAgree | backend/app/graph/builder.py:378-449 | an exact run also binds the INHERITS edges that no history can unsettle as a full walk does |
| CallCounts.CountersReportChange | backend/app/graph/builder.py:396-448 | the reported counters are the change in bound and dangling calls after the file's own edges were cleared |
| CallCounts.WalkTotals | backend/app/graph/ingest.py:389-435 | over a walk into an empty repository, with files skipped by savepoint, the summed counters are the numbers of bound and dangling calls |
| CallCounts.FreshWalkOwesNothing | backend/app/graph/ingest.py:365-446 | such a walk leaves all lists exact, as the code is written |
| RowReplacement.SecondPersistKeepsRows | backend/app/graph/builder.py:89-117 | persisting the same file again keeps every row under its id |
| RowReplacement.RowsRewritten | backend/app/graph/builder.py:112-230 | kept, dropped and inserted rows together are the file's nodes, names unique |
| RowReplacement.OnlyOrphansRenamed | backend/app/graph/extractor.py:94-102 | where a key determines the name, only an orphan module is kept under a new one |
| RowReplacement.RenameSafeIff | backend/app/graph/builder.py:129-136 | so a rename is safe iff no edge of another file is bound to a renamed orphan module |
| RowReplacement.SlotsMirrorIff | backend/app/graph/ingest_cache.py:33-51 | the module dictionary mirrors the table after the call iff the file's module, if it keeps a row, keeps a module's |
| RowReplacement.KindsStay | backend/app/graph/extractor.py:94-102 | where a key tells modules from the rest, a kept row stays a module or stays none |
| MethodParents.CascadeClosed | backend/app/models/code_node.py:83-85 | the cascade of a deletion is closed under children |
| MethodParents.CascadeLeast | backend/app/models/code_node.py:83-85 | and is the least such set |
| MethodParents.DetachedCascadeIsExact | backend/app/graph/builder.py:1027-1051 | after detaching, deleting the doomed rows deletes exactly those |
| MethodParents.CascadeTakesChildren | backend/app/graph/builder.py:1035-1039 | without it the cascade takes every child along |
| MethodParents.SurvivorsKeepParents | backend/app/graph/builder.py:1027-1051 | a surviving row keeps its parent, unless that is gone |
| MethodParents.ParentNameCuts | backend/app/graph/builder.py:1062 | a name with a dot is cut at its last one |
| MethodParents.RightIsNamed | backend/app/graph/builder.py:1054-1068 | parents are right iff every method named `q.last` hangs below the live row named `q`, or below none if there is none |
| MethodParents.PersistPlacesOwnNodes | backend/app/graph/builder.py:239-248 | after the call the file's other nodes hang below the row their parent names in the file, top-level ones below none |
| MethodParents.LocalLinkingSuffices | backend/app/graph/builder.py:328-348 | when parents cannot move, re-linking this file's methods leaves every method's parent as re-linking all would |
| MethodParents.PersistKeepsMethodParents | backend/app/graph/builder.py:328-348 | every method's parent is right after the call: always if all are re-linked, else if it was right before and parents cannot move |
| MethodParents.DeleteKeepsMethodParents | backend/app/models/code_node.py:83-85 | deleting rows keeps every method's parent right |
| ParentRuns.HistoryParentsRight | backend/app/graph/builder.py:328-348 | at every point of every history every method's parent is the row its name says, where methods lie in types and keys tell modules from the rest |
| GraphBuilder.GraphStore.MatchRows | backend/app/graph/builder.py:89-162 | an injective matching that keeps every row whose key the file still has, and an orphan module row for a module no key fits |
| GraphBuilder.GraphStore.KeepRows | backend/app/graph/builder.py:129-165 | kept rows take on the file's content and only pending rows may be missing from the cache, whose module slots a rename leaves alone |
| GraphBuilder.GraphStore.DropRows | backend/app/graph/builder.py:169-188 | exactly the doomed rows go, with their edges; surviving children lose their parent only; ids and names are exact again, and the doomed rows hold no module slot |
| GraphBuilder.GraphStore.InsertRows | backend/app/graph/builder.py:190-237 | a fresh row with empty lists for each node that kept none, cached, with its module slot |
| GraphBuilder.GraphStore.LinkOwnParents | backend/app/graph/builder.py:239-248 | parents named in the file are linked, absent ones left, top-level ones cleared |
| GraphBuilder.GraphStore.LinkMethodParents | backend/app/graph/builder.py:1054-1068 | each method of the scope named `q.last` hangs below the row named `q`; every other row keeps its parent |
| GraphBuilder.GraphStore.ResolveTarget | backend/app/graph/builder.py:892-912 | by name, or for INHERITS by a last segment that only one row fits |
| GraphBuilder.GraphStore.InsertEdges | backend/app/graph/builder.py:350-406 | each extracted edge once, bound if its target is known, and counted |
| GraphBuilder.GraphStore.RebindEdges | backend/app/graph/builder.py:408-449 | every dangling edge to an affected name is resolved again; sources, call targets and the number newly bound |
| GraphBuilder.GraphStore.ReplaceRows | backend/app/graph/builder.py:79-348 | node table, cache and parents from the first match to the last link |
| GraphBuilder.GraphStore.PersistGraph | backend/app/graph/builder.py:36-532 | the whole call: one row with each node's own columns, other files' rows untouched; edges, lists, parents and counters are those the specification names; an exact cache stays exact iff module rows stay module rows; methods hang below the rows their names say; nothing for a file without nodes |
| GraphBuilder.GraphStore.PersistInSavepoint | backend/app/graph/ingest.py:834-909 | success is as `PersistGraph` says, parents and cache included; a file that raises, or whose names are taken, is skipped and leaves tables and cache as they were |
| GraphBuilder.GraphStore.RollBack | backend/app/graph/ingest.py:108-143 | whatever an attempt left behind, rollback and refresh restore the tables and all three dictionaries of the cache |
| GraphBuilder.GraphStore.DeleteSourceFile | backend/app/graph/ingest.py:88-105 | the file's rows go, children elsewhere stay, and the peers are the survivors an edge joins to them |
| GraphBuilder.GraphStore.RebuildRelationshipsScoped | backend/app/graph/builder.py:558-591 | the refresh of the touched rows |
| GraphBuilder.GraphStore.BeginWalk | backend/app/graph/ingest.py:306-342 | prune, then rebuild every list unless exactly the indexed files are present |
| IngestCache.GraphIngestCache.Add | backend/app/graph/ingest_cache.py:33-37 | an exact mirror of a table stays one when a row that its indexes accept is added |
| IngestCache.GraphIngestCache.Remove | backend/app/graph/ingest_cache.py:39-44 | in the middle of a replacement, a removal settles its row and disturbs no other |
| IngestCache.GraphIngestCache.Rename | backend/app/graph/ingest_cache.py:46-51 | likewise a rename, also to a name that another row has yet to give up |
| IngestCache.GraphIngestCache.Refresh | backend/app/graph/ingest.py:108-143 | an exact mirror of the rows, whatever the dictionaries held |
| IngestCache.BatchKeepsMirror | backend/app/graph/ingest_cache.py:33-51 | any batch of renames and removals with distinct final names, swaps and cycles included, and then any additions, takes an exact mirror of the three dictionaries to an exact mirror |
| NodeDedupe.DedupeNodesByQualifiedName | backend/app/graph/builder.py:771-794 | one definition per name, the last, in order of first occurrence, with every signature kept |
| NodeDedupe.DedupedNamesDistinct | backend/app/graph/builder.py:52-61 | the unique index on names accepts the result |
| NodeDedupe.DedupedInOrder | backend/app/graph/builder.py:771-794 | definitions come in the order in which their names first occur, each with what the last definition of its name carries |
| NodeDedupe.DistinctUntouched | backend/app/graph/builder.py:771-794 | names that are distinct already are left alone |
| Ingest.GraphIngest.IngestFullWalk | backend/app/graph/ingest.py:261-454 | from whatever index, the walk ends with the exact index of the tree, but for files that failed, which are as they were and exactly what the next walk has to parse; it parses exactly the outdated files and leaves fewer than 200 of them uncommitted |
| Ingest.GraphIngest.IngestIncrementalFromGit | backend/app/graph/ingest.py:456-716 | if the root go.mod is touched or any row has a stale stamp, the run ends with the exact index but for files that failed; otherwise, from the exact index of the old tree, it ends with that of the new tree iff the change list strands no file and every file that failed was there already as it should be; so right hashes suffice whatever the stamps; its first insert finds only rows of files in the new index iff none is stranded |
| Ingest.Classify | backend/app/graph/ingest.py:518-569 | which paths the sorted changes delete and write, and which Go packages they touch |
| SourceTree.LanguageBySuffix | backend/app/graph/languages.py:72-74 | the language goes by the suffix, in whatever case |
| SourceTree.NoSuffix | backend/app/graph/languages.py:72-74 | a dot at the start or the end of a name begins no suffix |
| SourceTree.NameInDirectory | backend/app/graph/ingest.py:1068-1070 | the package of a file is its directory |
| SourceTree.NoiseMeans | backend/app/graph/ingest.py:1074-1090 | a JS or TS file is noise iff one of its directories is, or it is minified |
| ChangeLists.OutcomeExactIff | backend/app/graph/ingest.py:571-699 | for any correct change list the incremental index equals a full walk's iff no Python file was renamed into pruned JS from a noise directory and no Go file with an odd suffix was dropped |
| ChangeLists.InsertsStartCleanIff | backend/app/graph/ingest.py:571-628 | when the first insert runs, only files of the new tree are left, under the same condition |
| ChangeLists.RenameIntoNoiseStrands | backend/app/graph/ingest.py:558-567 | `build/x.py` renamed to `build/x.js` is such a case |
| ChangeLists.UpperCaseSuffixStrands | backend/app/graph/ingest.py:490-494 | a deleted `a.GO` is the other |
| WalkResume.CrashLosesAtMost200 | backend/app/graph/ingest.py:394-395 | a crash adds at most 200 files to what is left to do |
| WalkResume.FinishedWalkIsExact | backend/app/graph/ingest.py:365-446 | a walk that finishes has committed the exact index but for the files that failed, which is exact iff none did |
| WalkResume.ScheduleAccounted | backend/app/graph/ingest.py:306-446 | at every point of every schedule, files attempted and files still to do are covered by the work there was, 200 for each crash and the failures |
| WalkResume.ResumedWalkAgrees | backend/app/graph/ingest.py:306-446 | however often it crashed, the walk that finishes leaves the index that one uninterrupted walk from the first index would if the same files failed, all of them outdated at the start |
| Importance.PushStep | backend/app/graph/importance.py:53-61 | the in-place push loop computes the pull-style matrix step, and every node gets its share of the teleport and of idle rank and, from each caller, a portion of its rank in proportion to the calls |
| Importance.StepEntry | backend/app/graph/importance.py:53-61 | the same of the matrix step, entry by entry |
| Importance.ComputeImportance | backend/app/graph/importance.py:50-74 | the scores are the iterate at which the loop stopped, of total mass 1; normalising changes nothing |
| Importance.BuildOutEdges | backend/app/graph/importance.py:34-48 | as multisets, the stored callees less self calls and unknown ids |
| Importance.IterateIsDistribution | backend/app/graph/importance.py:50-64 | every iterate has mass 1 and no entry below (1 - damping) / n |
| Importance.StepContracts | backend/app/graph/importance.py:53-61 | one step shrinks L1 distance by the damping factor |
| Importance.DeltaGeometric | backend/app/graph/importance.py:63-66 | the k-th delta is at most 2 * damping^k |
| Importance.StoppingError | backend/app/graph/importance.py:63-66 | stopping below tol leaves at most tol * damping / (1 - damping) to any fixed point |
| Importance.FixpointUnique | backend/app/graph/importance.py:52-64 | any two fixed points are equal |
| Importance.LaterIteratesStayClose | backend/app/graph/importance.py:52-66 | iterating on never moves the scores by more than that error |
| GoExpressions.VerdictIsClassical | backend/app/graph/go_variants.py:437-461 | a definite verdict is the classical value however the open tags are decided |
| GoExpressions.UndeterminedIsUnknown | backend/app/graph/go_variants.py:437-461 | a constraint two decisions settle differently is UNKNOWN |
| GoExpressions.UnknownIffOccurrencesDisagree | backend/app/graph/go_variants.py:437-461 | UNKNOWN iff deciding the open tags occurrence by occurrence can make it hold and can make it fail |
| GoExpressions.OneWayUnknownIffUndetermined | backend/app/graph/go_variants.py:437-461 | if no open tag occurs both negated and not, UNKNOWN iff two decisions of the open tags settle the constraint differently |
| GoExpressions.DeterminedYetUnknown | backend/app/graph/go_variants.py:437-439 | `unix` or not `unix` always holds and is UNKNOWN |
| GoTruth.DecidedLogic | backend/app/graph/go_variants.py:437-461 | among decided values the three operations are the classical ones |
| GoTruth.VersionRoundTrip | backend/app/graph/go_variants.py:180-184 | `M.N`, with or without `go` and a patch level, is version (M, N) |
| GoTruth.OtherVersionText | backend/app/graph/go_variants.py:180-184 | any other text counts as 1.22 |
| GoTruth.GoTagMeans | backend/app/graph/go_variants.py:398-400 | the tag `go1.N` holds exactly from version 1.N on |
| GoTruth.ProfileTagsMean | backend/app/graph/go_variants.py:389-397 | of the supported systems and architectures exactly the profile's own hold; `cgo` and `nocgo` are opposites |
| GoTruth.OpenTags | backend/app/graph/go_variants.py:401-402 | other systems, architectures and compilers that Go knows are left open |
| GoTruth.OpenFeatureTags | backend/app/graph/go_variants.py:422-428 | and so is an architecture followed by a dot and anything |
| GoTruth.OtherTags | backend/app/graph/go_variants.py:403-419 | any other tag is absent |
| GoTokens.Tokenize | backend/app/graph/go_variants.py:315-328 | the loop yields the tokens of the text, or its error |
| GoTokens.TokensRoundTrip | backend/app/graph/go_variants.py:315-328 | written tokens read back, however spaced |
| GoTokens.ReadTokensWereWritten | backend/app/graph/go_variants.py:315-328 | and only written tokens are read: a text that is accepted is its tokens, spaced so that no two words run together |
| GoParser.TokenParser.DoParseOr | backend/app/graph/go_variants.py:343-348 | the stateful parser returns the value and leaves the tokens that the grammar says |
| GoParser.TokenParser.DoParsePrimary | backend/app/graph/go_variants.py:363-373 | likewise, with both readings of the call at line 369 |
| GoParser.EvaluateBuildExpression | backend/app/graph/go_variants.py:302-312 | the verdict, or an error for an empty text or tokens left over |
| GoParser.EvaluationRoundTrip | backend/app/graph/go_variants.py:302-386 | any tree printed with the parentheses it needs evaluates to its Kleene value, with or below and below not; as written, iff it needs none |
| GoParser.SingleSpacesSuffice | backend/app/graph/go_variants.py:315-328 | every tree has a spacing of the kind that the round trip asks for |
| GoParser.ParenthesesDefeatTheCode | backend/app/graph/go_variants.py:367-371 | a constraint that the code as written cannot evaluate |
| GoParser.LeftoverRejected | backend/app/graph/go_variants.py:302-312 | tokens after a complete expression are an error |
| GoParser.MissingOperandRejected | backend/app/graph/go_variants.py:363-366 | so are a missing operand and an empty expression |
| GoParser.UnclosedRejected | backend/app/graph/go_variants.py:367-371 | and an unclosed parenthesis |
| GoParser.StrayOperatorIsTag | backend/app/graph/go_variants.py:372-373 | an operator where an operand should be is an absent tag |
| GoParser.SelectionMeans | backend/app/graph/go_variants.py:187-202 | a file is selected iff neither its name nor its constraint stands in the way |
| GoParser.OppositeGuards | backend/app/graph/go_variants.py:187-202 | files guarded by an expression and by its negation are never both selected |
| RefreshTokens.ReachableInv | backend/app/api/auth.py:559-595 | the protocol invariant holds after any interleaving |
| RefreshTokens.ExchangedAtMostOnce | backend/app/api/auth.py:584-595 | each refresh token is exchanged at most once |
| RefreshTokens.NoExchangeAfterRevocation | backend/app/api/auth.py:584-590 | no exchange commits after a revocation commits |
| RefreshTokens.ExchangesAreTheLinks | backend/app/api/auth.py:584-590 | a family's exchanges are the links of one chain, which never forks |
| RefreshTokens.LiveChain | backend/app/api/auth.py:475-482 | the tokens issued in a live family form that chain, and it ends at `current_jti` |
| RefreshTokens.ReuseClosesFamily | backend/app/api/auth.py:565-574 | presenting an exchanged token leaves the family revoked for good once that request has run its course |
| RefreshTokens.ClosedForever | backend/app/api/auth.py:503-526 | a revoked family stays revoked |
| RefreshTokens.LosingSwapChangesNothing | backend/app/api/auth.py:593-595 | of two requests with one token, the second to swap changes no table |
| RefreshTokens.RefreshGoesThrough | backend/app/api/auth.py:565-595 | a request with the current token of a live family is exchanged, whatever others do in between, if the family's row is left as it was |
| RefreshTokens.OnlyAskedForRevoked | backend/app/api/auth.py:565-574 | a family is revoked only if someone logged out of it or presented a token that was not current |
| RefreshTokens.LogoutClosesFamily | backend/app/api/auth.py:503-526 | a logout that runs its course leaves the family revoked or gone for good |
| RefreshTokens.LoginOpensFamily | backend/app/api/auth.py:475-482 | a login opens a live family whose first token is current |
| RateLimit.InMemoryRateLimiter.Hit | backend/app/core/rate_limit.py:136-157 | the verdict and remaining count of one INCR and EXPIRE NX on any Redis counter that agrees with the key's window, which still agrees afterwards; other keys unchanged |
| RateLimit.InMemoryRateLimiter.Check | backend/app/core/rate_limit.py:159-175 | the verdict and remaining count of a GET on such a counter; no key's window changes |
| RateLimit.AtMostLimitPerWindow | backend/app/core/rate_limit.py:127-153 | at most the limit is allowed in one window |
| RateLimit.LessThanTwiceLimitPerInterval | backend/app/core/rate_limit.py:127-153 | fewer than twice the limit in any half-open interval one window long |
| RateLimit.TwiceLimitLessOneIsReached | backend/app/core/rate_limit.py:127-153 | and that bound is reached |
| RateLimit.CheckPredictsHit | backend/app/core/rate_limit.py:49-54 | `check` allows exactly when the next `hit` would |
| RateLimit.WaitingOutRetryAfter | backend/app/core/rate_limit.py:155-157 | a denied caller who waits as told finds the window expired and is allowed |
| RateLimit.RetryAfterIsTight | backend/app/core/rate_limit.py:155-157 | the stated wait is at most one second too long |
| RateLimit.RemainingIsExact | backend/app/core/rate_limit.py:146-153 | `remaining` is the number of further hits that would be allowed at once |
| RateLimit.CheckRemainingIsExact | backend/app/core/rate_limit.py:159-175 | likewise after a check |
| RateLimit.InMemoryRefinesRedis | backend/app/core/rate_limit.py:58-108 | on every trace the in-memory limiter and the Redis counter give the same verdicts and remaining counts |

## Left out

- GraphBuilder.GraphStore.PersistGraph: takes one file whose nodes have distinct names (what `NodeDedupe` ensures) and no symbol key twice; the code also accepts several files at once. A file with nodes has a module among them, as extraction gives every file (backend/app/graph/builder.py:120 raises a KeyError otherwise). A name taken by another file is the error that `PersistInSavepoint` handles.
- MethodParents.PersistKeepsMethodParents: when parents cannot move it supposes, as the comment at backend/app/graph/builder.py:328-332 does, that a method's parent is never a module, and that a kept row does not turn from module to non-module or back; likewise MethodParents.LocalLinkingSuffices.
- MethodParents.LocalLinkingSuffices: as the line before.
- InheritsHistory.HistoryBindsAsWhole: supposes that rows which INHERITS edges of other files are bound to are kept under the same names only, which is what `RowReplacement.RenameSafeIff` says of other edges. `WalkOrders.WalkExists` and `InheritsDetours.HistoriesAgreeOnInheritsIff` take the histories in question to be those of the store, with whatever ids and lists the code may choose.
- IncrementalRuns.IncrementalAgreesIff: no step misleads an edge by a rename, a file is skipped only because its names are taken, and each is written once; a file's content hash determines what is extracted from it, and no two files of the new tree define the same name. What INHERITS edges are bound to is in `InheritsAgree`.
- StoreRuns.StepKeepsGood: supposes that the step does not keep a row that edges of other files are bound to under another name (`MisleadsNone`); `RowReplacement.RenameSafeIff` says when that is.
- StoreRuns.HistoryGood: supposes it of every step.
- StoreRuns.HistoryIndependence: supposes it of every step of both histories.
- StoreSessions.EveryCommitGood: supposes it of every operation of the schedule.
- ParentRuns.HistoryParentsRight: likewise, and supposes that no method's parent is named like a module.
- Ingest.GraphIngest.IngestFullWalk: works on the module rows alone; which files fail is arbitrary. The order in which files are visited is arbitrary, not sorted.
- Ingest.GraphIngest.IngestIncrementalFromGit: as the full walk; reading the change list from git's output is not modelled.
- ChangeLists.OutcomeExactIff: a change list is correct as `Describes` says; git's copies are not changes.
- RateLimit.InMemoryRefinesRedis: compares verdicts and remaining counts, not `retry_after_seconds`, which Redis rounds in its own way.
- Importance.StoppingError: over exact reals, and for any fixed point there is; that one exists is not proved, which is why `LaterIteratesStayClose` is stated without one. Floating-point rounding and the sorting of edge lists are not modelled.
- RefreshTokens.ReachableInv: token signatures are unforgeable and jtis fresh; cookies, clocks and user records are not modelled.
- Canonical target names: an extracted edge already carries the name that will be stored, so names that depend on what happens to be loaded (backend/app/graph/builder.py:806-889) are outside the model.
- Row columns that nothing here depends on: content, positions, temporal metadata, `node_metadata` and its `unresolved_calls`.
- File-name constraints and the extraction of `//go:build` lines (backend/app/graph/go_variants.py:205-299): a verdict on the name is a parameter.
- Errors that abort a whole ingest, such as a Go variant collision: the transaction is rolled back and the run has no result.
- Concurrency inside one ingest run: the code has none.
- HTTP handlers, OIDC, SCIM, search and embeddings: nothing in them is as hard as the parts above.
