/**
 * The smallest states in which `persist_graph` does not do what it says.  Each is reached from the
 * empty repository: a walk over the files shown, and one more call whose kept rows are those that the
 * code's own matching keeps.
 */
module Departures {
  import opened Wrappers
  import opened CodeGraph
  import opened CallArrays
  import opened FileRewrite
  import opened CallScope
  import opened GraphStates
  import opened IngestCache
  import opened RowReplacement
  import opened StoreRuns
  import opened CallCounts
  import opened WalkOrders
  import opened InheritsOrder
  import opened InheritsWalk

  // ---- Stores that a walk leaves ----

  lemma WalkOver(files: map<Path, File>, r: Reading) returns (s: Store)
    requires Extracted(files)
    ensures WalkLeaves(files, r, s)
  {
    hide Extracted, FreshWalk;
    var order := ListExists(files.Keys);
    var states, ops := WalkExists(files, order, r, |order|);
    WholePrefix(files, order);
    s := states[|ops|];
  }

  lemma WalkLeft(files: map<Path, File>, r: Reading, s: Store)
    requires WalkLeaves(files, r, s)
    ensures Good(s) && s.owed == {} && s.files == files
  {
    hide FreshWalk, Good, Consistent;
    var states, ops := WalkLeaving(files, r, s);
    WalkIsHistory(states, ops, r);
    HistoryGood(states, ops, r, |ops|);
    FreshWalkOwesNothing(states, ops, r, |ops|);
  }

  lemma RowOfNode(s: Store, p: Path, x: XNode) returns (id: Id)
    requires Good(s) && p in s.files && x in s.files[p].nodes
    ensures id in FileRows(s.db.nodes, p) && s.db.nodes[id] == RowOf(s.files[p], x)
  {
    hide Consistent, EdgesRepresent, HasModule;
    assert RowOf(s.files[p], x) in AllRows(s.files);
    id := RowWithValue(s.db.nodes, RowOf(s.files[p], x));
  }

  lemma NodeOfRow(s: Store, p: Path, id: Id) returns (x: XNode)
    requires Good(s) && id in FileRows(s.db.nodes, p)
    ensures p in s.files && x in s.files[p].nodes && s.db.nodes[id] == RowOf(s.files[p], x)
  {
    hide Consistent, EdgesRepresent, HasModule;
    assert s.db.nodes[id] in s.db.nodes.Values;
    x := DeclaredRow(s.files, s.db.nodes[id]);
  }

  lemma EdgeOfFile(s: Store, k: EdgeKey)
    requires Good(s) && k in s.db.edges
    ensures k.source in s.db.nodes && s.db.nodes[k.source].path in s.files
    ensures XEdge(s.db.nodes[k.source].qn, k.etype, k.target) in s.files[s.db.nodes[k.source].path].edges
  {
    hide NamesBoundRight, ListsExactOutside, HasModule, NamesUnique;
    RowHasName(s.db.nodes, s.files, k.source);
  }

  lemma SameRow(s: Store, a: Id, b: Id)
    requires Good(s) && a in s.db.nodes && b in s.db.nodes && s.db.nodes[a].qn == s.db.nodes[b].qn
    ensures a == b
  {
  }

  /** An edge of a file whose target is the name of a row is bound to that row. */
  lemma BoundEdge(s: Store, a: Id, b: Id, e: XEdge)
    requires Good(s) && a in s.db.nodes && b in s.db.nodes && s.db.nodes[b].qn == e.target && !e.etype.Inherits?
    requires s.db.nodes[a].qn == e.source && s.db.nodes[a].path in s.files && e in s.files[s.db.nodes[a].path].edges
    ensures var k := EdgeKey(a, e.etype, e.target); k in s.db.edges && s.db.edges[k] == Some(b)
  {
    hide ListsExactOutside, HasModule;
    var k := EdgeKey(a, e.etype, e.target);
    assert k in s.db.edges && BoundRight(s.db.nodes, s.db.edges, k);
    assert Named(s.db.nodes, k.target, b);
  }

  lemma OneNode(f: File, x: XNode)
    requires f.nodes == [x] && x.kind.Module?
    ensures Names(f) == {x.qn} && DistinctNames(f) && DistinctKeys(f) && HasModule(f)
    ensures KeysUpTo(f, |f.nodes|) == {x.key}
    ensures forall y :: y in f.nodes <==> y == x
  {
    assert f.nodes[..1] == f.nodes;
    assert x in f.nodes;
  }

  lemma TwoNodes(f: File, x: XNode, y: XNode)
    requires f.nodes == [x, y] && x.qn != y.qn && x.kind.Module?
    ensures Names(f) == {x.qn, y.qn} && DistinctNames(f) && HasModule(f)
    ensures forall z :: z in f.nodes <==> z == x || z == y
  {
    assert f.nodes[0] == x && f.nodes[1] == y;
    assert x in f.nodes && y in f.nodes;
  }

  // ---- A deleted caller leaves a trace ----

  ghost const MODULE_A := XNode("ka", "a", Module, "a", None)
  ghost const CALLER := XNode("kf", "a.f", Other, "f", Some("a"))
  ghost const CALL := XEdge("a.f", Calls, "b.g")
  ghost const CALLER_FILE := File("a.py", [MODULE_A, CALLER], [CALL])
  ghost const MODULE_B := XNode("kb", "b", Module, "b", None)
  ghost const CALLEE := XNode("kg", "b.g", Other, "g", Some("b"))
  ghost const CALLEE_FILE := File("b.py", [MODULE_B, CALLEE], [])
  ghost const CALLING: map<Path, File> := map["a.py" := CALLER_FILE, "b.py" := CALLEE_FILE]
  ghost const EMPTIED := File("a.py", [MODULE_A], [])

  lemma CallingExtracted()
    ensures Extracted(CALLING)
  {
    hide DistinctNames, HasModule, Names;
    TwoNodes(CALLER_FILE, MODULE_A, CALLER);
    TwoNodes(CALLEE_FILE, MODULE_B, CALLEE);
  }

  /** The matching keeps the module's row and dooms the caller's. */
  lemma EmptiedKeeps(s: Store, kept: map<Name, Id>) returns (m: Id, c: Id, g: Id)
    requires Good(s) && s.files == CALLING
    requires Matching(s.db.nodes, EMPTIED, kept) && RowsReused(s.db.nodes, EMPTIED, kept)
    ensures m in s.db.nodes && s.db.nodes[m] == RowOf(CALLER_FILE, MODULE_A)
    ensures c in s.db.nodes && s.db.nodes[c] == RowOf(CALLER_FILE, CALLER)
    ensures g in s.db.nodes && s.db.nodes[g] == RowOf(CALLEE_FILE, CALLEE)
    ensures kept.Values == {m} && Doomed(s.db.nodes, EMPTIED, kept) == {c}
  {
    hide Good;
    var nodes := s.db.nodes;
    TwoNodes(CALLER_FILE, MODULE_A, CALLER);
    TwoNodes(CALLEE_FILE, MODULE_B, CALLEE);
    OneNode(EMPTIED, MODULE_A);
    m := RowOfNode(s, "a.py", MODULE_A);
    c := RowOfNode(s, "a.py", CALLER);
    g := RowOfNode(s, "b.py", CALLEE);
    forall id | id in FileRows(nodes, "a.py")
      ensures id == m || id == c
    {
      var x := NodeOfRow(s, "a.py", id);
      SameRow(s, id, if x == MODULE_A then m else c);
    }
    assert FileRows(nodes, "a.py") == {m, c};
    assert HasKey(nodes, EMPTIED, "ka");
    assert Reused(nodes, EMPTIED, kept, MODULE_A);
    assert kept["a"] in kept.Values && kept["a"] == m;
    assert kept.Keys == {"a"} && kept.Values == {m};
  }

  lemma OnlyOneCall(s: Store, k: EdgeKey, c: Id)
    requires Good(s) && s.files == CALLING && k in s.db.edges
    requires c in s.db.nodes && s.db.nodes[c] == RowOf(CALLER_FILE, CALLER)
    ensures k.source == c
  {
    hide Good;
    EdgeOfFile(s, k);
    SameRow(s, k.source, c);
  }

  lemma CalleeLeftStale(s: Store, kept: map<Name, Id>, m: Id, c: Id, g: Id)
    requires Good(s) && s.files == CALLING && m in s.db.nodes && s.db.nodes[m] == RowOf(CALLER_FILE, MODULE_A)
    requires c in s.db.nodes && s.db.nodes[c] == RowOf(CALLER_FILE, CALLER)
    requires g in s.db.nodes && s.db.nodes[g] == RowOf(CALLEE_FILE, CALLEE)
    requires kept.Values == {m} && Doomed(s.db.nodes, EMPTIED, kept) == {c}
    ensures EdgeKey(c, Calls, "b.g") in s.db.edges && s.db.edges[EdgeKey(c, Calls, "b.g")] == Some(g)
    ensures LeftStale(s.db.nodes, s.db.edges, EMPTIED, kept, g)
  {
    hide Good;
    BoundEdge(s, c, g, CALL);
    forall k | k in s.db.edges
      ensures k.source == c
    {
      OnlyOneCall(s, k, c);
    }
  }

  lemma ListsBefore(s: Store, c: Id, g: Id)
    requires Good(s) && s.owed == {} && g in s.db.nodes
    requires var k := EdgeKey(c, Calls, "b.g"); k in s.db.edges && s.db.edges[k] == Some(g)
    ensures g in s.db.callers && c in s.db.callers[g]
  {
    hide NamesBoundRight, RowsRepresent, EdgesRepresent, HasModule;
    assert ListsExact(s.db, g);
    CallPairIn(s.db.edges, EdgeKey(c, Calls, "b.g"));
    assert c in CallersOf(CallPairs(s.db.edges), g);
  }

  /** A row that the call does not reach keeps its lists. */
  lemma OutOfReach(s: Store, f: File, kept: map<Name, Id>, ids: map<Name, Id>, t: Store, r: Reading, n: Id)
    requires Good(s) && StepTo(s, Persist(f, kept, ids), t, r) && r.collection.AsWritten?
    requires LeftStale(s.db.nodes, s.db.edges, f, kept, n) && n in s.db.callers
    ensures n in t.db.nodes && n in t.db.callers && t.db.callers[n] == s.db.callers[n]
  {
    hide ScopeOf, Reached, RowsRepresent, EdgesRepresent, HasModule, ListsExactOutside, NodesRewritten, Assigned, Swept;
    InScopeIffReached(s.db.nodes, s.db.edges, f, kept, ids, t.db.nodes, n);
    OutsideRowStays(s.db.nodes, s.db.edges, f, kept, ids, t.db.nodes, n);
  }

  /**
   * The caller in `a.py` is deleted.  Its one callee, in `b.py`, is not reached: whatever the
   * outcome of the call, the callee goes on listing a row that is gone.
   */
  lemma TraceLeft(s: Store, kept: map<Name, Id>, ids: map<Name, Id>, t: Store, r: Reading) returns (c: Id, g: Id)
    requires WalkLeaves(CALLING, r, s) && r.collection.AsWritten?
    requires StepTo(s, Persist(EMPTIED, kept, ids), t, r) && RowsReused(s.db.nodes, EMPTIED, kept)
    ensures MisleadsNone(s, Persist(EMPTIED, kept, ids))
    ensures g in t.db.nodes && t.db.nodes[g].qn == "b.g" && g in t.db.callers && !ListsExact(t.db, g)
    ensures c in t.db.callers[g] && c !in t.db.nodes
  {
    hide WalkLeaves, Good, StepTo, RowsReused, LeftStale, ListsExact, MisleadsNone;
    WalkLeft(CALLING, r, s);
    StepMatches(s, EMPTIED, kept, ids, t, r);
    var m;
    m, c, g := EmptiedKeeps(s, kept);
    CalleeLeftStale(s, kept, m, c, g);
    ListsBefore(s, c, g);
    OutOfReach(s, EMPTIED, kept, ids, t, r, g);
    ModuleKeepsName(s, kept, m);
    KeepingMisleadsNone(s, EMPTIED, kept, ids);
    Owes(s, EMPTIED, kept, ids, t, r, g);
    NewlyOwedIsInexact(s, Persist(EMPTIED, kept, ids), t, r, g);
    Gone(s, EMPTIED, kept, ids, t, r, c);
    PersistRewrites(s, EMPTIED, kept, ids, t, r);
    OutsideRowStays(s.db.nodes, s.db.edges, EMPTIED, kept, ids, t.db.nodes, g);
  }

  lemma StepMatches(s: Store, f: File, kept: map<Name, Id>, ids: map<Name, Id>, t: Store, r: Reading)
    requires StepTo(s, Persist(f, kept, ids), t, r)
    ensures Matching(s.db.nodes, f, kept) && Assigned(s.db.nodes, f, kept, ids)
  {
  }

  lemma ModuleKeepsName(s: Store, kept: map<Name, Id>, m: Id)
    requires Matching(s.db.nodes, EMPTIED, kept) && kept.Values == {m}
    requires m in s.db.nodes && s.db.nodes[m].qn == "a"
    ensures forall q :: q in kept ==> kept[q] in s.db.nodes && s.db.nodes[kept[q]].qn == q
  {
    OneNode(EMPTIED, MODULE_A);
    assert forall q :: q in kept ==> kept[q] in kept.Values;
  }

  lemma Owes(s: Store, f: File, kept: map<Name, Id>, ids: map<Name, Id>, t: Store, r: Reading, n: Id)
    requires StepTo(s, Persist(f, kept, ids), t, r) && r.collection.AsWritten? && n in s.db.nodes
    requires LeftStale(s.db.nodes, s.db.edges, f, kept, n)
    ensures n in t.owed
  {
    hide Persisted, LeftStale;
  }

  lemma Gone(s: Store, f: File, kept: map<Name, Id>, ids: map<Name, Id>, t: Store, r: Reading, c: Id)
    requires StepTo(s, Persist(f, kept, ids), t, r) && c in Doomed(s.db.nodes, f, kept)
    ensures c !in t.db.nodes
  {
    hide Rebuilt, ScopeOf;
    if c in ids.Values {
      OldIdIsKept(s.db.nodes, f, kept, ids, c);
    }
  }

  lemma DeletedCallerLeavesTrace(r: Reading)
    returns (s: Store, kept: map<Name, Id>, ids: map<Name, Id>, t: Store, c: Id, g: Id)
    requires r.collection.AsWritten?
    ensures WalkLeaves(CALLING, r, s) && RowsReused(s.db.nodes, EMPTIED, kept)
    ensures StepTo(s, Persist(EMPTIED, kept, ids), t, r) && MisleadsNone(s, Persist(EMPTIED, kept, ids))
    ensures g in t.db.nodes && t.db.nodes[g].qn == "b.g" && g in t.db.callers && !ListsExact(t.db, g)
    ensures c in t.db.callers[g] && c !in t.db.nodes
  {
    hide WalkLeaves, Good, StepTo, RowsReused, ListsExact, MisleadsNone, Extracted, HasModule, DistinctNames, NamesFree;
    CallingExtracted();
    s := WalkOver(CALLING, r);
    WalkLeft(CALLING, r, s);
    kept := EmptiedMatching(s);
    var ids', t' := CanPersist(s, EMPTIED, kept, r);
    ids, t := ids', t';
    c, g := TraceLeft(s, kept, ids, t, r);
  }

  lemma EmptiedMatching(s: Store) returns (kept: map<Name, Id>)
    requires Good(s) && s.files == CALLING
    ensures Storable(s.db.nodes, EMPTIED, kept) && RowsReused(s.db.nodes, EMPTIED, kept)
  {
    hide Good;
    TwoNodes(CALLEE_FILE, MODULE_B, CALLEE);
    OneNode(EMPTIED, MODULE_A);
    var m := RowOfNode(s, "a.py", MODULE_A);
    kept := map["a" := m];
    assert HasKey(s.db.nodes, EMPTIED, "ka");
    forall id | id in s.db.nodes && s.db.nodes[id].path != "a.py"
      ensures s.db.nodes[id].qn != "a"
    {
      PathsInFiles(s, id);
      var x := NodeOfRow(s, s.db.nodes[id].path, id);
    }
  }

  lemma PathsInFiles(s: Store, id: Id)
    requires Good(s) && id in s.db.nodes
    ensures s.db.nodes[id].path in s.files
  {
    hide Consistent, EdgesRepresent, HasModule;
    RowHasName(s.db.nodes, s.files, id);
  }

  // ---- A renamed module keeps an edge under its old name ----

  ghost const IMPORT := XEdge("b", Imports, "a")
  ghost const IMPORTED_FILE := File("a.py", [MODULE_A], [])
  ghost const IMPORTER_FILE := File("b.py", [MODULE_B], [IMPORT])
  ghost const IMPORTING: map<Path, File> := map["a.py" := IMPORTED_FILE, "b.py" := IMPORTER_FILE]
  ghost const NEW_MODULE := XNode("kn", "p.a", Module, "a", None)
  ghost const RENAMED := File("a.py", [NEW_MODULE], [])

  lemma ImportingExtracted()
    ensures Extracted(IMPORTING)
  {
    hide DistinctNames, HasModule, Names;
    OneNode(IMPORTED_FILE, MODULE_A);
    OneNode(IMPORTER_FILE, MODULE_B);
  }

  lemma ImportingRows(s: Store) returns (m: Id, b: Id)
    requires Good(s) && s.files == IMPORTING
    ensures m in s.db.nodes && s.db.nodes[m] == RowOf(IMPORTED_FILE, MODULE_A) && FileRows(s.db.nodes, "a.py") == {m}
    ensures b in s.db.nodes && s.db.nodes[b] == RowOf(IMPORTER_FILE, MODULE_B)
    ensures IsOrphan(s.db.nodes, RENAMED, m) && Homeless(s.db.nodes, RENAMED, NEW_MODULE)
    ensures KeysDetermineNames(s.db.nodes, RENAMED)
  {
    hide Good;
    OneNode(IMPORTED_FILE, MODULE_A);
    OneNode(IMPORTER_FILE, MODULE_B);
    OneNode(RENAMED, NEW_MODULE);
    m := RowOfNode(s, "a.py", MODULE_A);
    b := RowOfNode(s, "b.py", MODULE_B);
    forall id | id in FileRows(s.db.nodes, "a.py")
      ensures id == m
    {
      var x := NodeOfRow(s, "a.py", id);
      SameRow(s, id, m);
    }
  }

  /**
   * The module of `a.py` gets a new name and, with it, a new key; its row is reused all the same, and
   * the import in `b.py` stays bound to it under the old name, whatever the outcome of the call.
   */
  lemma ImportMisled(s: Store, kept: map<Name, Id>, ids: map<Name, Id>, t: Store, r: Reading)
    requires WalkLeaves(IMPORTING, r, s)
    requires StepTo(s, Persist(RENAMED, kept, ids), t, r) && RowsReused(s.db.nodes, RENAMED, kept)
    ensures KeysDetermineNames(s.db.nodes, RENAMED) && !NamesBoundRight(t.db.nodes, t.db.edges)
  {
    hide WalkLeaves, Good, StepTo, IsOrphan, Homeless, KeysDetermineNames, Reused;
    WalkLeft(IMPORTING, r, s);
    StepMatches(s, RENAMED, kept, ids, t, r);
    var m, b := ImportingRows(s);
    OneNode(RENAMED, NEW_MODULE);
    assert NEW_MODULE in RENAMED.nodes;
    assert "p.a" in kept;
    KeptAmong(s.db.nodes, RENAMED, kept, "p.a", m);
    BoundEdge(s, b, m, IMPORT);
    PersistRewrites(s, RENAMED, kept, ids, t, r);
    BindingExactIff(s.db.nodes, s.db.edges, RENAMED, kept, ids, t.db.nodes);
    var k := EdgeKey(b, Imports, "a");
    assert k.source !in FileRows(s.db.nodes, "a.py") && s.db.edges[k] == Some(kept["p.a"]);
  }

  lemma KeptAmong(nodes: Nodes, f: File, kept: map<Name, Id>, q: Name, m: Id)
    requires Matching(nodes, f, kept) && FileRows(nodes, f.path) == {m} && q in kept
    ensures kept[q] == m
  {
    assert kept[q] in kept.Values;
  }

  lemma RenamedModuleMisleadsImport(r: Reading) returns (s: Store, kept: map<Name, Id>, ids: map<Name, Id>, t: Store)
    ensures WalkLeaves(IMPORTING, r, s) && RowsReused(s.db.nodes, RENAMED, kept)
    ensures StepTo(s, Persist(RENAMED, kept, ids), t, r)
    ensures KeysDetermineNames(s.db.nodes, RENAMED) && !NamesBoundRight(t.db.nodes, t.db.edges)
  {
    hide WalkLeaves, Good, StepTo, RowsReused, Extracted, HasModule, DistinctNames, KeysDetermineNames, Storable;
    ImportingExtracted();
    s := WalkOver(IMPORTING, r);
    WalkLeft(IMPORTING, r, s);
    kept := RenamedMatching(s);
    var ids', t' := CanPersist(s, RENAMED, kept, r);
    ids, t := ids', t';
    ImportMisled(s, kept, ids, t, r);
  }

  lemma RenamedMatching(s: Store) returns (kept: map<Name, Id>)
    requires Good(s) && s.files == IMPORTING
    ensures Storable(s.db.nodes, RENAMED, kept) && RowsReused(s.db.nodes, RENAMED, kept)
  {
    hide Good, KeysDetermineNames;
    var m, b := ImportingRows(s);
    OneNode(RENAMED, NEW_MODULE);
    OneNode(IMPORTER_FILE, MODULE_B);
    kept := map["p.a" := m];
    forall id | id in s.db.nodes && s.db.nodes[id].path != "a.py"
      ensures s.db.nodes[id].qn != "p.a"
    {
      PathsInFiles(s, id);
      var x := NodeOfRow(s, s.db.nodes[id].path, id);
    }
  }

  // ---- A row that becomes a module misses its slot ----

  ghost const PACKAGE := XNode("kp", "p", Module, "p", None)
  ghost const CLASS := XNode("kc", "p.c", Other, "c", Some("p"))
  ghost const CLASS_FILE := File("p/__init__.py", [PACKAGE, CLASS], [])
  ghost const CLASSES: map<Path, File> := map["p/__init__.py" := CLASS_FILE]
  ghost const PROMOTED_NODE := XNode("kc", "p.c", Module, "c", None)
  ghost const PROMOTED := File("p/__init__.py", [PROMOTED_NODE], [])

  lemma ClassesExtracted()
    ensures Extracted(CLASSES)
  {
    hide DistinctNames, HasModule, Names;
    TwoNodes(CLASS_FILE, PACKAGE, CLASS);
  }

  lemma PromotedMatching(s: Store) returns (kept: map<Name, Id>, c: Id)
    requires Good(s) && s.files == CLASSES
    ensures Storable(s.db.nodes, PROMOTED, kept) && RowsReused(s.db.nodes, PROMOTED, kept)
    ensures c in s.db.nodes && !s.db.nodes[c].kind.Module? && "p.c" in kept && kept["p.c"] == c
  {
    hide Good;
    TwoNodes(CLASS_FILE, PACKAGE, CLASS);
    OneNode(PROMOTED, PROMOTED_NODE);
    c := RowOfNode(s, "p/__init__.py", CLASS);
    kept := map["p.c" := c];
    assert HasKey(s.db.nodes, PROMOTED, "kc");
    forall id | id in s.db.nodes
      ensures s.db.nodes[id].path == "p/__init__.py"
    {
      PathsInFiles(s, id);
    }
  }

  lemma PromotedIndexable(s: Store, kept: map<Name, Id>, ids: map<Name, Id>, t: Store, r: Reading)
    requires Good(s) && s.files == CLASSES && StepTo(s, Persist(PROMOTED, kept, ids), t, r)
    ensures Indexable(t.db.nodes)
  {
    hide Rebuilt, ScopeOf, NamesBoundRight, EdgesRepresent;
    OneNode(PROMOTED, PROMOTED_NODE);
    forall id | id in t.db.nodes
      ensures t.db.nodes[id].qn == "p.c"
    {
      PersistRewrites(s, PROMOTED, kept, ids, t, r);
      NewTableRow(s.db.nodes, s.db.edges, PROMOTED, kept, ids, t.db.nodes, id);
      if id !in ids.Values {
        PathsInFiles(s, id);
      }
    }
  }

  /**
   * A class has the key that the file's module gets, and becomes the file's module; the cache never
   * gives it the file's slot.
   */
  lemma PromotedRowMissesSlot(r: Reading) returns (s: Store, kept: map<Name, Id>, ids: map<Name, Id>, t: Store)
    ensures WalkLeaves(CLASSES, r, s) && RowsReused(s.db.nodes, PROMOTED, kept)
    ensures StepTo(s, Persist(PROMOTED, kept, ids), t, r)
    ensures forall byPath :: MirrorsModules(byPath, s.db.nodes) ==>
              !MirrorsModules(SlotsAfter(byPath, PROMOTED, kept, ids, Doomed(s.db.nodes, PROMOTED, kept)), t.db.nodes)
  {
    hide WalkLeaves, Good, StepTo, RowsReused, Extracted, HasModule, DistinctNames, Storable, MirrorsModules,
         SlotsAfter, Indexable;
    ClassesExtracted();
    s := WalkOver(CLASSES, r);
    WalkLeft(CLASSES, r, s);
    var c;
    kept, c := PromotedMatching(s);
    var ids', t' := CanPersist(s, PROMOTED, kept, r);
    ids, t := ids', t';
    PersistRewrites(s, PROMOTED, kept, ids, t, r);
    PromotedIndexable(s, kept, ids, t, r);
    OneNode(PROMOTED, PROMOTED_NODE);
    assert PROMOTED_NODE in PROMOTED.nodes;
    forall byPath | MirrorsModules(byPath, s.db.nodes)
      ensures !MirrorsModules(SlotsAfter(byPath, PROMOTED, kept, ids, Doomed(s.db.nodes, PROMOTED, kept)), t.db.nodes)
    {
      SlotsMirrorIff(s.db.nodes, s.db.edges, PROMOTED, kept, ids, t.db.nodes, byPath);
    }
  }

  // ---- A subclass that comes first stays unbound ----

  ghost const SUBCLASS := XEdge("a.Sub", Inherits, "m.Base")
  ghost const SUB_FILE := File("a.py", [XNode("ka", "a", Module, "a", None),
                                     XNode("ks", "a.Sub", Other, "Sub", Some("a"))], [SUBCLASS])
  ghost const BASE_FILE := File("b.py", [XNode("kb", "p.m", Module, "m", None),
                                      XNode("kc", "p.m.Base", Other, "Base", Some("p.m"))], [])
  ghost const BASE_ROW := RowOf(BASE_FILE, BASE_FILE.nodes[1])
  ghost const TREE: map<Path, File> := map["a.py" := SUB_FILE, "b.py" := BASE_FILE]

  lemma TreeNames()
    ensures Names(SUB_FILE) == {"a", "a.Sub"} && DistinctNames(SUB_FILE) && HasModule(SUB_FILE)
    ensures Names(BASE_FILE) == {"p.m", "p.m.Base"} && DistinctNames(BASE_FILE) && HasModule(BASE_FILE)
    ensures forall x :: x in SUB_FILE.nodes <==> x == SUB_FILE.nodes[0] || x == SUB_FILE.nodes[1]
    ensures forall x :: x in BASE_FILE.nodes <==> x == BASE_FILE.nodes[0] || x == BASE_FILE.nodes[1]
  {
    TwoNodes(SUB_FILE, SUB_FILE.nodes[0], SUB_FILE.nodes[1]);
    TwoNodes(BASE_FILE, BASE_FILE.nodes[0], BASE_FILE.nodes[1]);
  }

  lemma TreeExtracted()
    ensures Extracted(TREE) && InheritsEdge(TREE, "a.py", SUBCLASS)
  {
    hide DistinctNames, HasModule, Names;
    TreeNames();
    assert SUBCLASS in SUB_FILE.edges;
  }

  lemma NothingCalledBase()
    ensures !Defined(TREE, "m.Base")
  {
    hide Names;
    TreeNames();
  }

  lemma WhoFits()
    ensures !Fits(RowOf(SUB_FILE, SUB_FILE.nodes[0]), "m.Base") && !Fits(RowOf(SUB_FILE, SUB_FILE.nodes[1]), "m.Base")
    ensures !Fits(RowOf(BASE_FILE, BASE_FILE.nodes[0]), "m.Base") && Fits(BASE_ROW, "m.Base")
  {
    assert "p.m.Base"[1..] == ".m.Base";
  }

  lemma TreeFits()
    ensures FitsIn(TREE, "a.py", "m.Base") == {} && FitsIn(TREE, "b.py", "m.Base") == {BASE_ROW}
  {
    hide Fits;
    TreeNames();
    WhoFits();
    assert TREE["a.py"] == SUB_FILE && TREE["b.py"] == BASE_FILE;
    assert BASE_FILE.nodes[1] in BASE_FILE.nodes;
  }

  /**
   * File `a.py` has a subclass of `m.Base`; file `b.py` is module `p.m` and defines `p.m.Base`.  If `a.py`
   * comes first the edge stays unbound; if `b.py` comes first it is bound.
   */
  lemma SubclassFirstStaysUnbound(r: Reading) returns (first: Store, second: Store)
    ensures WalkLeaves(TREE, r, first) && WalkLeaves(TREE, r, second)
    ensures BoundFor(first, SUBCLASS) == None && BoundFor(second, SUBCLASS) == Some(BASE_ROW)
    ensures !OrderIrrelevant(TREE, "a.py", "m.Base")
  {
    hide Extracted, WalkLeaves, BoundFor, InheritsEdge, FitsIn, Names;
    TreeExtracted();
    TreeFits();
    TreeNames();
    NothingCalledBase();
    ExtractedRows(TREE);
    first := EveryChoiceOccurs(TREE, r, "a.py", SUBCLASS, {});
    NothingAtOnce(TREE, "a.py", "m.Base");
    NothingNamed(TREE, "m.Base");
    second := EveryChoiceOccurs(TREE, r, "a.py", SUBCLASS, {"b.py"});
    TakenAtOnce(TREE, {"b.py"}, "a.py", "m.Base", BASE_ROW);
    FoundEarly(TREE, {"b.py"}, "a.py", "m.Base", BASE_ROW);
    OneRow();
  }

  lemma OneRow()
    ensures One({BASE_ROW})
  {
  }
}
