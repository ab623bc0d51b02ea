/**
 * Runs of the graph store: however files were replaced, deleted, skipped and pruned, the
 * store says what recomputing everything from the current files would say.
 */
module StoreRuns {
  import opened Wrappers
  import opened CodeGraph
  import opened CallArrays
  import opened FileRewrite
  import opened CallScope
  import opened GraphStates

  /**
   * The database, the rows that the run's refresh will be given, the rows whose lists are owed a
   * rebuild, and the files it holds.
   */
  datatype Store = Store(db: Db, due: set<Id>, owed: set<Id>, files: map<Path, File>)

  datatype Op =
    | Persist(f: File, kept: map<Name, Id>, ids: map<Name, Id>)
    | SkipFile                      // the savepoint rolled back
    | DeleteFile(path: Path)
    | Refresh
    | Prune(present: set<Path>)

  const EMPTY := Store(EMPTY_DB, {}, {}, map[])

  /** How the code's two doubtful spots are read. */
  datatype Reading = Reading(collection: Collection, refreshLoadsAll: bool)

  ghost predicate StepTo(s: Store, op: Op, t: Store, r: Reading) {
    match op
    case Persist(f, kept, ids) =>
      && HasModule(f) && Persisted(s.db, f, kept, ids, r.collection, t.db)
      && t.due == s.due && t.owed == OwedAfterPersist(s.db, f, kept, ids, r.collection, s.owed)
      && t.files == s.files[f.path := f]
    case SkipFile => t == s
    case DeleteFile(path) =>
      var gone := FileRows(s.db.nodes, path);
      && t.db == Deleted(s.db, gone)
      && t.due == s.due + DeletePeers(s.db.edges, gone) && t.owed == s.owed + DeletePeers(s.db.edges, gone)
      && t.files == s.files - {path}
    case Refresh =>
      && Refreshed(s.db, s.due, if r.refreshLoadsAll then s.db.nodes.Keys else s.due * s.db.nodes.Keys, t.db)
      && t.due == {} && t.owed == OwedAfterRefresh(s.db, s.due, r.refreshLoadsAll, s.owed) && t.files == s.files
    case Prune(present) =>
      && RebuiltAll(Deleted(s.db, PrunedRows(s.db.nodes, present)), t.db)
      && t.due == {} && t.owed == {} && t.files == map p | p in s.files && p in present :: s.files[p]
  }

  /** No row that edges of other files are bound to is kept under another name. */
  ghost predicate MisleadsNone(s: Store, op: Op) {
    op.Persist? ==> RenameSafe(s.db.nodes, s.db.edges, op.f, op.kept)
  }

  // ---- The tables hold the current files ----

  /** The rows that the files declare. */
  function AllRows(files: map<Path, File>): set<Node> {
    set p, x | p in files && x in files[p].nodes :: RowOf(files[p], x)
  }

  ghost predicate Keyed(files: map<Path, File>) {
    forall p :: p in files ==> files[p].path == p
  }

  ghost predicate RowsRepresent(nodes: Nodes, files: map<Path, File>) {
    Keyed(files) && nodes.Values == AllRows(files)
  }

  ghost predicate EdgesRepresent(nodes: Nodes, edges: Edges, files: map<Path, File>) {
    forall k: EdgeKey :: k.source in nodes && nodes[k.source].path in files ==>
      (k in edges <==> XEdge(nodes[k.source].qn, k.etype, k.target) in files[nodes[k.source].path].edges)
  }

  ghost predicate FilesHaveModules(files: map<Path, File>) {
    forall p :: p in files ==> HasModule(files[p])
  }

  ghost predicate Good(s: Store) {
    && Consistent(s.db, s.owed) && FilesHaveModules(s.files)
    && RowsRepresent(s.db.nodes, s.files) && EdgesRepresent(s.db.nodes, s.db.edges, s.files)
  }

  lemma RowAfterPersist(db: Db, f: File, kept: map<Name, Id>, ids: map<Name, Id>, nodes': Nodes, id: Id)
    requires Rewrite(db.nodes, db.edges, f, kept, ids, nodes') && id in nodes'
    ensures id in ids.Values ==> exists x :: x in f.nodes && nodes'[id] == RowOf(f, x) && ids[x.qn] == id
    ensures id !in ids.Values ==> id in db.nodes && nodes'[id] == db.nodes[id] && nodes'[id].path != f.path
  {
    if id in ids.Values {
      var q :| q in ids && ids[q] == id;
      var x :| x in f.nodes && x.qn == q;
    } else if id in kept.Values {
      KeptAreIds(kept, ids, db.nodes, f, id);
    }
  }

  lemma DeclaredRow(files: map<Path, File>, v: Node) returns (x: XNode)
    requires Keyed(files) && v in AllRows(files)
    ensures v.path in files && x in files[v.path].nodes && v == RowOf(files[v.path], x)
  {
    var p, y :| p in files && y in files[p].nodes && v == RowOf(files[p], y);
    x := y;
  }

  lemma RowWithValue(nodes: Nodes, v: Node) returns (id: Id)
    requires v in nodes.Values
    ensures id in nodes && nodes[id] == v
  {
    id :| id in nodes && nodes[id] == v;
  }

  lemma OutsideRow(db: Db, f: File, kept: map<Name, Id>, ids: map<Name, Id>, nodes': Nodes, id: Id)
    requires Rewrite(db.nodes, db.edges, f, kept, ids, nodes')
    requires id in db.nodes && id !in FileRows(db.nodes, f.path)
    ensures id in nodes' && id !in ids.Values
  {
    assert forall q :: q in kept ==> kept[q] in kept.Values;
  }

  lemma PersistRowsRepresent(db: Db, f: File, kept: map<Name, Id>, ids: map<Name, Id>, nodes': Nodes,
                             files: map<Path, File>)
    requires Rewrite(db.nodes, db.edges, f, kept, ids, nodes') && RowsRepresent(db.nodes, files)
    ensures RowsRepresent(nodes', files[f.path := f])
  {
    var files' := files[f.path := f];
    forall v | v in nodes'.Values
      ensures v in AllRows(files')
    {
      var id := RowWithValue(nodes', v);
      RowAfterPersist(db, f, kept, ids, nodes', id);
      if id in ids.Values {
        var x :| x in f.nodes && v == RowOf(f, x);
        assert files'[f.path] == f;
      } else {
        var x := DeclaredRow(files, v);
        assert files'[v.path] == files[v.path];
      }
    }
    forall v | v in AllRows(files')
      ensures v in nodes'.Values
    {
      var x := DeclaredRow(files', v);
      if v.path == f.path {
        assert x.qn in Names(f);
        assert nodes'[ids[x.qn]] == v;
      } else {
        assert v == RowOf(files[v.path], x);
        var id := RowWithValue(db.nodes, v);
        OutsideRow(db, f, kept, ids, nodes', id);
        assert nodes'[id] == v;
      }
    }
  }

  lemma PersistEdgesRepresent(db: Db, f: File, kept: map<Name, Id>, ids: map<Name, Id>, nodes': Nodes,
                              files: map<Path, File>)
    requires Rewrite(db.nodes, db.edges, f, kept, ids, nodes') && EdgesRepresent(db.nodes, db.edges, files)
    ensures EdgesRepresent(nodes', EdgeStages(db.nodes, db.edges, f, kept, ids, nodes').final, files[f.path := f])
  {
    var final, files' := EdgeStages(db.nodes, db.edges, f, kept, ids, nodes').final, files[f.path := f];
    forall k: EdgeKey | k.source in nodes' && nodes'[k.source].path in files'
      ensures k in final <==> XEdge(nodes'[k.source].qn, k.etype, k.target) in files'[nodes'[k.source].path].edges
    {
      FinalEdge(db.nodes, db.edges, f, kept, ids, nodes', k);
      RowAfterPersist(db, f, kept, ids, nodes', k.source);
      if k.source in ids.Values {
        OwnKey(db, f, kept, ids, nodes', k);
      }
    }
  }

  lemma OwnKey(db: Db, f: File, kept: map<Name, Id>, ids: map<Name, Id>, nodes': Nodes, k: EdgeKey)
    requires Rewrite(db.nodes, db.edges, f, kept, ids, nodes') && k.source in ids.Values && k.source in nodes'
    ensures k in NewKeys(f, ids) <==> XEdge(nodes'[k.source].qn, k.etype, k.target) in f.edges
    ensures nodes'[k.source].path == f.path
    ensures !(k in db.edges && k.source !in FileRows(db.nodes, f.path))
  {
    RowAfterPersist(db, f, kept, ids, nodes', k.source);
    var x :| x in f.nodes && nodes'[k.source] == RowOf(f, x) && ids[x.qn] == k.source;
    if k in NewKeys(f, ids) {
      var e :| e in f.edges && e.source in ids && k == EdgeKey(ids[e.source], e.etype, e.target);
      assert e == XEdge(x.qn, k.etype, k.target);
    }
    if k in db.edges && k.source !in FileRows(db.nodes, f.path) {
      OutsideRow(db, f, kept, ids, nodes', k.source);
    }
  }

  lemma RestrictedRows(db: Db, gone: set<Id>, files: map<Path, File>, present: set<Path>)
    requires RowsRepresent(db.nodes, files)
    requires forall id :: id in db.nodes ==> (id in gone <==> db.nodes[id].path !in present)
    ensures RowsRepresent(Deleted(db, gone).nodes, map p | p in files && p in present :: files[p])
  {
    var files' := map p | p in files && p in present :: files[p];
    var nodes' := Deleted(db, gone).nodes;
    forall v | v in nodes'.Values
      ensures v in AllRows(files')
    {
      var id := RowWithValue(nodes', v);
      assert v == db.nodes[id];
      var x := DeclaredRow(files, v);
      assert files'[v.path] == files[v.path];
    }
    forall v | v in AllRows(files')
      ensures v in nodes'.Values
    {
      var x := DeclaredRow(files', v);
      assert v == RowOf(files[v.path], x);
      var id := RowWithValue(db.nodes, v);
      assert nodes'[id] == v;
    }
  }

  lemma RestrictedEdges(db: Db, gone: set<Id>, files: map<Path, File>, present: set<Path>)
    requires EdgesRepresent(db.nodes, db.edges, files)
    ensures EdgesRepresent(Deleted(db, gone).nodes, Deleted(db, gone).edges,
                           map p | p in files && p in present :: files[p])
  {
  }

  lemma RowsKnownPaths(nodes: Nodes, files: map<Path, File>)
    requires RowsRepresent(nodes, files)
    ensures forall id :: id in nodes ==> nodes[id].path in files
  {
    forall id | id in nodes
      ensures nodes[id].path in files
    {
      assert nodes[id] in nodes.Values;
      var x := DeclaredRow(files, nodes[id]);
    }
  }

  lemma PersistKeepsGood(s: Store, f: File, kept: map<Name, Id>, ids: map<Name, Id>, t: Store, r: Reading)
    requires Good(s) && StepTo(s, Persist(f, kept, ids), t, r) && MisleadsNone(s, Persist(f, kept, ids))
    ensures Good(t)
  {
    hide OwedAfterPersist, RenameSafe, ListsExactOutside, NodesRewritten, Assigned, Rebuilt, RowsRepresent,
         EdgesRepresent;
    hide HasModule;
    PersistOwes(s.db, f, kept, ids, r.collection, t.db, s.owed);
    PersistRowsRepresent(s.db, f, kept, ids, t.db.nodes, s.files);
    PersistEdgesRepresent(s.db, f, kept, ids, t.db.nodes, s.files);
  }

  lemma DeleteKeepsGood(s: Store, path: Path, t: Store, r: Reading)
    requires Good(s) && StepTo(s, DeleteFile(path), t, r)
    ensures Good(t)
  {
    hide Consistent, EdgesRepresent, HasModule;
    var gone := FileRows(s.db.nodes, path);
    DeleteConsistent(s.db, gone, s.owed);
    RowsKnownPaths(s.db.nodes, s.files);
    RestrictedRows(s.db, gone, s.files, s.files.Keys - {path});
    RestrictedEdges(s.db, gone, s.files, s.files.Keys - {path});
    assert t.files == map p | p in s.files && p in s.files.Keys - {path} :: s.files[p];
  }

  lemma RefreshKeepsGood(s: Store, t: Store, r: Reading)
    requires Good(s) && StepTo(s, Refresh, t, r)
    ensures Good(t)
  {
    hide Consistent, RowsRepresent, EdgesRepresent, HasModule, Rebuilt, OwedAfterRefresh;
    RefreshOwes(s.db, s.due, r.refreshLoadsAll, s.owed, t.db);
  }

  lemma PruneKeepsGood(s: Store, present: set<Path>, t: Store, r: Reading)
    requires Good(s) && StepTo(s, Prune(present), t, r)
    ensures Good(t)
  {
    hide Consistent, ArraysExact, HasModule;
    PruneConsistent(s.db, s.owed, present, t.db);
    RestrictedRows(s.db, PrunedRows(s.db.nodes, present), s.files, present);
    RestrictedEdges(s.db, PrunedRows(s.db.nodes, present), s.files, present);
  }

  lemma StepKeepsGood(s: Store, op: Op, t: Store, r: Reading)
    requires Good(s) && StepTo(s, op, t, r) && MisleadsNone(s, op)
    ensures Good(t)
  {
    hide Good, MisleadsNone;
    match op
    case Persist(f, kept, ids) => PersistKeepsGood(s, f, kept, ids, t, r);
    case SkipFile =>
    case DeleteFile(path) => DeleteKeepsGood(s, path, t, r);
    case Refresh => RefreshKeepsGood(s, t, r);
    case Prune(present) => PruneKeepsGood(s, present, t, r);
  }

  /** A row that a replacement or a refresh newly owes a rebuild does have inexact lists. */
  lemma NewlyOwedIsInexact(s: Store, op: Op, t: Store, r: Reading, n: Id)
    requires Good(s) && StepTo(s, op, t, r) && MisleadsNone(s, op) && (op.Persist? || op.Refresh?)
    requires n in t.owed && n !in s.owed && n in t.db.nodes
    ensures !ListsExact(t.db, n)
  {
    hide RowsRepresent, EdgesRepresent, HasModule, ListsExact, RenameSafe, Persisted;
    if op.Persist? {
      PersistOwes(s.db, op.f, op.kept, op.ids, r.collection, t.db, s.owed);
    } else {
      RefreshOwes(s.db, s.due, r.refreshLoadsAll, s.owed, t.db);
    }
  }

  const INTENDED := Reading(WithDoomedTargets, true)

  /** Read as intended, only rows that the refresh will be given are ever owed. */
  lemma IntendedOwes(s: Store, op: Op, t: Store)
    requires StepTo(s, op, t, INTENDED) && s.owed <= s.due
    ensures t.owed <= t.due
  {
    hide Persisted, Refreshed, RebuiltAll;
  }

  /** Every row belongs to a file with a module row: what lets a full walk skip its first rebuild. */
  lemma RowsHaveModules(s: Store)
    requires Good(s)
    ensures forall id :: id in s.db.nodes ==> s.db.nodes[id].path in ModulePaths(s.db.nodes)
  {
    hide Consistent, EdgesRepresent;
    forall id | id in s.db.nodes
      ensures s.db.nodes[id].path in ModulePaths(s.db.nodes)
    {
      RowHasName(s.db.nodes, s.files, id);
      var p := s.db.nodes[id].path;
      var x :| x in s.files[p].nodes && x.kind.Module?;
      assert RowOf(s.files[p], x) in AllRows(s.files);
      var m := RowWithValue(s.db.nodes, RowOf(s.files[p], x));
    }
  }

  /** A history of the store from empty, in which no step misleads an edge. */
  ghost predicate History(states: seq<Store>, ops: seq<Op>, r: Reading) {
    && |states| == |ops| + 1 && states[0] == EMPTY
    && forall i :: 0 <= i < |ops| ==>
         StepTo(states[i], ops[i], states[i + 1], r) && MisleadsNone(states[i], ops[i])
  }

  /**
   * Every state of every history is consistent and holds exactly the current files, and the lists of
   * every row are exact but for those it owes.
   */
  lemma {:induction false} HistoryGood(states: seq<Store>, ops: seq<Op>, r: Reading, n: nat)
    requires History(states, ops, r) && n < |states|
    ensures Good(states[n])
  {
    hide Good, StepTo, MisleadsNone;
    if n == 0 {
      EmptyGood();
    } else {
      HistoryGood(states, ops, r, n - 1);
      StepKeepsGood(states[n - 1], ops[n - 1], states[n], r);
    }
  }

  /** Read as intended, every state with no refresh due has exact lists throughout. */
  lemma {:induction false} IntendedHistoryOwes(states: seq<Store>, ops: seq<Op>, n: nat)
    requires History(states, ops, INTENDED) && n < |states|
    ensures states[n].owed <= states[n].due
  {
    hide StepTo, MisleadsNone;
    if n > 0 {
      IntendedHistoryOwes(states, ops, n - 1);
      IntendedOwes(states[n - 1], ops[n - 1], states[n]);
    }
  }

  lemma EmptyGood()
    ensures Good(EMPTY)
  {
    assert AllRows(map[]) == {};
  }

  // ---- Recomputing from the files ----

  ghost predicate Defined(files: map<Path, File>, q: Name) {
    exists p :: p in files && q in Names(files[p])
  }

  /** `s` calls `t`: some file that defines `s` says so, and some file defines `t`. */
  ghost predicate ScratchCall(files: map<Path, File>, s: Name, t: Name) {
    && Defined(files, t)
    && exists p :: p in files && s in Names(files[p]) && XEdge(s, Calls, t) in files[p].edges
  }

  lemma RowHasName(nodes: Nodes, files: map<Path, File>, id: Id)
    requires RowsRepresent(nodes, files) && id in nodes
    ensures nodes[id].path in files && nodes[id].qn in Names(files[nodes[id].path])
  {
    assert nodes[id] in nodes.Values;
    var x := DeclaredRow(files, nodes[id]);
  }

  lemma NameHasRow(nodes: Nodes, files: map<Path, File>, p: Path, q: Name) returns (id: Id)
    requires RowsRepresent(nodes, files) && p in files && q in Names(files[p])
    ensures id in nodes && nodes[id].path == p && nodes[id].qn == q
  {
    var x :| x in files[p].nodes && x.qn == q;
    assert RowOf(files[p], x) in AllRows(files);
    id := RowWithValue(nodes, RowOf(files[p], x));
  }

  /** The bound calls, by name, are those a recomputation from the files gives. */
  lemma BoundCallsFromScratch(s: Store, a: Id, b: Id)
    requires Good(s) && a in s.db.nodes && b in s.db.nodes
    ensures (a, b) in CallPairs(s.db.edges) <==> ScratchCall(s.files, s.db.nodes[a].qn, s.db.nodes[b].qn)
  {
    var nodes, edges, files := s.db.nodes, s.db.edges, s.files;
    RowHasName(nodes, files, a);
    RowHasName(nodes, files, b);
    var k := EdgeKey(a, Calls, nodes[b].qn);
    if (a, b) in CallPairs(edges) {
      var k' := PairHasKey(edges, (a, b));
      assert BoundRight(nodes, edges, k');
    }
    if ScratchCall(files, nodes[a].qn, nodes[b].qn) {
      var p :| p in files && nodes[a].qn in Names(files[p]) && XEdge(nodes[a].qn, Calls, nodes[b].qn) in files[p].edges;
      var a' := NameHasRow(nodes, files, p, nodes[a].qn);
      assert a' == a;
      assert k in edges && BoundRight(nodes, edges, k);
      assert Named(nodes, k.target, b);
      CallPairIn(edges, k);
    }
  }

  function NamesOf(nodes: Nodes, l: seq<Id>): set<Name> {
    set id | id in l && id in nodes :: nodes[id].qn
  }

  /** The stored callers and callees of a row that is not owed, by name, are those a recomputation gives. */
  lemma ListsFromScratch(s: Store, n: Id, q: Name)
    requires Good(s) && n in s.db.nodes && n !in s.owed
    ensures n in s.db.callers && n in s.db.callees
    ensures q in NamesOf(s.db.nodes, s.db.callers[n]) <==> ScratchCall(s.files, q, s.db.nodes[n].qn)
    ensures q in NamesOf(s.db.nodes, s.db.callees[n]) <==> ScratchCall(s.files, s.db.nodes[n].qn, q)
  {
    var nodes := s.db.nodes;
    assert ListsExact(s.db, n);
    RowHasName(nodes, s.files, n);
    if q in NamesOf(nodes, s.db.callers[n]) {
      var id :| id in s.db.callers[n] && id in nodes && nodes[id].qn == q;
      BoundCallsFromScratch(s, id, n);
    }
    if q in NamesOf(nodes, s.db.callees[n]) {
      var id :| id in s.db.callees[n] && id in nodes && nodes[id].qn == q;
      BoundCallsFromScratch(s, n, id);
    }
    if ScratchCall(s.files, q, nodes[n].qn) {
      var p :| p in s.files && q in Names(s.files[p]) && XEdge(q, Calls, nodes[n].qn) in s.files[p].edges;
      var id := NameHasRow(nodes, s.files, p, q);
      BoundCallsFromScratch(s, id, n);
      assert id in CallersOf(CallPairs(s.db.edges), n);
    }
    if ScratchCall(s.files, nodes[n].qn, q) {
      var p :| p in s.files && q in Names(s.files[p]);
      var id := NameHasRow(nodes, s.files, p, q);
      BoundCallsFromScratch(s, n, id);
      assert id in CalleesOf(CallPairs(s.db.edges), n);
    }
  }

  /** The name of the row an edge is bound to. */
  ghost function BoundName(db: Db, k: EdgeKey): Option<Name>
    requires References(db.nodes, db.edges) && k in db.edges
  {
    if db.edges[k].Some? then Some(db.nodes[db.edges[k].value].qn) else None
  }

  /** An edge that is no INHERITS is bound to its target exactly when some file defines it. */
  lemma EdgeFromScratch(s: Store, k: EdgeKey)
    requires Good(s) && k in s.db.edges && !k.etype.Inherits?
    ensures BoundName(s.db, k) == if Defined(s.files, k.target) then Some(k.target) else None
  {
    var nodes := s.db.nodes;
    assert BoundRight(nodes, s.db.edges, k);
    if s.db.edges[k].Some? {
      RowHasName(nodes, s.files, s.db.edges[k].value);
    }
    if Defined(s.files, k.target) {
      var p :| p in s.files && k.target in Names(s.files[p]);
      var id := NameHasRow(nodes, s.files, p, k.target);
      assert Named(nodes, k.target, id);
    }
  }

  ghost predicate SameListsByName(s: Db, a: Id, t: Db, b: Id) {
    && a in s.callers && b in t.callers && NamesOf(s.nodes, s.callers[a]) == NamesOf(t.nodes, t.callers[b])
    && a in s.callees && b in t.callees && NamesOf(s.nodes, s.callees[a]) == NamesOf(t.nodes, t.callees[b])
  }

  ghost predicate SameEdgesByName(s: Db, a: Id, t: Db, b: Id) {
    && References(s.nodes, s.edges) && References(t.nodes, t.edges)
    && forall e: EdgeType, q: Name ::
         (EdgeKey(a, e, q) in s.edges <==> EdgeKey(b, e, q) in t.edges)
         && (EdgeKey(a, e, q) in s.edges && !e.Inherits? ==>
               BoundName(s, EdgeKey(a, e, q)) == BoundName(t, EdgeKey(b, e, q)))
  }

  /**
   * Rows `a` and `b` are the same in the eyes of anyone who sees names, not ids: the row, its edges,
   * what they are bound to, INHERITS apart, and, where none is owed, its lists.
   */
  ghost predicate SameByName(s: Store, a: Id, t: Store, b: Id) {
    && a in s.db.nodes && b in t.db.nodes && s.db.nodes[a] == t.db.nodes[b] && SameEdgesByName(s.db, a, t.db, b)
    && (a !in s.owed && b !in t.owed ==> SameListsByName(s.db, a, t.db, b))
  }

  lemma SameEdge(s: Store, a: Id, t: Store, b: Id, e: EdgeType, q: Name)
    requires Good(s) && Good(t) && s.files == t.files
    requires a in s.db.nodes && b in t.db.nodes && s.db.nodes[a] == t.db.nodes[b]
    ensures EdgeKey(a, e, q) in s.db.edges <==> EdgeKey(b, e, q) in t.db.edges
    ensures EdgeKey(a, e, q) in s.db.edges && !e.Inherits? ==>
              BoundName(s.db, EdgeKey(a, e, q)) == BoundName(t.db, EdgeKey(b, e, q))
  {
    RowHasName(s.db.nodes, s.files, a);
    if EdgeKey(a, e, q) in s.db.edges && !e.Inherits? {
      EdgeFromScratch(s, EdgeKey(a, e, q));
      EdgeFromScratch(t, EdgeKey(b, e, q));
    }
  }

  lemma SameLists(s: Store, a: Id, t: Store, b: Id)
    requires Good(s) && Good(t) && s.files == t.files
    requires a in s.db.nodes && b in t.db.nodes && s.db.nodes[a] == t.db.nodes[b] && a !in s.owed && b !in t.owed
    ensures SameListsByName(s.db, a, t.db, b)
  {
    hide Good, NamesOf, ScratchCall;
    ListsFromScratch(s, a, s.db.nodes[a].qn);
    ListsFromScratch(t, b, s.db.nodes[a].qn);
    forall q
      ensures q in NamesOf(s.db.nodes, s.db.callers[a]) <==> q in NamesOf(t.db.nodes, t.db.callers[b])
      ensures q in NamesOf(s.db.nodes, s.db.callees[a]) <==> q in NamesOf(t.db.nodes, t.db.callees[b])
    {
      ListsFromScratch(s, a, q);
      ListsFromScratch(t, b, q);
    }
  }

  /** Good stores that hold the same files agree by name, row by row. */
  lemma SameFilesAgree(s: Store, t: Store, a: Id) returns (b: Id)
    requires Good(s) && Good(t) && s.files == t.files && a in s.db.nodes
    ensures SameByName(s, a, t, b)
  {
    hide Consistent, EdgesRepresent, FilesHaveModules, SameListsByName;
    assert s.db.nodes[a] in s.db.nodes.Values;
    b := RowWithValue(t.db.nodes, s.db.nodes[a]);
    if a !in s.owed && b !in t.owed {
      SameLists(s, a, t, b);
    }
    GoodReferences(s);
    GoodReferences(t);
    forall e: EdgeType, q: Name
      ensures EdgeKey(a, e, q) in s.db.edges <==> EdgeKey(b, e, q) in t.db.edges
      ensures EdgeKey(a, e, q) in s.db.edges && !e.Inherits? ==>
                BoundName(s.db, EdgeKey(a, e, q)) == BoundName(t.db, EdgeKey(b, e, q))
    {
      SameEdge(s, a, t, b, e, q);
    }
  }

  lemma GoodReferences(s: Store)
    requires Good(s)
    ensures References(s.db.nodes, s.db.edges)
  {
  }

  /**
   * Two histories that end with the same files agree, by name, on rows, on every edge and what it is
   * bound to, INHERITS apart, and on the lists of rows that neither owes, whatever order they took and
   * whatever they replaced or deleted on the way.
   */
  lemma HistoryIndependence(states1: seq<Store>, ops1: seq<Op>, states2: seq<Store>, ops2: seq<Op>, r1: Reading,
                            r2: Reading, a: Id) returns (b: Id)
    requires History(states1, ops1, r1) && History(states2, ops2, r2)
    requires states1[|ops1|].files == states2[|ops2|].files && a in states1[|ops1|].db.nodes
    ensures SameByName(states1[|ops1|], a, states2[|ops2|], b)
  {
    hide History, Good, SameByName;
    HistoryLength(states1, ops1, r1);
    HistoryLength(states2, ops2, r2);
    HistoryGood(states1, ops1, r1, |ops1|);
    HistoryGood(states2, ops2, r2, |ops2|);
    b := SameFilesAgree(states1[|ops1|], states2[|ops2|], a);
  }

  lemma HistoryLength(states: seq<Store>, ops: seq<Op>, r: Reading)
    requires History(states, ops, r)
    ensures |states| == |ops| + 1
  {
  }
}
