/**
 * INHERITS edges over a walk into an empty repository: what each ends up bound to, when two walks
 * agree on it, and a pair of files for which they do not.
 */
module InheritsWalk {
  import opened Wrappers
  import opened CodeGraph
  import opened CallArrays
  import opened FileRewrite
  import opened GraphStates
  import opened StoreRuns
  import opened CallCounts
  import opened InheritsOrder
  import opened WalkOrders

  /** The row an edge is bound to. */
  function BoundRow(db: Db, k: EdgeKey): Option<Node> {
    if k in db.edges && db.edges[k].Some? && db.edges[k].value in db.nodes then Some(db.nodes[db.edges[k].value])
    else None
  }

  /** Inserting a file the store does not hold yet. */
  ghost predicate Inserts(s: Store, f: File, kept: map<Name, Id>, ids: map<Name, Id>, t: Store, r: Reading) {
    && Good(s) && Good(t) && StepTo(s, Persist(f, kept, ids), t, r)
    && FileRows(s.db.nodes, f.path) == {}
  }

  lemma InsertsRewrite(s: Store, f: File, kept: map<Name, Id>, ids: map<Name, Id>, t: Store, r: Reading)
    requires Inserts(s, f, kept, ids, t, r)
    ensures Rewrite(s.db.nodes, s.db.edges, f, kept, ids, t.db.nodes)
    ensures t.db.edges == EdgeStages(s.db.nodes, s.db.edges, f, kept, ids, t.db.nodes).final
    ensures Doomed(s.db.nodes, f, kept) == {} && t.files == s.files[f.path := f]
    ensures References(s.db.nodes, s.db.edges) && References(t.db.nodes, t.db.edges)
  {
    hide Rebuilt;
  }

  lemma InsertsTables(s: Store, f: File, kept: map<Name, Id>, ids: map<Name, Id>, t: Store, r: Reading)
    requires Inserts(s, f, kept, ids, t, r)
    ensures t.files == s.files[f.path := f] && f.path !in s.files
    ensures NamesUnique(t.db.nodes) && References(t.db.nodes, t.db.edges) && RowsRepresent(t.db.nodes, t.files)
    ensures NamesUnique(s.db.nodes) && References(s.db.nodes, s.db.edges) && RowsRepresent(s.db.nodes, s.files)
  {
    hide Persisted, RowsRepresent;
    NewPath(s, f);
  }

  lemma NotEmpty(nodes: Nodes, path: Path, id: Id)
    requires id in nodes && nodes[id].path == path
    ensures FileRows(nodes, path) != {}
  {
    assert id in FileRows(nodes, path);
  }

  lemma NewPath(s: Store, f: File)
    requires Good(s) && HasModule(f) && FileRows(s.db.nodes, f.path) == {}
    ensures f.path !in s.files
  {
    hide Consistent, EdgesRepresent;
    if f.path in s.files {
      var x :| x in s.files[f.path].nodes && x.kind.Module?;
      var id := NameHasRow(s.db.nodes, s.files, f.path, x.qn);
      NotEmpty(s.db.nodes, f.path, id);
    }
  }

  lemma StoreRowsDistinct(s: Store)
    requires Good(s)
    ensures Keyed(s.files) && DistinctRowNames(AllRows(s.files)) && s.db.nodes.Values == AllRows(s.files)
  {
    hide EdgesRepresent;
    RowsDistinct(s.db.nodes);
  }

  /** The file's own edges are resolved in the table it leaves. */
  lemma OwnEdgeResolved(s: Store, f: File, kept: map<Name, Id>, ids: map<Name, Id>, t: Store, r: Reading, k: EdgeKey)
    requires Inserts(s, f, kept, ids, t, r) && k in t.db.edges
    requires k.source in t.db.nodes && t.db.nodes[k.source].path == f.path
    ensures References(t.db.nodes, t.db.edges) && t.db.edges[k] == Resolve(t.db.nodes, k)
  {
    hide Good, StepTo, Resolve;
    InsertsRewrite(s, f, kept, ids, t, r);
    FinalEdge(s.db.nodes, s.db.edges, f, kept, ids, t.db.nodes, k);
    if k !in NewKeys(f, ids) {
      RowAfterPersist(s.db, f, kept, ids, t.db.nodes, k.source);
    }
  }

  lemma ResolvedRow(db: Db, files: map<Path, File>, before: set<Path>, p: Path, k: EdgeKey)
    requires NamesUnique(db.nodes) && References(db.nodes, db.edges) && RowsRepresent(db.nodes, files)
    requires k in db.edges && k.etype.Inherits? && db.edges[k] == Resolve(db.nodes, k)
    requires Part(files, before + {p}) == files
    ensures BoundRow(db, k) == FinalBinding(files, before, p, k.target)
  {
    hide Answer, NamedRow, AllRows, Resolve, References;
    RowsDistinct(db.nodes);
    ResolveIsAnswer(db.nodes, k);
    NamedIsFound(AllRows(files), k.target);
  }

  /** When its own file comes, the edge is resolved among the rows that are there then. */
  lemma OwnEdgeBinds(s: Store, f: File, kept: map<Name, Id>, ids: map<Name, Id>, t: Store, r: Reading, k: EdgeKey)
    requires Inserts(s, f, kept, ids, t, r) && k in t.db.edges && k.etype.Inherits?
    requires k.source in t.db.nodes && t.db.nodes[k.source].path == f.path
    ensures BoundRow(t.db, k) == FinalBinding(t.files, s.files.Keys, f.path, k.target)
  {
    hide Resolve, FinalBinding, Inserts, RowsRepresent, NamesUnique, References;
    OwnEdgeResolved(s, f, kept, ids, t, r, k);
    InsertsTables(s, f, kept, ids, t, r);
    assert Part(t.files, s.files.Keys + {f.path}) == t.files;
    ResolvedRow(t.db, t.files, s.files.Keys, f.path, k);
  }

  lemma NamedIsFound(rows: set<Node>, target: Name)
    requires DistinctRowNames(rows)
    ensures Answer(rows, target).None? ==> NamedRow(rows, target).None?
  {
  }

  /** What a lookup by name finds, once a file is added: what it found, or else the row of the new file. */
  lemma LaterFile(files: map<Path, File>, f: File, before: set<Path>, p: Path, target: Name)
    requires f.path !in files && f.path !in before + {p}
    requires Keyed(files) && DistinctRowNames(AllRows(files[f.path := f]))
    ensures FinalBinding(files[f.path := f], before, p, target)
            == var found := FinalBinding(files, before, p, target);
               if found.None? && target in Names(f) then NamedRow(AllRows(files[f.path := f]), target) else found
  {
    hide Answer;
    var files' := files[f.path := f];
    assert Keyed(files');
    forall v | v in AllRows(files)
      ensures v in AllRows(files')
    {
      var x := DeclaredRow(files, v);
      assert files'[v.path] == files[v.path];
    }
    forall v | NamedIn(AllRows(files'), target, v) && target !in Names(f)
      ensures NamedIn(AllRows(files), target, v)
    {
      var x := DeclaredRow(files', v);
      if v.path != f.path {
        assert files'[v.path] == files[v.path];
      }
    }
    assert Part(files', before + {p}) == Part(files, before + {p});
    var found := NamedRow(AllRows(files), target);
    if found.Some? {
      AnswerIsNamed(AllRows(files'), target, found.value);
    }
  }

  lemma OldRowsStay(db: Db, f: File, kept: map<Name, Id>, ids: map<Name, Id>, nodes': Nodes)
    requires Rewrite(db.nodes, db.edges, f, kept, ids, nodes') && FileRows(db.nodes, f.path) == {}
    ensures forall id :: id in db.nodes ==> id in nodes' && nodes'[id] == db.nodes[id]
  {
    hide NamesBoundRight, References, NamesUnique, DistinctNames;
    forall id | id in db.nodes
      ensures id in nodes' && nodes'[id] == db.nodes[id]
    {
      OutsideRow(db, f, kept, ids, nodes', id);
    }
  }

  lemma OtherFinalEdge(db: Db, f: File, kept: map<Name, Id>, ids: map<Name, Id>, nodes': Nodes, k: EdgeKey)
    requires Rewrite(db.nodes, db.edges, f, kept, ids, nodes') && FileRows(db.nodes, f.path) == {}
    requires k.source in nodes' && nodes'[k.source].path != f.path
    ensures var final := EdgeStages(db.nodes, db.edges, f, kept, ids, nodes').final;
            k in final ==>
              k in db.edges && k.source in db.nodes
              && final[k] == if db.edges[k].None? && k.target in Names(f) then Resolve(nodes', k) else db.edges[k]
  {
    hide NamesBoundRight, NamesUnique, DistinctNames, Resolve, Assigned, NodesRewritten;
    var s := EdgeStages(db.nodes, db.edges, f, kept, ids, nodes');
    if k in s.final {
      FinalEdge(db.nodes, db.edges, f, kept, ids, nodes', k);
      if k in NewKeys(f, ids) {
        OwnKey(db, f, kept, ids, nodes', k);
      }
      assert Affected(db.nodes, f, Doomed(db.nodes, f, kept)) == Names(f);
    }
  }

  /** An edge of another file keeps what it is bound to; if unbound, it is asked again when its target comes. */
  lemma OtherEdgeKept(s: Store, f: File, kept: map<Name, Id>, ids: map<Name, Id>, t: Store, r: Reading, k: EdgeKey)
    requires Inserts(s, f, kept, ids, t, r) && k in t.db.edges
    requires k.source in t.db.nodes && t.db.nodes[k.source].path != f.path
    ensures k in s.db.edges && k.source in s.db.nodes
    ensures t.db.edges[k]
            == if s.db.edges[k].None? && k.target in Names(f) then Resolve(t.db.nodes, k) else s.db.edges[k]
    ensures forall id :: id in s.db.nodes ==> id in t.db.nodes && t.db.nodes[id] == s.db.nodes[id]
  {
    hide Good, StepTo, Resolve, Rewrite, EdgeStages, NamesUnique;
    InsertsRewrite(s, f, kept, ids, t, r);
    OldRowsStay(s.db, f, kept, ids, t.db.nodes);
    OtherFinalEdge(s.db, f, kept, ids, t.db.nodes, k);
  }

  lemma DefinedIsResolved(nodes: Nodes, files: map<Path, File>, f: File, k: EdgeKey)
    requires NamesUnique(nodes) && RowsRepresent(nodes, files) && f.path in files && files[f.path] == f
    requires k.target in Names(f)
    ensures Resolve(nodes, k).Some?
    ensures NamedRow(AllRows(files), k.target) == Some(nodes[Resolve(nodes, k).value])
  {
    hide RowsRepresent;
    var id := NameHasRow(nodes, files, f.path, k.target);
    assert Named(nodes, k.target, id);
    RowsDistinct(nodes);
    ValuesAreRows(nodes, files);
    AnswerIsNamed(AllRows(files), k.target, nodes[Resolve(nodes, k).value]);
  }

  lemma ValuesAreRows(nodes: Nodes, files: map<Path, File>)
    requires RowsRepresent(nodes, files)
    ensures nodes.Values == AllRows(files) && Keyed(files)
  {
  }

  lemma OtherEdgeBinds(s: Store, f: File, kept: map<Name, Id>, ids: map<Name, Id>, t: Store, r: Reading,
                       before: set<Path>, p: Path, k: EdgeKey)
    requires Inserts(s, f, kept, ids, t, r) && k in t.db.edges && k.etype.Inherits?
    requires k.source in t.db.nodes && t.db.nodes[k.source].path == p
    requires f.path !in before + {p}
    ensures k in s.db.edges && k.source in s.db.nodes && s.db.nodes[k.source].path == p
    ensures BoundRow(s.db, k) == FinalBinding(s.files, before, p, k.target) ==>
              BoundRow(t.db, k) == FinalBinding(t.files, before, p, k.target)
  {
    hide Resolve, Inserts, RowsRepresent, NamesUnique, FinalBinding, NamedRow, AllRows, DistinctRowNames, Keyed, Names;
    InsertsTables(s, f, kept, ids, t, r);
    OtherEdgeKept(s, f, kept, ids, t, r, k);
    ValuesAreRows(s.db.nodes, s.files);
    ValuesAreRows(t.db.nodes, t.files);
    RowsDistinct(t.db.nodes);
    LaterFile(s.files, f, before, p, k.target);
    if k.target in Names(f) {
      DefinedIsResolved(t.db.nodes, t.files, f, k);
    }
  }

  // ---- Over a walk ----

  /** One step of a walk inserts a file, or leaves the store alone. */
  lemma WalkStep(states: seq<Store>, ops: seq<Op>, r: Reading, n: nat)
    requires FreshWalk(states, ops, r) && n < |ops|
    ensures ops[n].SkipFile? ==> states[n + 1] == states[n]
    ensures !ops[n].SkipFile? ==>
              ops[n].Persist? && Inserts(states[n], ops[n].f, ops[n].kept, ops[n].ids, states[n + 1], r)
  {
    hide Good, Persisted, MisleadsNone;
    HistoryGood(states, ops, r, n);
    HistoryGood(states, ops, r, n + 1);
  }

  /**
   * At every point of a walk, an INHERITS edge is bound as `FinalBinding` says of the files inserted
   * so far and of those inserted before its own.
   */
  lemma {:induction false} WalkBinds(states: seq<Store>, ops: seq<Op>, r: Reading, i: nat, n: nat, k: EdgeKey)
    requires FreshWalk(states, ops, r) && i < n <= |ops| && ops[i].Persist?
    requires k in states[n].db.edges && k.etype.Inherits?
    requires k.source in states[n].db.nodes && states[n].db.nodes[k.source].path == ops[i].f.path
    ensures states[i].files.Keys + {ops[i].f.path} <= states[n].files.Keys
    ensures BoundRow(states[n].db, k)
            == FinalBinding(states[n].files, states[i].files.Keys, ops[i].f.path, k.target)
  {
    hide FreshWalk, Inserts, FinalBinding, BoundRow;
    WalkBegins(states, ops, r);
    var before, p, op := states[i].files.Keys, ops[i].f.path, ops[n - 1];
    var s, t := states[n - 1], states[n];
    WalkStep(states, ops, r, n - 1);
    if n == i + 1 {
      InsertsTables(s, op.f, op.kept, op.ids, t, r);
      OwnEdgeBinds(s, op.f, op.kept, op.ids, t, r, k);
    } else if op.SkipFile? {
      WalkBinds(states, ops, r, i, n - 1, k);
    } else {
      InsertsTables(s, op.f, op.kept, op.ids, t, r);
      FilesGrow(states, ops, r, i, n - 1);
      OtherEdgeBinds(s, op.f, op.kept, op.ids, t, r, before, p, k);
      WalkBinds(states, ops, r, i, n - 1, k);
    }
  }

  lemma {:induction false} FilesGrow(states: seq<Store>, ops: seq<Op>, r: Reading, i: nat, n: nat)
    requires FreshWalk(states, ops, r) && i < n <= |ops| && ops[i].Persist?
    ensures states[i].files.Keys + {ops[i].f.path} <= states[n].files.Keys
  {
    hide FreshWalk, Inserts;
    WalkBegins(states, ops, r);
    var op := ops[n - 1];
    WalkStep(states, ops, r, n - 1);
    if op.Persist? {
      InsertsTables(states[n - 1], op.f, op.kept, op.ids, states[n], r);
    }
    if n > i + 1 {
      FilesGrow(states, ops, r, i, n - 1);
    }
  }

  /** Every file of the store was inserted at some step. */
  lemma {:induction false} InsertedAt(states: seq<Store>, ops: seq<Op>, r: Reading, n: nat, p: Path) returns (i: nat)
    requires FreshWalk(states, ops, r) && n <= |ops| && p in states[n].files
    ensures i < n && ops[i].Persist? && ops[i].f.path == p && states[i].files.Keys <= states[n].files.Keys - {p}
  {
    hide FreshWalk, Inserts;
    WalkBegins(states, ops, r);
    var op := ops[n - 1];
    WalkStep(states, ops, r, n - 1);
    if op.Persist? {
      InsertsTables(states[n - 1], op.f, op.kept, op.ids, states[n], r);
    }
    if op.Persist? && op.f.path == p {
      i := n - 1;
    } else {
      i := InsertedAt(states, ops, r, n - 1, p);
    }
  }

  lemma WalkBegins(states: seq<Store>, ops: seq<Op>, r: Reading)
    requires FreshWalk(states, ops, r)
    ensures |states| == |ops| + 1 && states[0].files == map[]
  {
  }

  // ---- When every order gives the same ----

  /** What a walk over an empty repository can leave when it has taken in exactly these files. */
  ghost predicate WalkLeaves(files: map<Path, File>, r: Reading, s: Store) {
    exists states, ops :: FreshWalk(states, ops, r) && states[|ops|] == s && s.files == files
  }

  /** The row that an extracted edge ends up bound to. */
  ghost function BoundFor(s: Store, e: XEdge): Option<Node> {
    var id := Lookup(s.db.nodes, e.source);
    if id.Some? then BoundRow(s.db, EdgeKey(id.value, e.etype, e.target)) else None
  }

  /** An INHERITS edge of the file at `p`. */
  ghost predicate InheritsEdge(files: map<Path, File>, p: Path, e: XEdge) {
    p in files && e in files[p].edges && e.etype.Inherits? && e.source in Names(files[p])
  }

  lemma EdgeIsThere(s: Store, p: Path, e: XEdge) returns (k: EdgeKey)
    requires Good(s) && InheritsEdge(s.files, p, e)
    ensures k in s.db.edges && k.etype.Inherits? && k.target == e.target
    ensures k.source in s.db.nodes && s.db.nodes[k.source].path == p && s.db.nodes[k.source].qn == e.source
    ensures BoundFor(s, e) == BoundRow(s.db, k)
  {
    hide ListsExactOutside, NamesBoundRight, References;
    var id := NameHasRow(s.db.nodes, s.files, p, e.source);
    assert Named(s.db.nodes, e.source, id);
    k := EdgeKey(id, e.etype, e.target);
  }

  lemma WalkBindsEdge(states: seq<Store>, ops: seq<Op>, r: Reading, i: nat, e: XEdge)
    requires FreshWalk(states, ops, r) && i < |ops| && ops[i].Persist?
    requires InheritsEdge(states[|ops|].files, ops[i].f.path, e)
    ensures BoundFor(states[|ops|], e)
            == FinalBinding(states[|ops|].files, states[i].files.Keys, ops[i].f.path, e.target)
  {
    hide FreshWalk, Good, BoundFor, FinalBinding, BoundRow, InheritsEdge;
    WalkBegins(states, ops, r);
    WalkIsHistory(states, ops, r);
    HistoryGood(states, ops, r, |ops|);
    var k := EdgeIsThere(states[|ops|], ops[i].f.path, e);
    WalkBinds(states, ops, r, i, |ops|, k);
  }

  lemma ExtractedRows(files: map<Path, File>)
    requires Extracted(files)
    ensures Keyed(files) && DistinctRowNames(AllRows(files))
  {
    forall u, v | u in AllRows(files) && v in AllRows(files) && u.qn == v.qn
      ensures u == v
    {
      var x := DeclaredRow(files, u);
      var y := DeclaredRow(files, v);
      assert x.qn in Names(files[u.path]) && y.qn in Names(files[v.path]);
    }
  }

  /** An order of the files in which those of `before` come first, then `p`. */
  lemma OrderWith(files: map<Path, File>, before: set<Path>, p: Path) returns (order: seq<Path>, n: nat)
    requires p in files && before <= files.Keys - {p}
    ensures ListsOnce(order, files.Keys) && n < |order| && order[n] == p && forall q :: q in order[..n] <==> q in before
  {
    var first := ListExists(before);
    var rest := ListExists(files.Keys - {p} - before);
    order, n := first + [p] + rest, |first|;
    assert order[..n] == first;
    NoDuplicatesConcat([p], rest);
    NoDuplicatesConcat(first, [p] + rest);
    assert order == first + ([p] + rest);
    forall q
      ensures q in order <==> q in files
    {
      assert q in order <==> q in first || q == p || q in rest;
    }
  }

  lemma WholePrefix(files: map<Path, File>, order: seq<Path>)
    requires ListsOnce(order, files.Keys)
    ensures Prefix(files, order, |order|) == files
  {
    assert order[..|order|] == order;
  }

  /** For every choice of preceding files there is a walk. */
  lemma EveryChoiceOccurs(files: map<Path, File>, r: Reading, p: Path, e: XEdge, before: set<Path>) returns (s: Store)
    requires Extracted(files) && InheritsEdge(files, p, e) && before <= files.Keys - {p}
    ensures WalkLeaves(files, r, s) && BoundFor(s, e) == FinalBinding(files, before, p, e.target)
  {
    hide Good, FreshWalk, BoundFor, FinalBinding, HasModule, DistinctNames;
    var order, n := OrderWith(files, before, p);
    var states, ops := WalkExists(files, order, r, |order|);
    WholePrefix(files, order);
    s := states[|ops|];
    WalkBindsEdge(states, ops, r, n, e);
    assert states[n].files.Keys == before;
  }

  lemma WalkLeaving(files: map<Path, File>, r: Reading, s: Store) returns (states: seq<Store>, ops: seq<Op>)
    requires WalkLeaves(files, r, s)
    ensures FreshWalk(states, ops, r) && |states| == |ops| + 1 && states[|ops|] == s && s.files == files
  {
    states, ops :| FreshWalk(states, ops, r) && states[|ops|] == s && s.files == files;
  }

  lemma WalkLeavesBound(files: map<Path, File>, r: Reading, s: Store, p: Path, e: XEdge) returns (before: set<Path>)
    requires WalkLeaves(files, r, s) && InheritsEdge(files, p, e)
    ensures before <= files.Keys - {p} && BoundFor(s, e) == FinalBinding(files, before, p, e.target)
  {
    hide FreshWalk, BoundFor, FinalBinding;
    var states, ops := WalkLeaving(files, r, s);
    var i := InsertedAt(states, ops, r, |ops|, p);
    before := states[i].files.Keys;
    WalkBindsEdge(states, ops, r, i, e);
  }

  /** Under the condition, every walk binds the edge as a lookup in the whole repository would. */
  lemma WalkBindsAsWhole(files: map<Path, File>, r: Reading, s: Store, p: Path, e: XEdge)
    requires Extracted(files) && WalkLeaves(files, r, s) && InheritsEdge(files, p, e)
    requires OrderIrrelevant(files, p, e.target)
    ensures BoundFor(s, e) == Whole(files, e.target)
  {
    hide Extracted, WalkLeaves, BoundFor, OrderIrrelevant;
    ExtractedRows(files);
    var before := WalkLeavesBound(files, r, s, p, e);
    IrrelevantSettles(files, before, p, e.target);
  }

  /** Whatever is looked up when all the other files are there is looked up in the whole repository. */
  lemma LastSeesAll(files: map<Path, File>, p: Path, target: Name)
    requires p in files && DistinctRowNames(AllRows(files))
    ensures Settled(files, files.Keys - {p}, p, target)
  {
    hide AllRows, Answer, NamedRow;
    assert Part(files, files.Keys - {p} + {p}) == files;
    NamedIsFound(AllRows(files), target);
  }

  /**
   * All walks that take in the same files bind an INHERITS edge alike exactly when the files meet the
   * condition.
   */
  lemma WalksAgreeOnInheritsIff(files: map<Path, File>, r: Reading, p: Path, e: XEdge)
    requires Extracted(files) && InheritsEdge(files, p, e)
    ensures (forall s, t :: WalkLeaves(files, r, s) && WalkLeaves(files, r, t) ==> BoundFor(s, e) == BoundFor(t, e))
            <==> OrderIrrelevant(files, p, e.target)
  {
    hide Extracted, WalkLeaves, BoundFor, OrderIrrelevant, FinalBinding;
    if OrderIrrelevant(files, p, e.target) {
      forall s, t | WalkLeaves(files, r, s) && WalkLeaves(files, r, t)
        ensures BoundFor(s, e) == BoundFor(t, e)
      {
        WalkBindsAsWhole(files, r, s, p, e);
        WalkBindsAsWhole(files, r, t, p, e);
      }
    } else {
      ExtractedRows(files);
      var before := RelevantUnsettles(files, p, e.target);
      var s := EveryChoiceOccurs(files, r, p, e, before);
      var t := EveryChoiceOccurs(files, r, p, e, files.Keys - {p});
      LastSeesAll(files, p, e.target);
    }
  }
}
