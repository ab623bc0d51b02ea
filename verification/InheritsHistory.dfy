/**
 * INHERITS edges over any history, with replacements and deletions: those whose own file decides what
 * a lookup can find are bound alike, whatever happened on the way.
 */
module InheritsHistory {
  import opened Wrappers
  import opened CodeGraph
  import opened FileRewrite
  import opened CallScope
  import opened GraphStates
  import opened StoreRuns
  import opened CallCounts
  import opened InheritsOrder
  import opened InheritsWalk

  /** The file at `p` defines the target, or has several rows that fit: a short name is never taken. */
  ghost predicate Decided(files: map<Path, File>, p: Path, target: Name) {
    p in files && (target in Names(files[p]) || Many(FitsIn(files, p, target)))
  }

  ghost predicate FitsNowhere(files: map<Path, File>, target: Name) {
    !Defined(files, target) && forall g :: g in files ==> FitsIn(files, g, target) == {}
  }

  /** Rows that INHERITS edges of other files are bound to are kept under the same names only. */
  ghost predicate KeepsNames(s: Store, op: Op) {
    op.Persist? ==>
      forall k, x ::
        k in s.db.edges && k.etype.Inherits? && k.source !in FileRows(s.db.nodes, op.f.path)
        && x in op.f.nodes && x.qn in op.kept && s.db.edges[k] == Some(op.kept[x.qn]) ==>
          op.kept[x.qn] in s.db.nodes && s.db.nodes[op.kept[x.qn]].qn == x.qn
          && s.db.nodes[op.kept[x.qn]].name == x.name
  }

  ghost predicate BoundToFit(nodes: Nodes, edges: Edges, k: EdgeKey)
    requires k in edges
  {
    match edges[k]
    case Some(v) => v in nodes && (nodes[v].qn == k.target || Fits(nodes[v], k.target))
    case None => true
  }

  ghost predicate EdgeFine(s: Store, k: EdgeKey) {
    && k in s.db.edges && k.source in s.db.nodes && BoundToFit(s.db.nodes, s.db.edges, k)
    && (Decided(s.files, s.db.nodes[k.source].path, k.target) ==> BoundRight(s.db.nodes, s.db.edges, k))
  }

  ghost predicate InheritsFine(s: Store) {
    forall k :: k in s.db.edges && k.etype.Inherits? ==> EdgeFine(s, k)
  }

  // ---- Lookups ----

  lemma DecidedResolvesByName(nodes: Nodes, files: map<Path, File>, p: Path, k: EdgeKey)
    requires NamesUnique(nodes) && RowsRepresent(nodes, files) && Decided(files, p, k.target)
    ensures Resolve(nodes, k) == Lookup(nodes, k.target)
  {
    hide RowsRepresent;
    if k.target in Names(files[p]) {
      var id := NameHasRow(nodes, files, p, k.target);
      assert Named(nodes, k.target, id);
    } else {
      ValuesAreRows(nodes, files);
      var u, v :| u in FitsIn(files, p, k.target) && v in FitsIn(files, p, k.target) && u != v;
      var a := FitHasRow(nodes, files, p, k.target, u);
      var b := FitHasRow(nodes, files, p, k.target, v);
      if |ShortNameMatches(nodes, k.target)| == 1 {
        OneMatch(ShortNameMatches(nodes, k.target), a);
      }
    }
  }

  lemma FitHasRow(nodes: Nodes, files: map<Path, File>, p: Path, target: Name, v: Node) returns (id: Id)
    requires nodes.Values == AllRows(files) && Keyed(files) && p in files && v in FitsIn(files, p, target)
    ensures id in ShortNameMatches(nodes, target) && nodes[id] == v
  {
    FitIsRow(files, p, target, v);
    id := RowWithValue(nodes, v);
  }

  lemma ResolveFits(nodes: Nodes, k: EdgeKey)
    ensures var found := Resolve(nodes, k);
            found.Some? ==> nodes[found.value].qn == k.target || Fits(nodes[found.value], k.target)
  {
  }

  lemma LookupIsRight(nodes: Nodes, edges: Edges, k: EdgeKey)
    requires k in edges && edges[k] == Lookup(nodes, k.target)
    ensures BoundRight(nodes, edges, k)
  {
  }

  // ---- Replacing a file ----

  lemma OwnEdgeFine(s: Store, f: File, kept: map<Name, Id>, ids: map<Name, Id>, t: Store, r: Reading, k: EdgeKey)
    requires Good(s) && Good(t) && StepTo(s, Persist(f, kept, ids), t, r)
    requires k in t.db.edges && k in NewKeys(f, ids)
    ensures EdgeFine(t, k)
  {
    hide StepTo, Resolve, Decided, BoundRight, EdgesRepresent, RowsRepresent, ListsExactOutside, NamesBoundRight;
    PersistRewrites(s, f, kept, ids, t, r);
    FinalEdge(s.db.nodes, s.db.edges, f, kept, ids, t.db.nodes, k);
    ResolveFits(t.db.nodes, k);
    var p := t.db.nodes[k.source].path;
    if Decided(t.files, p, k.target) {
      DecidedResolvesByName(t.db.nodes, t.files, p, k);
      LookupIsRight(t.db.nodes, t.db.edges, k);
    }
  }

  /** A row that an edge is still bound to fits as it did. */
  lemma TargetStillFits(s: Store, f: File, kept: map<Name, Id>, ids: map<Name, Id>, nodes': Nodes, k: EdgeKey)
    requires Rewrite(s.db.nodes, s.db.edges, f, kept, ids, nodes') && KeepsNames(s, Persist(f, kept, ids))
    requires k in s.db.edges && k.etype.Inherits? && k.source !in FileRows(s.db.nodes, f.path)
    requires BoundToFit(s.db.nodes, s.db.edges, k)
    requires s.db.edges[k].Some? && s.db.edges[k].value !in Doomed(s.db.nodes, f, kept)
    ensures var v := s.db.edges[k].value; v in nodes' && (nodes'[v].qn == k.target || Fits(nodes'[v], k.target))
    ensures forall q :: q in kept && s.db.edges[k] == Some(kept[q]) ==> s.db.nodes[kept[q]].qn == q
  {
    hide NamesBoundRight, References, NamesUnique, DistinctNames, Fits;
    var v := s.db.edges[k].value;
    if v in ids.Values {
      NewTableRow(s.db.nodes, s.db.edges, f, kept, ids, nodes', v);
      var x :| x in f.nodes && nodes'[v] == RowOf(f, x) && ids[x.qn] == v;
      assert x.qn in kept;
      SameFit(s.db.nodes[v], nodes'[v], k.target);
    }
    forall q | q in kept && s.db.edges[k] == Some(kept[q])
      ensures s.db.nodes[kept[q]].qn == q
    {
      var x :| x in f.nodes && x.qn == q;
    }
  }

  lemma SameFit(u: Node, v: Node, target: Name)
    requires u.qn == v.qn && u.name == v.name
    ensures Fits(u, target) <==> Fits(v, target)
  {
  }

  lemma OtherEdgeFits(s: Store, f: File, kept: map<Name, Id>, ids: map<Name, Id>, nodes': Nodes, k: EdgeKey)
    requires Rewrite(s.db.nodes, s.db.edges, f, kept, ids, nodes') && KeepsNames(s, Persist(f, kept, ids))
    requires k in s.db.edges && k.etype.Inherits? && k.source !in FileRows(s.db.nodes, f.path)
    requires BoundToFit(s.db.nodes, s.db.edges, k)
    ensures var final := EdgeStages(s.db.nodes, s.db.edges, f, kept, ids, nodes').final;
            k in final && BoundToFit(nodes', final, k)
  {
    hide NamesBoundRight, NamesUnique, DistinctNames, Fits, Resolve, KeepsNames, NodesRewritten, Affected;
    FinalEdge(s.db.nodes, s.db.edges, f, kept, ids, nodes', k);
    ResolveFits(nodes', k);
    var v := s.db.edges[k];
    if v.Some? && v.value !in Doomed(s.db.nodes, f, kept) {
      TargetStillFits(s, f, kept, ids, nodes', k);
    }
  }

  lemma OtherEdgeRight(s: Store, f: File, kept: map<Name, Id>, ids: map<Name, Id>, nodes': Nodes, k: EdgeKey)
    requires Rewrite(s.db.nodes, s.db.edges, f, kept, ids, nodes') && KeepsNames(s, Persist(f, kept, ids))
    requires k in s.db.edges && k.etype.Inherits? && k.source !in FileRows(s.db.nodes, f.path)
    requires BoundToFit(s.db.nodes, s.db.edges, k) && BoundRight(s.db.nodes, s.db.edges, k)
    requires Resolve(nodes', k) == Lookup(nodes', k.target)
    ensures var final := EdgeStages(s.db.nodes, s.db.edges, f, kept, ids, nodes').final;
            k in final && BoundRight(nodes', final, k)
  {
    hide NamesBoundRight, NamesUnique, DistinctNames, Fits, Resolve, KeepsNames, NodesRewritten, Affected,
         Assigned, EdgeStages;
    OtherEdgeStaysRightIff(s.db.nodes, s.db.edges, f, kept, ids, nodes', k);
    forall q | q in kept && s.db.edges[k] == Some(kept[q])
      ensures q == k.target
    {
      TargetStillFits(s, f, kept, ids, nodes', k);
    }
  }

  lemma DecidedElsewhere(files: map<Path, File>, f: File, p: Path, target: Name)
    requires p != f.path
    ensures Decided(files[f.path := f], p, target) <==> Decided(files, p, target)
  {
    if p in files {
      assert files[f.path := f][p] == files[p];
      assert FitsIn(files[f.path := f], p, target) == FitsIn(files, p, target);
    }
  }

  lemma OtherEdgeFine(s: Store, f: File, kept: map<Name, Id>, ids: map<Name, Id>, t: Store, r: Reading, k: EdgeKey)
    requires Good(s) && Good(t) && StepTo(s, Persist(f, kept, ids), t, r) && KeepsNames(s, Persist(f, kept, ids))
    requires k in s.db.edges && k.etype.Inherits? && k.source !in FileRows(s.db.nodes, f.path) && EdgeFine(s, k)
    ensures EdgeFine(t, k)
  {
    hide StepTo, Resolve, Decided, BoundRight, BoundToFit, EdgesRepresent, RowsRepresent, ListsExactOutside,
         NamesBoundRight, KeepsNames, EdgeStages, NodesRewritten, Assigned;
    PersistRewrites(s, f, kept, ids, t, r);
    OtherEdgeFits(s, f, kept, ids, t.db.nodes, k);
    OutsideRowStays(s.db.nodes, s.db.edges, f, kept, ids, t.db.nodes, k.source);
    var p := t.db.nodes[k.source].path;
    DecidedElsewhere(s.files, f, p, k.target);
    if Decided(t.files, p, k.target) {
      DecidedResolvesByName(t.db.nodes, t.files, p, k);
      OtherEdgeRight(s, f, kept, ids, t.db.nodes, k);
    }
  }

  lemma PersistKeepsFine(s: Store, f: File, kept: map<Name, Id>, ids: map<Name, Id>, t: Store, r: Reading)
    requires Good(s) && Good(t) && StepTo(s, Persist(f, kept, ids), t, r) && KeepsNames(s, Persist(f, kept, ids))
    requires InheritsFine(s)
    ensures InheritsFine(t)
  {
    hide Good, StepTo, EdgeFine, KeepsNames, Rewrite, EdgeStages, FileRows, NewKeys;
    forall k | k in t.db.edges && k.etype.Inherits?
      ensures EdgeFine(t, k)
    {
      SurvivesOrNew(s, f, kept, ids, t, r, k);
      if k in NewKeys(f, ids) {
        OwnEdgeFine(s, f, kept, ids, t, r, k);
      } else {
        OtherEdgeFine(s, f, kept, ids, t, r, k);
      }
    }
  }

  lemma SurvivesOrNew(s: Store, f: File, kept: map<Name, Id>, ids: map<Name, Id>, t: Store, r: Reading, k: EdgeKey)
    requires Good(s) && StepTo(s, Persist(f, kept, ids), t, r) && k in t.db.edges
    ensures k in NewKeys(f, ids) || (k in s.db.edges && k.source !in FileRows(s.db.nodes, f.path))
  {
    hide Good, StepTo;
    PersistRewrites(s, f, kept, ids, t, r);
    FinalEdge(s.db.nodes, s.db.edges, f, kept, ids, t.db.nodes, k);
  }

  // ---- Deleting ----

  lemma DeleteKeepsFine(s: Store, gone: set<Id>, present: set<Path>, t: Store)
    requires NamesUnique(s.db.nodes) && References(s.db.nodes, s.db.edges) && InheritsFine(s)
    requires t.db.nodes == Deleted(s.db, gone).nodes && t.db.edges == Deleted(s.db, gone).edges
    requires t.files == map p | p in s.files && p in present :: s.files[p]
    ensures InheritsFine(t)
  {
    hide NamesUnique, References, BoundRight, Decided;
    forall k | k in t.db.edges && k.etype.Inherits?
      ensures EdgeFine(t, k)
    {
      assert EdgeFine(s, k);
      var p := t.db.nodes[k.source].path;
      if Decided(t.files, p, k.target) {
        DecidedBefore(s.files, present, p, k.target);
        DeletedEdgeBoundRight(s.db, gone, k);
      }
    }
  }

  lemma DecidedBefore(files: map<Path, File>, present: set<Path>, p: Path, target: Name)
    requires Decided(map g | g in files && g in present :: files[g], p, target)
    ensures Decided(files, p, target)
  {
    var files' := map g | g in files && g in present :: files[g];
    assert FitsIn(files', p, target) == FitsIn(files, p, target);
  }

  lemma StepKeepsFine(s: Store, op: Op, t: Store, r: Reading)
    requires Good(s) && Good(t) && StepTo(s, op, t, r) && KeepsNames(s, op) && InheritsFine(s)
    ensures InheritsFine(t)
  {
    hide KeepsNames, NamesBoundRight, ListsExactOutside, RowsRepresent, EdgesRepresent, FilesHaveModules,
         EdgeFine, Persisted;
    match op
    case Persist(f, kept, ids) => PersistKeepsFine(s, f, kept, ids, t, r);
    case DeleteFile(path) =>
      var present := s.files.Keys - {path};
      assert t.files == map p | p in s.files && p in present :: s.files[p];
      DeleteKeepsFine(s, FileRows(s.db.nodes, path), present, t);
    case Prune(present) => DeleteKeepsFine(s, PrunedRows(s.db.nodes, present), present, t);
    case _ => SameTablesFine(s, t);
  }

  lemma SameTablesFine(s: Store, t: Store)
    requires InheritsFine(s) && t.db.nodes == s.db.nodes && t.db.edges == s.db.edges && t.files == s.files
    ensures InheritsFine(t)
  {
    forall k | k in t.db.edges && k.etype.Inherits?
      ensures EdgeFine(t, k)
    {
      assert EdgeFine(s, k);
    }
  }

  lemma {:induction false} HistoryFine(states: seq<Store>, ops: seq<Op>, r: Reading, n: nat)
    requires History(states, ops, r) && n < |states|
    requires forall i :: 0 <= i < |ops| ==> KeepsNames(states[i], ops[i])
    ensures InheritsFine(states[n])
  {
    hide Good, StepTo, MisleadsNone, KeepsNames, EdgeFine;
    if n > 0 {
      HistoryFine(states, ops, r, n - 1);
      HistoryGood(states, ops, r, n - 1);
      HistoryGood(states, ops, r, n);
      StepKeepsFine(states[n - 1], ops[n - 1], states[n], r);
    }
  }

  // ---- What histories agree on ----

  /** What some history can leave when it ends with exactly these files. */
  ghost predicate HistoryLeaves(files: map<Path, File>, r: Reading, s: Store) {
    exists states, ops ::
      && History(states, ops, r) && states[|ops|] == s && s.files == files
      && forall i :: 0 <= i < |ops| ==> KeepsNames(states[i], ops[i])
  }

  /** No history can make a difference. */
  ghost predicate HistoryIrrelevant(files: map<Path, File>, p: Path, target: Name) {
    Decided(files, p, target) || FitsNowhere(files, target)
  }

  lemma NoFitInRows(files: map<Path, File>, target: Name)
    requires Keyed(files) && FitsNowhere(files, target)
    ensures forall v :: v in AllRows(files) ==> v.qn != target && !Fits(v, target)
  {
    forall v | v in AllRows(files)
      ensures v.qn != target && !Fits(v, target)
    {
      FittingRow(files, v, target);
    }
  }

  lemma DecidedWhole(files: map<Path, File>, p: Path, target: Name)
    requires Keyed(files) && Decided(files, p, target) && DistinctRowNames(AllRows(files))
    ensures Whole(files, target) == NamedRow(AllRows(files), target)
  {
    if target in Names(files[p]) {
      var v := DefiningRow(files, p, target);
      AnswerIsNamed(AllRows(files), target, v);
    } else {
      var u, v :| u in FitsIn(files, p, target) && v in FitsIn(files, p, target) && u != v;
      FitIsRow(files, p, target, u);
      FitIsRow(files, p, target, v);
      NamedIsFound(AllRows(files), target);
    }
  }

  lemma RightIsWhole(s: Store, p: Path, k: EdgeKey)
    requires Good(s) && k in s.db.edges && BoundRight(s.db.nodes, s.db.edges, k) && Decided(s.files, p, k.target)
    ensures BoundRow(s.db, k) == Whole(s.files, k.target)
  {
    hide Decided, Whole, Good, BoundRight;
    StoreRowsDistinct(s);
    DecidedWhole(s.files, p, k.target);
    RightIsNamed(s.db.nodes, s.db.edges, k);
    if s.db.edges[k].Some? {
      AnswerIsNamed(AllRows(s.files), k.target, s.db.nodes[s.db.edges[k].value]);
    }
  }

  lemma UnboundIsWhole(s: Store, k: EdgeKey)
    requires Good(s) && k in s.db.edges && BoundToFit(s.db.nodes, s.db.edges, k) && FitsNowhere(s.files, k.target)
    ensures BoundRow(s.db, k) == Whole(s.files, k.target)
  {
    hide Good, FitsNowhere, Answer;
    StoreRowsDistinct(s);
    NoFitInRows(s.files, k.target);
    NothingFound(AllRows(s.files), k.target);
  }

  lemma FineIsWhole(s: Store, k: EdgeKey)
    requires Good(s) && EdgeFine(s, k) && HistoryIrrelevant(s.files, s.db.nodes[k.source].path, k.target)
    ensures BoundRow(s.db, k) == Whole(s.files, k.target)
  {
    hide Good, Decided, FitsNowhere, BoundRow, Whole, BoundRight, BoundToFit;
    if Decided(s.files, s.db.nodes[k.source].path, k.target) {
      RightIsWhole(s, s.db.nodes[k.source].path, k);
    } else {
      UnboundIsWhole(s, k);
    }
  }

  lemma NothingFound(rows: set<Node>, target: Name)
    requires forall v :: v in rows ==> v.qn != target && !Fits(v, target)
    ensures Answer(rows, target) == None
  {
  }

  lemma RightIsNamed(nodes: Nodes, edges: Edges, k: EdgeKey)
    requires k in edges && BoundRight(nodes, edges, k)
    ensures edges[k].Some? ==> edges[k].value in nodes && NamedIn(nodes.Values, k.target, nodes[edges[k].value])
    ensures edges[k].None? ==> NamedRow(nodes.Values, k.target) == None
  {
    if edges[k].None? {
      forall v | v in nodes.Values
        ensures v.qn != k.target
      {
        var id := RowWithValue(nodes, v);
        assert !Named(nodes, k.target, id);
      }
    }
  }

  /** Under the condition, every history binds the edge as a lookup in the whole repository would. */
  lemma HistoryBindsAsWhole(files: map<Path, File>, r: Reading, s: Store, p: Path, e: XEdge)
    requires HistoryLeaves(files, r, s) && InheritsEdge(files, p, e) && HistoryIrrelevant(files, p, e.target)
    ensures BoundFor(s, e) == Whole(files, e.target)
  {
    hide HistoryIrrelevant, BoundFor, Whole, Good, BoundRow;
    HistoryLeft(files, r, s);
    var k := EdgeIsThere(s, p, e);
    assert EdgeFine(s, k);
    FineIsWhole(s, k);
  }

  lemma HistoryLeft(files: map<Path, File>, r: Reading, s: Store)
    requires HistoryLeaves(files, r, s)
    ensures Good(s) && InheritsFine(s) && s.files == files
  {
    hide Good, InheritsFine, StepTo, MisleadsNone, KeepsNames;
    var states, ops :|
      && History(states, ops, r) && states[|ops|] == s && s.files == files
      && forall i :: 0 <= i < |ops| ==> KeepsNames(states[i], ops[i]);
    HistoryGood(states, ops, r, |ops|);
    HistoryFine(states, ops, r, |ops|);
  }
}
