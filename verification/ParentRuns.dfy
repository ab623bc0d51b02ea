/**
 * The `parent_id` column over whole histories of the store (backend/app/graph/builder.py:239-248,
 * 328-348, 1027-1068).
 */
module ParentRuns {
  import opened CodeGraph
  import opened CallArrays
  import opened FileRewrite
  import opened GraphStates
  import opened StoreRuns
  import opened CallCounts
  import opened MethodParents
  import opened RowReplacement

  ghost predicate ParentStep(s: Store, parents: Parents, op: Op, t: Store, parents': Parents) {
    match op
    case Persist(f, kept, ids) => ParentsRelinked(s.db.nodes, parents, f, kept, ids, t.db.nodes, parents')
    case DeleteFile(path) => parents' == AfterDrop(parents, FileRows(s.db.nodes, path))
    case Prune(present) => parents' == AfterDrop(parents, PrunedRows(s.db.nodes, present))
    case _ => parents' == parents
  }

  /** No method's name is that of a module and one more segment, in whatever files they are. */
  ghost predicate MethodsInTypes(files: map<Path, File>) {
    forall p, x, q, y ::
      p in files && x in files[p].nodes && x.kind.Method? && q in files && y in files[q].nodes && y.kind.Module? ==>
        ('.' in x.qn || y.qn != "") && forall last :: !Below(x.qn, y.qn, last)
  }

  /** The call keeps the rows that its matching keeps, by keys that tell modules from the rest. */
  ghost predicate KindsKept(s: Store, op: Op) {
    op.Persist? ==> RowsReused(s.db.nodes, op.f, op.kept) && KeysDetermineKinds(s.db.nodes, op.f)
  }

  lemma RowsInTypes(s: Store)
    requires Good(s) && MethodsInTypes(s.files)
    ensures NoMethodUnderModule(s.db.nodes)
  {
    hide Consistent, EdgesRepresent, FilesHaveModules;
    forall m, r | m in s.db.nodes && r in s.db.nodes && s.db.nodes[m].kind.Method? && s.db.nodes[r].kind.Module?
      ensures s.db.nodes[r].qn != ParentName(s.db.nodes[m].qn)
    {
      assert s.db.nodes[m] in s.db.nodes.Values && s.db.nodes[r] in s.db.nodes.Values;
      var x := DeclaredRow(s.files, s.db.nodes[m]);
      var y := DeclaredRow(s.files, s.db.nodes[r]);
      ParentNameCuts(x.qn);
    }
  }

  lemma PersistStepRight(s: Store, parents: Parents, f: File, kept: map<Name, Id>, ids: map<Name, Id>, t: Store,
                         parents': Parents, r: Reading)
    requires Good(s) && Good(t) && StepTo(s, Persist(f, kept, ids), t, r) && KindsKept(s, Persist(f, kept, ids))
    requires MethodsInTypes(s.files) && MethodsInTypes(t.files) && MethodParentsRight(s.db.nodes, parents)
    requires ParentsRelinked(s.db.nodes, parents, f, kept, ids, t.db.nodes, parents')
    ensures MethodParentsRight(t.db.nodes, parents')
  {
    hide StepTo, RowsReused, KeysDetermineKinds, ParentsRelinked, MethodParentsRight, NoMethodUnderModule,
         RowsRepresent, MethodsInTypes, ParentsMayMove, EdgesRepresent, ListsExactOutside;
    PersistRewrites(s, f, kept, ids, t, r);
    KindsStay(s.db.nodes, f, kept);
    RowsInTypes(s);
    RowsInTypes(t);
    PersistKeepsMethodParents(s.db.nodes, s.db.edges, f, kept, ids, t.db.nodes, parents, parents');
  }

  lemma StepRight(s: Store, parents: Parents, op: Op, t: Store, parents': Parents, r: Reading)
    requires Good(s) && Good(t) && StepTo(s, op, t, r) && KindsKept(s, op)
    requires MethodsInTypes(s.files) && MethodsInTypes(t.files) && MethodParentsRight(s.db.nodes, parents)
    requires ParentStep(s, parents, op, t, parents')
    ensures MethodParentsRight(t.db.nodes, parents')
  {
    hide KindsKept, MethodParentsRight, MethodsInTypes, ParentsRelinked, Persisted, Rebuilt, FilesHaveModules,
         RowsRepresent, EdgesRepresent;
    match op
    case Persist(f, kept, ids) => PersistStepRight(s, parents, f, kept, ids, t, parents', r);
    case DeleteFile(path) => DeleteStepRight(s, parents, FileRows(s.db.nodes, path), t, parents');
    case Prune(present) => DeleteStepRight(s, parents, PrunedRows(s.db.nodes, present), t, parents');
    case Refresh =>
    case SkipFile =>
  }

  lemma DeleteStepRight(s: Store, parents: Parents, gone: set<Id>, t: Store, parents': Parents)
    requires NamesUnique(s.db.nodes) && t.db.nodes == Deleted(s.db, gone).nodes
    requires MethodParentsRight(s.db.nodes, parents) && parents' == AfterDrop(parents, gone)
    ensures MethodParentsRight(t.db.nodes, parents')
  {
    hide MethodParentsRight, NamesUnique;
    DeleteKeepsMethodParents(s.db.nodes, parents, gone);
    assert t.db.nodes == s.db.nodes - gone;
  }

  /** A history with its column of parents. */
  ghost predicate ParentHistory(states: seq<Store>, ops: seq<Op>, parents: seq<Parents>, r: Reading) {
    && History(states, ops, r) && |parents| == |states| && parents[0] == map[]
    && (forall i :: 0 <= i < |states| ==> MethodsInTypes(states[i].files))
    && forall i :: 0 <= i < |ops| ==>
         KindsKept(states[i], ops[i]) && ParentStep(states[i], parents[i], ops[i], states[i + 1], parents[i + 1])
  }

  /**
   * At every point of every history that misleads no edge, every method's parent is the row that its
   * name says, though most calls re-link the methods of one file only.
   */
  lemma {:induction false} HistoryParentsRight(states: seq<Store>, ops: seq<Op>, parents: seq<Parents>, r: Reading,
                                               n: nat)
    requires ParentHistory(states, ops, parents, r) && n < |states|
    ensures MethodParentsRight(states[n].db.nodes, parents[n]) && ParentsNamed(states[n].db.nodes, parents[n])
  {
    hide Good, StepTo, MisleadsNone, KindsKept, ParentStep, MethodsInTypes, ParentsNamed;
    if n > 0 {
      HistoryParentsRight(states, ops, parents, r, n - 1);
      HistoryGood(states, ops, r, n - 1);
      HistoryGood(states, ops, r, n);
      StepRight(states[n - 1], parents[n - 1], ops[n - 1], states[n], parents[n], r);
    }
    HistoryGood(states, ops, r, n);
    GoodNames(states[n]);
    RightIsNamed(states[n].db.nodes, parents[n]);
  }

  lemma GoodNames(s: Store)
    requires Good(s)
    ensures NamesUnique(s.db.nodes)
  {
  }
}
