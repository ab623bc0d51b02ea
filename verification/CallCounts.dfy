/**
 * The `resolved_calls` and `unresolved_calls` counters (backend/app/graph/builder.py:350-449):
 * what one call reports, and what the reports of a whole walk add up to.
 */
module CallCounts {
  import opened CodeGraph
  import opened CallArrays
  import opened FileRewrite
  import opened GraphStates
  import opened StoreRuns

  function BoundCalls(edges: Edges): set<EdgeKey> {
    set k | k in edges && k.etype.Calls? && edges[k].Some?
  }

  function DanglingCalls(edges: Edges): set<EdgeKey> {
    set k | k in edges && k.etype.Calls? && edges[k].None?
  }

  datatype Counts = Counts(resolved: int, unresolved: int)

  function Plus(a: Counts, b: Counts): Counts {
    Counts(a.resolved + b.resolved, a.unresolved + b.unresolved)
  }

  function OwnBound(inserted: Edges, own: set<EdgeKey>): set<EdgeKey> {
    BoundCalls(inserted) * own
  }

  function OwnDangling(inserted: Edges, own: set<EdgeKey>): set<EdgeKey> {
    DanglingCalls(inserted) * own
  }

  function NewlyBound(final: Edges, candidates: set<EdgeKey>): set<EdgeKey> {
    BoundCalls(final) * candidates
  }

  /** New calls count as they were inserted; a dangling call that got bound moves from one side to the other. */
  function Reported(inserted: Edges, final: Edges, own: set<EdgeKey>, candidates: set<EdgeKey>): Counts {
    Counts(|OwnBound(inserted, own)| + |NewlyBound(final, candidates)|,
           |OwnDangling(inserted, own)| - |NewlyBound(final, candidates)|)
  }

  /** How the table of edges goes from cleared to final. */
  ghost predicate Evolves(cleared: Edges, inserted: Edges, final: Edges, own: set<EdgeKey>, candidates: set<EdgeKey>) {
    && cleared.Keys !! own && inserted.Keys == final.Keys == cleared.Keys + own
    && (forall k :: k in cleared ==> inserted[k] == cleared[k])
    && (forall k :: k in own ==> final[k] == inserted[k])
    && candidates <= inserted.Keys && (forall k :: k in candidates ==> inserted[k].None?)
    && (forall k :: k in final && k !in candidates ==> final[k] == inserted[k])
  }

  ghost function CountsOf(db: Db, f: File, kept: map<Name, Id>, ids: map<Name, Id>, nodes': Nodes): Counts {
    var s := EdgeStages(db.nodes, db.edges, f, kept, ids, nodes');
    Reported(s.inserted, s.final, NewKeys(f, ids),
             Candidates(s.inserted, Affected(db.nodes, f, Doomed(db.nodes, f, kept))))
  }

  lemma DisjointUnion<T>(a: set<T>, b: set<T>)
    requires a !! b
    ensures |a + b| == |a| + |b|
  {
  }

  lemma ThreeParts<T>(whole: set<T>, a: set<T>, b: set<T>, c: set<T>)
    requires a !! b && a !! c && b !! c && whole == a + b + c
    ensures |whole| == |a| + |b| + |c|
  {
    DisjointUnion(a, b);
    DisjointUnion(a + b, c);
  }

  lemma CallMoves(cleared: Edges, inserted: Edges, final: Edges, own: set<EdgeKey>, candidates: set<EdgeKey>,
                  k: EdgeKey)
    requires Evolves(cleared, inserted, final, own, candidates)
    ensures k in BoundCalls(final)
            <==> k in BoundCalls(cleared) || k in OwnBound(inserted, own) || k in NewlyBound(final, candidates)
    ensures k in DanglingCalls(cleared) || k in OwnDangling(inserted, own)
            <==> k in DanglingCalls(final) || k in NewlyBound(final, candidates)
    ensures k in NewlyBound(final, candidates) ==> k in DanglingCalls(cleared) && k !in own && k !in BoundCalls(cleared)
    ensures k in own ==> k !in cleared
  {
    assert k in own ==> k !in cleared;
  }

  /** `whole` is made of the three parts, which do not overlap. */
  ghost predicate Parts(whole: set<EdgeKey>, a: set<EdgeKey>, b: set<EdgeKey>, c: set<EdgeKey>) {
    forall k: EdgeKey {:trigger k in whole} {:trigger k in a} {:trigger k in b} {:trigger k in c} ::
      && (k in whole <==> k in a || k in b || k in c)
      && !(k in a && k in b) && !(k in a && k in c) && !(k in b && k in c)
  }

  lemma PartsAddUp(whole: set<EdgeKey>, a: set<EdgeKey>, b: set<EdgeKey>, c: set<EdgeKey>)
    requires Parts(whole, a, b, c)
    ensures |whole| == |a| + |b| + |c|
  {
    ThreeParts(whole, a, b, c);
  }

  lemma BoundParts(cleared: Edges, inserted: Edges, final: Edges, own: set<EdgeKey>, candidates: set<EdgeKey>)
    requires Evolves(cleared, inserted, final, own, candidates)
    ensures Parts(BoundCalls(final), BoundCalls(cleared), OwnBound(inserted, own), NewlyBound(final, candidates))
  {
    forall k { CallMoves(cleared, inserted, final, own, candidates, k); }
  }

  lemma DanglingParts(cleared: Edges, inserted: Edges, final: Edges, own: set<EdgeKey>, candidates: set<EdgeKey>)
    requires Evolves(cleared, inserted, final, own, candidates)
    ensures var all := DanglingCalls(cleared) + OwnDangling(inserted, own);
            && Parts(all, DanglingCalls(final), NewlyBound(final, candidates), {})
            && Parts(all, DanglingCalls(cleared), OwnDangling(inserted, own), {})
  {
    forall k { CallMoves(cleared, inserted, final, own, candidates, k); }
  }

  lemma OwnKeysAreNew(db: Db, f: File, kept: map<Name, Id>, ids: map<Name, Id>, nodes': Nodes)
    requires Rewrite(db.nodes, db.edges, f, kept, ids, nodes')
    ensures EdgeStages(db.nodes, db.edges, f, kept, ids, nodes').cleared.Keys !! NewKeys(f, ids)
  {
    var s := EdgeStages(db.nodes, db.edges, f, kept, ids, nodes');
    forall k | k in s.cleared
      ensures k !in NewKeys(f, ids)
    {
      FinalEdge(db.nodes, db.edges, f, kept, ids, nodes', k);
    }
  }

  lemma OwnKeysKeepBinding(db: Db, f: File, kept: map<Name, Id>, ids: map<Name, Id>, nodes': Nodes, k: EdgeKey)
    requires Rewrite(db.nodes, db.edges, f, kept, ids, nodes') && k in NewKeys(f, ids)
    ensures var s := EdgeStages(db.nodes, db.edges, f, kept, ids, nodes');
            k in s.inserted && k in s.final && s.final[k] == s.inserted[k]
  {
    FinalEdge(db.nodes, db.edges, f, kept, ids, nodes', k);
  }

  lemma StagesEvolve(db: Db, f: File, kept: map<Name, Id>, ids: map<Name, Id>, nodes': Nodes)
    requires Rewrite(db.nodes, db.edges, f, kept, ids, nodes')
    ensures var s := EdgeStages(db.nodes, db.edges, f, kept, ids, nodes');
            Evolves(s.cleared, s.inserted, s.final, NewKeys(f, ids),
                    Candidates(s.inserted, Affected(db.nodes, f, Doomed(db.nodes, f, kept))))
  {
    OwnKeysAreNew(db, f, kept, ids, nodes');
    forall k | k in NewKeys(f, ids)
      ensures var s := EdgeStages(db.nodes, db.edges, f, kept, ids, nodes');
              k in s.inserted && k in s.final && s.final[k] == s.inserted[k]
    {
      OwnKeysKeepBinding(db, f, kept, ids, nodes', k);
    }
  }

  /** The reported numbers are what the call added to the edge table after clearing the file's own edges. */
  lemma CountersReportChange(db: Db, f: File, kept: map<Name, Id>, ids: map<Name, Id>, nodes': Nodes)
    requires Rewrite(db.nodes, db.edges, f, kept, ids, nodes')
    ensures var s := EdgeStages(db.nodes, db.edges, f, kept, ids, nodes');
            var c := CountsOf(db, f, kept, ids, nodes');
            && |BoundCalls(s.final)| == |BoundCalls(s.cleared)| + c.resolved
            && |DanglingCalls(s.final)| == |DanglingCalls(s.cleared)| + c.unresolved
  {
    var s := EdgeStages(db.nodes, db.edges, f, kept, ids, nodes');
    var own := NewKeys(f, ids);
    var candidates := Candidates(s.inserted, Affected(db.nodes, f, Doomed(db.nodes, f, kept)));
    StagesEvolve(db, f, kept, ids, nodes');
    BoundParts(s.cleared, s.inserted, s.final, own, candidates);
    PartsAddUp(BoundCalls(s.final), BoundCalls(s.cleared), OwnBound(s.inserted, own), NewlyBound(s.final, candidates));
    DanglingParts(s.cleared, s.inserted, s.final, own, candidates);
    var all := DanglingCalls(s.cleared) + OwnDangling(s.inserted, own);
    PartsAddUp(all, DanglingCalls(s.final), NewlyBound(s.final, candidates), {});
    PartsAddUp(all, DanglingCalls(s.cleared), OwnDangling(s.inserted, own), {});
  }

  /** A file the store does not hold yet clears nothing. */
  lemma NewFileClearsNothing(db: Db, f: File, kept: map<Name, Id>, ids: map<Name, Id>, nodes': Nodes)
    requires Matching(db.nodes, f, kept) && FileRows(db.nodes, f.path) == {}
    ensures EdgeStages(db.nodes, db.edges, f, kept, ids, nodes').cleared == db.edges
  {
    assert Doomed(db.nodes, f, kept) == {} && kept.Values == {};
  }

  // ---- A walk into an empty repository ----

  /** A history that only inserts files it does not hold yet, or skips files whose savepoint failed. */
  ghost predicate FreshWalk(states: seq<Store>, ops: seq<Op>, r: Reading) {
    && History(states, ops, r)
    && forall i :: 0 <= i < |ops| ==>
         ops[i].SkipFile? || (ops[i].Persist? && FileRows(states[i].db.nodes, ops[i].f.path) == {})
  }

  ghost function Total(states: seq<Store>, ops: seq<Op>, n: nat): Counts
    requires n <= |ops| && |states| == |ops| + 1
  {
    if n == 0 then Counts(0, 0)
    else
      var op := ops[n - 1];
      if op.Persist? then
        Plus(Total(states, ops, n - 1),
             CountsOf(states[n - 1].db, op.f, op.kept, op.ids, states[n].db.nodes))
      else Total(states, ops, n - 1)
  }

  /** The summed counters are the numbers of bound and of dangling calls in the repository. */
  lemma {:induction false} WalkTotals(states: seq<Store>, ops: seq<Op>, r: Reading, n: nat)
    requires FreshWalk(states, ops, r) && n <= |ops|
    ensures Total(states, ops, n) == Counts(|BoundCalls(states[n].db.edges)|, |DanglingCalls(states[n].db.edges)|)
  {
    hide StepTo, MisleadsNone, Good, BoundCalls, DanglingCalls, CountsOf;
    if n == 0 {
      NoCallsYet();
    } else {
      WalkTotals(states, ops, r, n - 1);
      HistoryGood(states, ops, r, n - 1);
      OneMoreFile(states[n - 1], ops[n - 1], states[n], r);
    }
  }

  /** Even as written, a walk into an empty repository leaves the lists of every row exact. */
  lemma {:induction false} FreshWalkOwesNothing(states: seq<Store>, ops: seq<Op>, r: Reading, n: nat)
    requires FreshWalk(states, ops, r) && n <= |ops|
    ensures states[n].owed == {} && Consistent(states[n].db, {})
  {
    hide StepTo, MisleadsNone, Good, Consistent, FileRows;
    HistoryGood(states, ops, r, n);
    if n > 0 {
      FreshWalkOwesNothing(states, ops, r, n - 1);
      HistoryGood(states, ops, r, n - 1);
      NewFileOwesNothing(states[n - 1], ops[n - 1], states[n], r);
    }
    GoodIsConsistent(states[n]);
  }

  lemma GoodIsConsistent(s: Store)
    requires Good(s)
    ensures Consistent(s.db, s.owed)
  {
  }

  lemma NewFileOwesNothing(s: Store, op: Op, t: Store, r: Reading)
    requires StepTo(s, op, t, r) && s.owed == {}
    requires op.SkipFile? || (op.Persist? && FileRows(s.db.nodes, op.f.path) == {})
    ensures t.owed == {}
  {
    hide Persisted;
    assert op.Persist? ==> Doomed(s.db.nodes, op.f, op.kept) == {};
  }

  lemma NoCallsYet()
    ensures BoundCalls(EMPTY_DB.edges) == {} && DanglingCalls(EMPTY_DB.edges) == {}
  {
  }

  lemma InsertedFileCounts(db: Db, f: File, kept: map<Name, Id>, ids: map<Name, Id>, nodes': Nodes, edges': Edges)
    requires Rewrite(db.nodes, db.edges, f, kept, ids, nodes') && FileRows(db.nodes, f.path) == {}
    requires edges' == EdgeStages(db.nodes, db.edges, f, kept, ids, nodes').final
    ensures Counts(|BoundCalls(edges')|, |DanglingCalls(edges')|)
            == Plus(Counts(|BoundCalls(db.edges)|, |DanglingCalls(db.edges)|), CountsOf(db, f, kept, ids, nodes'))
  {
    hide BoundCalls, DanglingCalls, CountsOf, EdgeStages, NodesRewritten, Assigned, NamesBoundRight, References;
    CountersReportChange(db, f, kept, ids, nodes');
    NewFileClearsNothing(db, f, kept, ids, nodes');
  }

  lemma PersistRewrites(s: Store, f: File, kept: map<Name, Id>, ids: map<Name, Id>, t: Store, r: Reading)
    requires Good(s) && StepTo(s, Persist(f, kept, ids), t, r)
    ensures Rewrite(s.db.nodes, s.db.edges, f, kept, ids, t.db.nodes) && t.files == s.files[f.path := f]
    ensures t.db.edges == EdgeStages(s.db.nodes, s.db.edges, f, kept, ids, t.db.nodes).final
  {
    hide Rebuilt;
  }

  /** A file the store does not hold yet adds what its counters say; a skipped one adds nothing. */
  lemma OneMoreFile(s: Store, op: Op, t: Store, r: Reading)
    requires Good(s) && StepTo(s, op, t, r)
    requires op.SkipFile? || (op.Persist? && FileRows(s.db.nodes, op.f.path) == {})
    ensures Counts(|BoundCalls(t.db.edges)|, |DanglingCalls(t.db.edges)|)
            == Plus(Counts(|BoundCalls(s.db.edges)|, |DanglingCalls(s.db.edges)|),
                    if op.Persist? then CountsOf(s.db, op.f, op.kept, op.ids, t.db.nodes) else Counts(0, 0))
  {
    hide Good, BoundCalls, DanglingCalls, CountsOf, FileRows, EdgeStages, Rewrite, Persisted;
    if op.Persist? {
      PersistRewrites(s, op.f, op.kept, op.ids, t, r);
      InsertedFileCounts(s.db, op.f, op.kept, op.ids, t.db.nodes, t.db.edges);
    }
  }
}
