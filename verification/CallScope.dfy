/**
 * The arrays when one file is replaced (backend/app/graph/builder.py:275-515): which rows the call
 * rebuilds or treats as peers, and whose lists that leaves exact.
 */
module CallScope {
  import opened Wrappers
  import opened CodeGraph
  import opened CallArrays
  import opened FileRewrite

  // ---- Which nodes the call rebuilds, which it treats as peers ----

  function Targets(edges: Edges, keys: set<EdgeKey>): set<Id> {
    set k | k in keys && k in edges && edges[k].Some? :: edges[k].value
  }

  function KeysFrom(edges: Edges, sources: set<Id>): set<EdgeKey> {
    set k | k in edges && k.source in sources
  }

  function Sources(keys: set<EdgeKey>): set<Id> {
    set k | k in keys :: k.source
  }

  function CallsOnly(keys: set<EdgeKey>): set<EdgeKey> {
    set k | k in keys && k.etype.Calls?
  }

  /** Whether the targets of the deleted rows are collected as peers, as `_collect_delete_peer_ids` does. */
  datatype Collection = AsWritten | WithDoomedTargets

  datatype Scope = Scope(rebuilt: set<Id>, peers: set<Id>, dropped: set<Id>)

  ghost function ScopeOf(nodes: Nodes, edges: Edges, f: File, kept: map<Name, Id>, ids: map<Name, Id>,
                         nodes': Nodes, c: Collection): Scope
  {
    var s := EdgeStages(nodes, edges, f, kept, ids, nodes');
    var doomed := Doomed(nodes, f, kept);
    var candidates := Candidates(s.inserted, Affected(nodes, f, doomed));
    var rebuilt := ids.Values + Targets(s.final, CallsOnly(candidates));
    var outbound := Targets(s.cut, KeysFrom(s.cut, kept.Values));
    var ofDoomed := if c.AsWritten? then {} else Targets(edges, KeysFrom(edges, doomed)) - doomed;
    var touched := outbound + Sources(candidates) + Targets(s.inserted, NewKeys(f, ids)) + ofDoomed;
    Scope(rebuilt, touched - rebuilt, doomed)
  }

  /** A surviving node that a deleted row called. */
  ghost predicate CalledByDoomed(nodes: Nodes, edges: Edges, f: File, kept: map<Name, Id>, n: Id) {
    var doomed := Doomed(nodes, f, kept);
    n !in doomed && exists k :: k in edges && k.etype.Calls? && k.source in doomed && edges[k] == Some(n)
  }

  /** Where the two ends of a call that the file's replacement changed can lie. */
  ghost predicate Located(sc: Scope, missed: set<Id>, p: Pair) {
    && (p.0 in sc.rebuilt + sc.dropped || p.1 in sc.rebuilt + sc.dropped)
    && p.0 in sc.rebuilt + sc.peers + sc.dropped + missed
    && p.1 in sc.rebuilt + sc.peers + sc.dropped + missed
  }

  lemma CallPairIn(edges: Edges, k: EdgeKey)
    requires BoundCall(edges, k)
    ensures (k.source, edges[k].value) in CallPairs(edges)
  {
  }

  lemma PairHasKey(edges: Edges, p: Pair) returns (k: EdgeKey)
    requires p in CallPairs(edges)
    ensures BoundCall(edges, k) && p == (k.source, edges[k].value)
  {
    k :| BoundCall(edges, k) && p == (k.source, edges[k].value);
  }

  /** Calls that disappear: their caller is of this file, or their target was deleted. */
  lemma LostCall(nodes: Nodes, edges: Edges, f: File, kept: map<Name, Id>, ids: map<Name, Id>, nodes': Nodes,
                 c: Collection, k: EdgeKey)
    requires Rewrite(nodes, edges, f, kept, ids, nodes') && BoundCall(edges, k)
    requires (k.source, edges[k].value) !in CallPairs(EdgeStages(nodes, edges, f, kept, ids, nodes').final)
    ensures var sc := ScopeOf(nodes, edges, f, kept, ids, nodes', c);
            var (a, b) := (k.source, edges[k].value);
            && (a in sc.rebuilt || a in sc.dropped || b in sc.dropped)
            && (a in sc.rebuilt + sc.peers + sc.dropped)
            && (b in sc.rebuilt + sc.peers + sc.dropped || CalledByDoomed(nodes, edges, f, kept, b))
            && (c.WithDoomedTargets? ==> b in sc.rebuilt + sc.peers + sc.dropped)
  {
    var s := EdgeStages(nodes, edges, f, kept, ids, nodes');
    var doomed := Doomed(nodes, f, kept);
    var (a, b) := (k.source, edges[k].value);
    FinalEdge(nodes, edges, f, kept, ids, nodes', k);
    if a in kept.Values {
      KeptAreIds(kept, ids, nodes, f, a);
      if b !in doomed {
        assert k in s.cut && s.cut[k] == Some(b);
        assert k in KeysFrom(s.cut, kept.Values);
      }
    } else if a in doomed {
      assert k in KeysFrom(edges, doomed);
    } else {
      assert k in s.final;
      if b !in doomed {
        if k !in NewKeys(f, ids) {
          CallPairIn(s.final, k);
        }
      }
      assert BoundRight(nodes, edges, k);
      assert k in Candidates(s.inserted, Affected(nodes, f, doomed));
    }
  }

  /** Calls that appear: they are the file's own, or an unbound call from elsewhere found its target. */
  lemma GainedCall(nodes: Nodes, edges: Edges, f: File, kept: map<Name, Id>, ids: map<Name, Id>, nodes': Nodes,
                   c: Collection, k: EdgeKey)
    requires Rewrite(nodes, edges, f, kept, ids, nodes')
    requires BoundCall(EdgeStages(nodes, edges, f, kept, ids, nodes').final, k)
    requires var final := EdgeStages(nodes, edges, f, kept, ids, nodes').final;
             (k.source, final[k].value) !in CallPairs(edges)
    ensures var sc := ScopeOf(nodes, edges, f, kept, ids, nodes', c);
            var final := EdgeStages(nodes, edges, f, kept, ids, nodes').final;
            var (a, b) := (k.source, final[k].value);
            Located(sc, {}, (a, b))
  {
    var s := EdgeStages(nodes, edges, f, kept, ids, nodes');
    var doomed := Doomed(nodes, f, kept);
    var names := Affected(nodes, f, doomed);
    var (a, b) := (k.source, s.final[k].value);
    FinalEdge(nodes, edges, f, kept, ids, nodes', k);
    if k in NewKeys(f, ids) {
      assert b in Targets(s.inserted, NewKeys(f, ids));
    } else {
      if k !in Candidates(s.inserted, names) {
        CallPairIn(edges, k);
      }
      assert k in CallsOnly(Candidates(s.inserted, names));
      assert b in Targets(s.final, CallsOnly(Candidates(s.inserted, names)));
      assert a in Sources(Candidates(s.inserted, names));
    }
  }

  /** The surviving nodes that deleted rows called. */
  ghost function Missed(nodes: Nodes, edges: Edges, f: File, kept: map<Name, Id>, nodes': Nodes): set<Id> {
    set n | n in nodes' && CalledByDoomed(nodes, edges, f, kept, n)
  }

  lemma LostPairLocated(nodes: Nodes, edges: Edges, f: File, kept: map<Name, Id>, ids: map<Name, Id>, nodes': Nodes,
                        c: Collection, p: Pair)
    requires Rewrite(nodes, edges, f, kept, ids, nodes')
    requires p in CallPairs(edges) && p !in CallPairs(EdgeStages(nodes, edges, f, kept, ids, nodes').final)
    ensures Located(ScopeOf(nodes, edges, f, kept, ids, nodes', c), Missed(nodes, edges, f, kept, nodes'), p)
  {
    var k := PairHasKey(edges, p);
    LostCall(nodes, edges, f, kept, ids, nodes', c, k);
    KeptRowsSurvive(nodes, edges, f, kept, ids, nodes');
  }

  lemma GainedPairLocated(nodes: Nodes, edges: Edges, f: File, kept: map<Name, Id>, ids: map<Name, Id>, nodes': Nodes,
                          c: Collection, p: Pair)
    requires Rewrite(nodes, edges, f, kept, ids, nodes')
    requires p !in CallPairs(edges) && p in CallPairs(EdgeStages(nodes, edges, f, kept, ids, nodes').final)
    ensures Located(ScopeOf(nodes, edges, f, kept, ids, nodes', c), Missed(nodes, edges, f, kept, nodes'), p)
  {
    var k := PairHasKey(EdgeStages(nodes, edges, f, kept, ids, nodes').final, p);
    GainedCall(nodes, edges, f, kept, ids, nodes', c, k);
    LocatedMore(ScopeOf(nodes, edges, f, kept, ids, nodes', c), Missed(nodes, edges, f, kept, nodes'), p);
  }

  lemma LocatedMore(sc: Scope, missed: set<Id>, p: Pair)
    requires Located(sc, {}, p)
    ensures Located(sc, missed, p)
  {
  }

  lemma KeptRowsSurvive(nodes: Nodes, edges: Edges, f: File, kept: map<Name, Id>, ids: map<Name, Id>, nodes': Nodes)
    requires RowsReplaced(nodes, edges, f, kept, ids, nodes')
    ensures nodes'.Keys !! Doomed(nodes, f, kept) && nodes.Keys <= nodes'.Keys + Doomed(nodes, f, kept)
  {
    forall id | id in ids.Values && id in nodes
      ensures id in kept.Values
    {
      var q :| q in ids && ids[q] == id;
      assert q in kept;
    }
  }

  /**
   * Provided the lists of node `n` were exact before, they are exact after the call exactly when
   * the call rebuilt it or had it among its peers, or no deleted row called it.
   */
  lemma ListsExactInScopeIff(nodes: Nodes, edges: Edges, f: File, kept: map<Name, Id>, ids: map<Name, Id>,
                             nodes': Nodes,
                      c: Collection, callees: Lists, callers: Lists, callees': Lists, callers': Lists, n: Id)
    requires Rewrite(nodes, edges, f, kept, ids, nodes')
    requires n in nodes' && ExactAt(callees, callers, CallPairs(edges), n)
    requires var sc := ScopeOf(nodes, edges, f, kept, ids, nodes', c);
             Rebuilt(callees, callers, callees', callers',
                     CallPairs(EdgeStages(nodes, edges, f, kept, ids, nodes').final),
                     nodes'.Keys, sc.rebuilt, sc.peers, sc.dropped)
    ensures var sc := ScopeOf(nodes, edges, f, kept, ids, nodes', c);
            ExactAt(callees', callers', CallPairs(EdgeStages(nodes, edges, f, kept, ids, nodes').final), n)
            <==> n in sc.rebuilt + sc.peers || !CalledByDoomed(nodes, edges, f, kept, n)
    ensures c.WithDoomedTargets? ==>
              ExactAt(callees', callers', CallPairs(EdgeStages(nodes, edges, f, kept, ids, nodes').final), n)
  {
    var sc := ScopeOf(nodes, edges, f, kept, ids, nodes', c);
    var before, after := CallPairs(edges), CallPairs(EdgeStages(nodes, edges, f, kept, ids, nodes').final);
    var missed := Missed(nodes, edges, f, kept, nodes');
    KeptRowsSurvive(nodes, edges, f, kept, ids, nodes');
    FinalReferences(nodes, edges, f, kept, ids, nodes');
    forall p | Changed(before, after, p)
      ensures Located(sc, missed, p)
    {
      if p in before {
        LostPairLocated(nodes, edges, f, kept, ids, nodes', c, p);
      } else {
        GainedPairLocated(nodes, edges, f, kept, ids, nodes', c, p);
      }
    }
    if n in missed {
      MissedChanged(nodes, edges, f, kept, ids, nodes', c, n);
    }
    ExactUnlessMissed(callees, callers, callees', callers', before, after, nodes'.Keys,
                      sc.rebuilt, sc.peers, sc.dropped, missed, n);
  }

  lemma MissedChanged(nodes: Nodes, edges: Edges, f: File, kept: map<Name, Id>, ids: map<Name, Id>, nodes': Nodes,
                      c: Collection, n: Id)
    requires Rewrite(nodes, edges, f, kept, ids, nodes')
    requires n in nodes' && CalledByDoomed(nodes, edges, f, kept, n)
    ensures ChangedAt(CallPairs(edges), CallPairs(EdgeStages(nodes, edges, f, kept, ids, nodes').final), n)
    ensures c.WithDoomedTargets? ==>
              var sc := ScopeOf(nodes, edges, f, kept, ids, nodes', c);
              n in sc.rebuilt + sc.peers
  {
    var before, after := CallPairs(edges), CallPairs(EdgeStages(nodes, edges, f, kept, ids, nodes').final);
    var k :| k in edges && k.etype.Calls? && k.source in Doomed(nodes, f, kept) && edges[k] == Some(n);
    CallPairIn(edges, k);
    KeptRowsSurvive(nodes, edges, f, kept, ids, nodes');
    FinalReferences(nodes, edges, f, kept, ids, nodes');
    assert Changed(before, after, (k.source, n));
    LostCall(nodes, edges, f, kept, ids, nodes', c, k);
  }

  // ---- The scope, told from what the call is given ----

  /** An edge to `target` will be bound to `n`, a row of another file, once the file is replaced. */
  ghost predicate WillResolveTo(nodes: Nodes, f: File, etype: EdgeType, target: Name, n: Id) {
    && n in nodes && nodes[n].path != f.path
    && (nodes[n].qn == target || (etype.Inherits? && OnlyFit(nodes, f, target, n)))
  }

  /** No row is going to be named `target`, and `n` is the only one whose short name fits. */
  ghost predicate OnlyFit(nodes: Nodes, f: File, target: Name, n: Id) {
    && n in nodes && Fits(nodes[n], target) && target !in Names(f)
    && (forall m :: m in nodes && nodes[m].path != f.path ==>
          nodes[m].qn != target && (Fits(nodes[m], target) ==> m == n))
    && (forall x :: x in f.nodes ==> !Fits(RowOf(f, x), target))
  }

  /**
   * An edge of a kept row was bound to `n`, or one of the file's edges is going to be, or `n` has an
   * edge, unbound or bound to a doomed row, to a name that the file defines or defined.
   */
  ghost predicate Reached(nodes: Nodes, edges: Edges, f: File, kept: map<Name, Id>, n: Id) {
    var doomed := Doomed(nodes, f, kept);
    || (exists k :: k in edges && k.source in kept.Values && edges[k] == Some(n))
    || (exists e :: e in f.edges && e.source in Names(f) && WillResolveTo(nodes, f, e.etype, e.target, n))
    || (exists k :: k in edges && k.source == n && (edges[k].None? || edges[k].value in doomed)
                    && k.target in Affected(nodes, f, doomed))
  }

  /** A deleted row called `n`, a row of another file, and the call does not reach it. */
  ghost predicate LeftStale(nodes: Nodes, edges: Edges, f: File, kept: map<Name, Id>, n: Id) {
    && n in nodes && nodes[n].path != f.path
    && CalledByDoomed(nodes, edges, f, kept, n) && !Reached(nodes, edges, f, kept, n)
  }

  lemma OutsideRowStays(nodes: Nodes, edges: Edges, f: File, kept: map<Name, Id>, ids: map<Name, Id>, nodes': Nodes,
                        n: Id)
    requires RowsReplaced(nodes, edges, f, kept, ids, nodes') && n in nodes && nodes[n].path != f.path
    ensures n in nodes' && n !in ids.Values && nodes'[n] == nodes[n]
  {
    if n in ids.Values {
      OldIdIsKept(nodes, f, kept, ids, n);
    }
  }

  lemma OldIdIsKept(nodes: Nodes, f: File, kept: map<Name, Id>, ids: map<Name, Id>, id: Id)
    requires Assigned(nodes, f, kept, ids) && id in ids.Values && id in nodes
    ensures id in kept.Values
  {
    var q :| q in ids && ids[q] == id;
    assert q in kept;
  }

  /** A row of the new table is a row of another file, unchanged, or one of the file's nodes. */
  lemma NewTableRow(nodes: Nodes, edges: Edges, f: File, kept: map<Name, Id>, ids: map<Name, Id>, nodes': Nodes, m: Id)
    requires RowsReplaced(nodes, edges, f, kept, ids, nodes') && m in nodes'
    ensures m !in ids.Values ==> m in nodes && nodes'[m] == nodes[m] && nodes[m].path != f.path
    ensures m in ids.Values ==> exists x :: x in f.nodes && nodes'[m] == RowOf(f, x) && ids[x.qn] == m
  {
    if m in ids.Values {
      var q :| q in ids && ids[q] == m;
      var x :| x in f.nodes && x.qn == q;
    } else if m in kept.Values {
      KeptAreIds(kept, ids, nodes, f, m);
    }
  }

  lemma NamedAfter(nodes: Nodes, edges: Edges, f: File, kept: map<Name, Id>, ids: map<Name, Id>, nodes': Nodes,
                   target: Name, n: Id, r: Id)
    requires RowsReplaced(nodes, edges, f, kept, ids, nodes') && n in nodes && nodes[n].path != f.path
    requires Named(nodes', target, r)
    ensures r == n <==> nodes[n].qn == target
    ensures !OnlyFit(nodes, f, target, n)
  {
    OutsideRowStays(nodes, edges, f, kept, ids, nodes', n);
    NewTableRow(nodes, edges, f, kept, ids, nodes', r);
  }

  lemma UnnamedAfter(nodes: Nodes, edges: Edges, f: File, kept: map<Name, Id>, ids: map<Name, Id>, nodes': Nodes,
                     target: Name)
    requires RowsReplaced(nodes, edges, f, kept, ids, nodes') && forall id :: !Named(nodes', target, id)
    ensures target !in Names(f)
    ensures forall m :: m in nodes && nodes[m].path != f.path ==> nodes[m].qn != target
  {
    if target in Names(f) {
      IdsAreRows(nodes, edges, f, kept, ids, nodes', target);
      assert Named(nodes', target, ids[target]);
    }
    forall m | m in nodes && nodes[m].path != f.path
      ensures nodes[m].qn != target
    {
      OutsideRowStays(nodes, edges, f, kept, ids, nodes', m);
      assert !Named(nodes', target, m);
    }
  }

  lemma OnlyFitIff(nodes: Nodes, edges: Edges, f: File, kept: map<Name, Id>, ids: map<Name, Id>, nodes': Nodes,
                   target: Name, n: Id)
    requires RowsReplaced(nodes, edges, f, kept, ids, nodes') && n in nodes && nodes[n].path != f.path
    requires forall id :: !Named(nodes', target, id)
    ensures OnlyFit(nodes, f, target, n) <==> ShortNameMatches(nodes', target) == {n}
  {
    hide RowsReplaced, Fits;
    UnnamedAfter(nodes, edges, f, kept, ids, nodes', target);
    OutsideRowStays(nodes, edges, f, kept, ids, nodes', n);
    var matches := ShortNameMatches(nodes', target);
    if OnlyFit(nodes, f, target, n) {
      forall m | m in matches
        ensures m == n
      {
        NewTableRow(nodes, edges, f, kept, ids, nodes', m);
      }
    }
    if matches == {n} {
      forall m | m in nodes && nodes[m].path != f.path && Fits(nodes[m], target)
        ensures m == n
      {
        OutsideRowStays(nodes, edges, f, kept, ids, nodes', m);
        assert m in matches;
      }
      forall x | x in f.nodes
        ensures !Fits(RowOf(f, x), target)
      {
        FileRow(nodes, edges, f, kept, ids, nodes', x);
        assert ids[x.qn] !in matches;
      }
      assert n in matches;
    }
  }

  lemma FileRow(nodes: Nodes, edges: Edges, f: File, kept: map<Name, Id>, ids: map<Name, Id>, nodes': Nodes, x: XNode)
    requires RowsReplaced(nodes, edges, f, kept, ids, nodes') && x in f.nodes
    ensures x.qn in ids && ids[x.qn] in nodes' && nodes'[ids[x.qn]] == RowOf(f, x)
    ensures forall n :: n in nodes && nodes[n].path != f.path ==> ids[x.qn] != n
  {
    forall n | n in nodes && nodes[n].path != f.path
      ensures ids[x.qn] != n
    {
      OutsideRowStays(nodes, edges, f, kept, ids, nodes', n);
      assert ids[x.qn] in ids.Values;
    }
  }

  lemma ResolvesOutsideIff(nodes: Nodes, edges: Edges, f: File, kept: map<Name, Id>, ids: map<Name, Id>, nodes': Nodes,
                           k: EdgeKey, n: Id)
    requires RowsReplaced(nodes, edges, f, kept, ids, nodes') && n in nodes && nodes[n].path != f.path
    ensures Resolve(nodes', k) == Some(n) <==> WillResolveTo(nodes, f, k.etype, k.target, n)
  {
    hide RowsReplaced, OnlyFit;
    var direct := Lookup(nodes', k.target);
    if direct.Some? {
      NamedAfter(nodes, edges, f, kept, ids, nodes', k.target, n, direct.value);
    } else {
      UnnamedAfter(nodes, edges, f, kept, ids, nodes', k.target);
      OnlyFitIff(nodes, edges, f, kept, ids, nodes', k.target, n);
      OneMatch(ShortNameMatches(nodes', k.target), n);
    }
  }

  lemma OneMatch(s: set<Id>, n: Id)
    ensures |s| == 1 && n in s <==> s == {n}
    ensures forall m :: |s| == 1 && n in s && m in s ==> m == n
  {
    if |s| == 1 && n in s {
      assert |s - {n}| == 0;
    }
  }

  // ---- Whether the call reaches a row of another file ----

  /** A call it rebinds never comes to point at a row whose name it does not affect. */
  lemma NotRebound(nodes: Nodes, edges: Edges, f: File, kept: map<Name, Id>, ids: map<Name, Id>, nodes': Nodes, n: Id,
                   k: EdgeKey)
    requires Rewrite(nodes, edges, f, kept, ids, nodes') && NamesUnique(nodes) && n in nodes && nodes[n].path != f.path
    requires k.etype.Calls? && k.target in Affected(nodes, f, Doomed(nodes, f, kept))
    ensures Resolve(nodes', k) != Some(n)
  {
    ResolvesOutsideIff(nodes, edges, f, kept, ids, nodes', k, n);
    if nodes[n].qn == k.target && k.target in Names(f) {
      OutsideRowStays(nodes, edges, f, kept, ids, nodes', n);
      IdsAreRows(nodes, edges, f, kept, ids, nodes', k.target);
    }
  }

  lemma OutboundIff(nodes: Nodes, edges: Edges, f: File, kept: map<Name, Id>, n: Id)
    requires Matching(nodes, f, kept) && n in nodes && nodes[n].path != f.path
    ensures var cut := Cut(edges, Doomed(nodes, f, kept));
            n in Targets(cut, KeysFrom(cut, kept.Values))
            <==> exists k :: k in edges && k.source in kept.Values && edges[k] == Some(n)
  {
    var cut := Cut(edges, Doomed(nodes, f, kept));
    forall k | k in edges && k.source in kept.Values && edges[k] == Some(n)
      ensures k in KeysFrom(cut, kept.Values) && cut[k] == Some(n)
    {
    }
  }

  lemma LinkedIff(nodes: Nodes, edges: Edges, f: File, kept: map<Name, Id>, ids: map<Name, Id>, nodes': Nodes, n: Id)
    requires RowsReplaced(nodes, edges, f, kept, ids, nodes') && n in nodes && nodes[n].path != f.path
    ensures n in Targets(EdgeStages(nodes, edges, f, kept, ids, nodes').inserted, NewKeys(f, ids))
            <==> exists e :: e in f.edges && e.source in Names(f) && WillResolveTo(nodes, f, e.etype, e.target, n)
  {
    hide WillResolveTo, Resolve, References, Matching, NodesRewritten, NamesUnique;
    var inserted := EdgeStages(nodes, edges, f, kept, ids, nodes').inserted;
    forall k | k in NewKeys(f, ids)
      ensures k in inserted && (inserted[k] == Some(n) <==> WillResolveTo(nodes, f, k.etype, k.target, n))
    {
      ResolvesOutsideIff(nodes, edges, f, kept, ids, nodes', k, n);
    }
    forall e | e in f.edges && e.source in Names(f) && WillResolveTo(nodes, f, e.etype, e.target, n)
      ensures n in Targets(inserted, NewKeys(f, ids))
    {
      var k := EdgeKey(ids[e.source], e.etype, e.target);
      assert k in NewKeys(f, ids);
    }
  }

  lemma AskedAgainIff(nodes: Nodes, edges: Edges, f: File, kept: map<Name, Id>, ids: map<Name, Id>, nodes': Nodes,
                      n: Id)
    requires RowsReplaced(nodes, edges, f, kept, ids, nodes') && n in nodes && nodes[n].path != f.path
    ensures var doomed := Doomed(nodes, f, kept);
            var inserted := EdgeStages(nodes, edges, f, kept, ids, nodes').inserted;
            n in Sources(Candidates(inserted, Affected(nodes, f, doomed)))
            <==> exists k :: k in edges && k.source == n && (edges[k].None? || edges[k].value in doomed)
                             && k.target in Affected(nodes, f, doomed)
  {
    var doomed := Doomed(nodes, f, kept);
    var inserted := EdgeStages(nodes, edges, f, kept, ids, nodes').inserted;
    forall k: EdgeKey | k.source == n
      ensures k in inserted <==> k in edges
      ensures k in edges ==> (inserted[k].None? <==> edges[k].None? || edges[k].value in doomed)
    {
      FinalEdge(nodes, edges, f, kept, ids, nodes', k);
      OutsideRowStays(nodes, edges, f, kept, ids, nodes', n);
    }
  }

  /** For a row of another file, being in the scope of the call is `Reached`. */
  lemma InScopeIffReached(nodes: Nodes, edges: Edges, f: File, kept: map<Name, Id>, ids: map<Name, Id>, nodes': Nodes,
                          n: Id)
    requires Rewrite(nodes, edges, f, kept, ids, nodes') && NamesUnique(nodes) && n in nodes && nodes[n].path != f.path
    ensures var sc := ScopeOf(nodes, edges, f, kept, ids, nodes', AsWritten);
            n in sc.rebuilt + sc.peers <==> Reached(nodes, edges, f, kept, n)
  {
    hide NodesRewritten, Assigned, References, Injective, WillResolveTo, NamesBoundRight, NamesUnique;
    OutsideRowStays(nodes, edges, f, kept, ids, nodes', n);
    OutboundIff(nodes, edges, f, kept, n);
    LinkedIff(nodes, edges, f, kept, ids, nodes', n);
    AskedAgainIff(nodes, edges, f, kept, ids, nodes', n);
    NotReboundTarget(nodes, edges, f, kept, ids, nodes', n);
  }

  lemma NotReboundTarget(nodes: Nodes, edges: Edges, f: File, kept: map<Name, Id>, ids: map<Name, Id>, nodes': Nodes,
                         n: Id)
    requires Rewrite(nodes, edges, f, kept, ids, nodes') && NamesUnique(nodes) && n in nodes && nodes[n].path != f.path
    ensures var s := EdgeStages(nodes, edges, f, kept, ids, nodes');
            n !in Targets(s.final, CallsOnly(Candidates(s.inserted, Affected(nodes, f, Doomed(nodes, f, kept)))))
  {
    hide RowsReplaced, Resolve, NamesBoundRight, NamesUnique, Affected;
    var s := EdgeStages(nodes, edges, f, kept, ids, nodes');
    forall k | k in CallsOnly(Candidates(s.inserted, Affected(nodes, f, Doomed(nodes, f, kept))))
      ensures k in s.final && s.final[k] != Some(n)
    {
      NotRebound(nodes, edges, f, kept, ids, nodes', n, k);
    }
  }

  /**
   * A row whose lists were exact has exact lists after the call, exactly when it is not left stale:
   * a row of another file that a deleted row called and that nothing else in the call reaches.
   * Collecting the deleted rows' targets leaves none stale.
   */
  lemma ListsExactIff(nodes: Nodes, edges: Edges, f: File, kept: map<Name, Id>, ids: map<Name, Id>, nodes': Nodes,
                      c: Collection, callees: Lists, callers: Lists, callees': Lists, callers': Lists, n: Id)
    requires Rewrite(nodes, edges, f, kept, ids, nodes') && NamesUnique(nodes)
    requires n in nodes' && ExactAt(callees, callers, CallPairs(edges), n)
    requires var sc := ScopeOf(nodes, edges, f, kept, ids, nodes', c);
             Rebuilt(callees, callers, callees', callers',
                     CallPairs(EdgeStages(nodes, edges, f, kept, ids, nodes').final),
                     nodes'.Keys, sc.rebuilt, sc.peers, sc.dropped)
    ensures ExactAt(callees', callers', CallPairs(EdgeStages(nodes, edges, f, kept, ids, nodes').final), n)
            <==> c.WithDoomedTargets? || !LeftStale(nodes, edges, f, kept, n)
  {
    hide Rebuilt, ExactAt, Reached, NamesBoundRight, RowsReplaced;
    ListsExactInScopeIff(nodes, edges, f, kept, ids, nodes', c, callees, callers, callees', callers', n);
    NewTableRow(nodes, edges, f, kept, ids, nodes', n);
    if n !in ids.Values {
      InScopeIffReached(nodes, edges, f, kept, ids, nodes', n);
    } else {
      OwnRowNotLeftStale(nodes, edges, f, kept, ids, nodes', n);
    }
  }

  lemma OwnRowNotLeftStale(nodes: Nodes, edges: Edges, f: File, kept: map<Name, Id>, ids: map<Name, Id>,
                           nodes': Nodes, n: Id)
    requires RowsReplaced(nodes, edges, f, kept, ids, nodes') && n in ids.Values
    ensures !LeftStale(nodes, edges, f, kept, n)
  {
    if n in nodes && nodes[n].path != f.path {
      OutsideRowStays(nodes, edges, f, kept, ids, nodes', n);
    }
  }
}
