/**
 * Whole states of the graph store and the operations that ingest strings together:
 * replacing a file, deleting a file, the refresh after deletions, and pruning.
 */
module GraphStates {
  import opened CodeGraph
  import opened CallArrays
  import opened FileRewrite
  import opened CallScope

  datatype Db = Db(nodes: Nodes, edges: Edges, callees: Lists, callers: Lists)

  const EMPTY_DB := Db(map[], map[], map[], map[])

  ghost predicate ListsExact(db: Db, n: Id) {
    ExactAt(db.callees, db.callers, CallPairs(db.edges), n)
  }

  ghost predicate ListsExactOutside(db: Db, stale: set<Id>) {
    forall n :: n in db.nodes && n !in stale ==> ListsExact(db, n)
  }

  /** Names are unique, references resolve, calls are bound right, and lists are exact save at `stale` nodes. */
  ghost predicate Consistent(db: Db, stale: set<Id>) {
    && NamesUnique(db.nodes) && References(db.nodes, db.edges) && NamesBoundRight(db.nodes, db.edges)
    && db.callees.Keys == db.callers.Keys == db.nodes.Keys
    && ListsExactOutside(db, stale)
  }

  // ---- Replacing a file ----

  /** The lists once the new rows are there, with the column default. */
  function WithRows(lists: Lists, rows: set<Id>): Lists {
    map n | n in rows :: if n in lists then lists[n] else []
  }

  ghost predicate Persisted(db: Db, f: File, kept: map<Name, Id>, ids: map<Name, Id>, c: Collection, db': Db) {
    && DistinctNames(f) && Matching(db.nodes, f, kept) && Assigned(db.nodes, f, kept, ids)
    && NodesRewritten(db.nodes, f, kept, ids, db'.nodes) && NamesUnique(db'.nodes)
    && db'.edges == EdgeStages(db.nodes, db.edges, f, kept, ids, db'.nodes).final
    && var sc := ScopeOf(db.nodes, db.edges, f, kept, ids, db'.nodes, c);
       Rebuilt(WithRows(db.callees, db'.nodes.Keys), WithRows(db.callers, db'.nodes.Keys), db'.callees, db'.callers,
               CallPairs(db'.edges), db'.nodes.Keys, sc.rebuilt, sc.peers, sc.dropped)
  }

  /** No row whose lists were exact is left naming a deleted row. */
  ghost predicate LeavesNoneStale(db: Db, f: File, kept: map<Name, Id>, stale: set<Id>, c: Collection) {
    c.WithDoomedTargets? || forall n :: n in db.nodes && n !in stale ==> !LeftStale(db.nodes, db.edges, f, kept, n)
  }

  lemma NewRowsExact(db: Db, rows: set<Id>, n: Id)
    requires References(db.nodes, db.edges) && db.callees.Keys == db.callers.Keys == db.nodes.Keys
    requires n in rows && (n in db.nodes ==> ListsExact(db, n))
    ensures ExactAt(WithRows(db.callees, rows), WithRows(db.callers, rows), CallPairs(db.edges), n)
  {
    if n !in db.nodes {
      assert CalleesOf(CallPairs(db.edges), n) == {};
      assert CallersOf(CallPairs(db.edges), n) == {};
    }
  }

  lemma PersistedLists(db: Db, f: File, kept: map<Name, Id>, ids: map<Name, Id>, c: Collection, db': Db,
                       stale: set<Id>, n: Id)
    requires Consistent(db, stale) && Persisted(db, f, kept, ids, c, db') && n in db'.nodes && n !in stale
    ensures ListsExact(db', n) <==> c.WithDoomedTargets? || !LeftStale(db.nodes, db.edges, f, kept, n)
  {
    hide LeftStale, Rebuilt, NamesBoundRight, NodesRewritten, Assigned;
    var rows := db'.nodes.Keys;
    NewRowsExact(db, rows, n);
    ListsExactIff(db.nodes, db.edges, f, kept, ids, db'.nodes, c,
                  WithRows(db.callees, rows), WithRows(db.callers, rows), db'.callees, db'.callers, n);
  }

  lemma PersistListsIff(db: Db, f: File, kept: map<Name, Id>, ids: map<Name, Id>, c: Collection, db': Db,
                        stale: set<Id>)
    requires Consistent(db, stale) && Persisted(db, f, kept, ids, c, db')
    ensures ListsExactOutside(db', stale) <==> LeavesNoneStale(db, f, kept, stale, c)
  {
    hide Consistent, Persisted, LeftStale, ListsExact;
    forall n | n in db'.nodes && n !in stale
      ensures ListsExact(db', n) <==> c.WithDoomedTargets? || !LeftStale(db.nodes, db.edges, f, kept, n)
    {
      PersistedLists(db, f, kept, ids, c, db', stale, n);
    }
    forall n | LeftStale(db.nodes, db.edges, f, kept, n)
      ensures n in db.nodes && n in db'.nodes
    {
      LeftStaleStays(db, f, kept, ids, c, db', stale, n);
    }
  }

  lemma LeftStaleStays(db: Db, f: File, kept: map<Name, Id>, ids: map<Name, Id>, c: Collection, db': Db, stale: set<Id>,
                       n: Id)
    requires Consistent(db, stale) && Persisted(db, f, kept, ids, c, db') && LeftStale(db.nodes, db.edges, f, kept, n)
    ensures n in db.nodes && n in db'.nodes
  {
    hide Rebuilt, NamesBoundRight, NodesRewritten, Assigned, ListsExactOutside, Reached, CalledByDoomed;
    OutsideRowStays(db.nodes, db.edges, f, kept, ids, db'.nodes, n);
  }

  /**
   * Replacing a file takes a consistent store to a consistent store exactly when no row that
   * edges elsewhere are bound to was kept under a new name, and no surviving callee of a deleted
   * row is left stale.
   */
  lemma PersistConsistentIff(db: Db, f: File, kept: map<Name, Id>, ids: map<Name, Id>, c: Collection, db': Db,
                             stale: set<Id>)
    requires Consistent(db, stale) && Persisted(db, f, kept, ids, c, db')
    ensures Consistent(db', stale)
            <==> RenameSafe(db.nodes, db.edges, f, kept) && LeavesNoneStale(db, f, kept, stale, c)
  {
    hide LeavesNoneStale, RenameSafe, ListsExactOutside, NodesRewritten, Assigned;
    BindingExactIff(db.nodes, db.edges, f, kept, ids, db'.nodes);
    FinalReferences(db.nodes, db.edges, f, kept, ids, db'.nodes);
    PersistListsIff(db, f, kept, ids, c, db', stale);
  }

  /**
   * The rows whose lists may be inexact after the call, given those before: the file's own rows are
   * exact again, and the rows it leaves stale are not.
   */
  ghost function OwedAfterPersist(db: Db, f: File, kept: map<Name, Id>, ids: map<Name, Id>, c: Collection,
                                  owed: set<Id>): set<Id> {
    (owed - ids.Values)
    + if c.WithDoomedTargets? then {} else set n | n in db.nodes && LeftStale(db.nodes, db.edges, f, kept, n)
  }

  lemma OwnRowExact(db: Db, f: File, kept: map<Name, Id>, ids: map<Name, Id>, c: Collection, db': Db, n: Id)
    requires NamesUnique(db.nodes) && References(db.nodes, db.edges) && NamesBoundRight(db.nodes, db.edges)
    requires db.callees.Keys == db.callers.Keys == db.nodes.Keys
    requires Persisted(db, f, kept, ids, c, db') && n in ids.Values && n in db'.nodes
    ensures ListsExact(db', n)
  {
    hide Rebuilt, NamesBoundRight, NodesRewritten, Assigned, ExactAt;
    var sc := ScopeOf(db.nodes, db.edges, f, kept, ids, db'.nodes, c);
    FinalReferences(db.nodes, db.edges, f, kept, ids, db'.nodes);
    TouchedIsExact(WithRows(db.callees, db'.nodes.Keys), WithRows(db.callers, db'.nodes.Keys), db'.callees, db'.callers,
                   CallPairs(db'.edges), db'.nodes.Keys, sc.rebuilt, sc.peers, sc.dropped, n);
  }

  lemma PersistedRow(db: Db, f: File, kept: map<Name, Id>, ids: map<Name, Id>, c: Collection, db': Db, owed: set<Id>,
                     n: Id)
    requires Consistent(db, owed) && Persisted(db, f, kept, ids, c, db') && n in db'.nodes
    ensures n !in owed ==> (ListsExact(db', n) <==> n !in OwedAfterPersist(db, f, kept, ids, c, owed))
    ensures n !in OwedAfterPersist(db, f, kept, ids, c, owed) ==> ListsExact(db', n)
  {
    hide Persisted, LeftStale, ListsExact, ListsExactOutside;
    StaleIsRow(db, f, kept, n);
    if n in ids.Values {
      OwnRowExact(db, f, kept, ids, c, db', n);
    }
    if n !in owed {
      PersistedLists(db, f, kept, ids, c, db', owed, n);
    }
  }

  lemma PersistedKeys(db: Db, f: File, kept: map<Name, Id>, ids: map<Name, Id>, c: Collection, db': Db)
    requires Persisted(db, f, kept, ids, c, db')
    ensures db'.callees.Keys == db'.callers.Keys == db'.nodes.Keys && NamesUnique(db'.nodes)
  {
    hide Relisted, ScopeOf;
  }

  /**
   * Whatever lists were exact before, after a call that misleads no edge they are exact but for the
   * rows it owes; and a row that it newly owes is inexact.
   */
  lemma PersistOwes(db: Db, f: File, kept: map<Name, Id>, ids: map<Name, Id>, c: Collection, db': Db, owed: set<Id>)
    requires Consistent(db, owed) && Persisted(db, f, kept, ids, c, db') && RenameSafe(db.nodes, db.edges, f, kept)
    ensures Consistent(db', OwedAfterPersist(db, f, kept, ids, c, owed))
    ensures forall n :: n in OwedAfterPersist(db, f, kept, ids, c, owed) - owed && n in db'.nodes ==>
              !ListsExact(db', n)
  {
    hide RenameSafe, OwedAfterPersist, ListsExact, NodesRewritten, Assigned, Rebuilt;
    BindingExactIff(db.nodes, db.edges, f, kept, ids, db'.nodes);
    FinalReferences(db.nodes, db.edges, f, kept, ids, db'.nodes);
    PersistedKeys(db, f, kept, ids, c, db');
    forall n | n in db'.nodes
      ensures n !in owed ==> (ListsExact(db', n) <==> n !in OwedAfterPersist(db, f, kept, ids, c, owed))
      ensures n !in OwedAfterPersist(db, f, kept, ids, c, owed) ==> ListsExact(db', n)
    {
      PersistedRow(db, f, kept, ids, c, db', owed, n);
    }
  }

  lemma StaleIsRow(db: Db, f: File, kept: map<Name, Id>, n: Id)
    ensures LeftStale(db.nodes, db.edges, f, kept, n) ==> n in db.nodes
  {
  }

  // ---- Deleting rows ----

  function Minus(lists: Lists, gone: set<Id>): Lists {
    map n | n in lists && n !in gone :: lists[n]
  }

  /** The rows, with the edges they are sources of; edges to them are unbound. */
  function Deleted(db: Db, gone: set<Id>): Db {
    Db(map id | id in db.nodes && id !in gone :: db.nodes[id], Cut(db.edges, gone),
       Minus(db.callees, gone), Minus(db.callers, gone))
  }

  /** `_collect_delete_peer_ids`: survivors that an edge joins to the rows about to go. */
  function DeletePeers(edges: Edges, gone: set<Id>): set<Id> {
    var inbound := set k | k in edges && edges[k].Some? && edges[k].value in gone;
    (Targets(edges, KeysFrom(edges, gone)) + Sources(inbound)) - gone
  }

  lemma DeletedEdgeBoundRight(db: Db, gone: set<Id>, k: EdgeKey)
    requires NamesUnique(db.nodes) && References(db.nodes, db.edges)
    requires k in db.edges && k.source !in gone && BoundRight(db.nodes, db.edges, k)
    ensures k in Deleted(db, gone).edges && BoundRight(Deleted(db, gone).nodes, Deleted(db, gone).edges, k)
  {
    var db' := Deleted(db, gone);
    if db'.edges[k].None? {
      forall id | id in db'.nodes
        ensures !Named(db'.nodes, k.target, id)
      {
        if db.edges[k].None? {
          assert !Named(db.nodes, k.target, id);
        }
      }
    }
  }

  lemma DeletedEdgesBoundRight(db: Db, gone: set<Id>)
    requires NamesUnique(db.nodes) && References(db.nodes, db.edges) && NamesBoundRight(db.nodes, db.edges)
    ensures NamesBoundRight(Deleted(db, gone).nodes, Deleted(db, gone).edges)
  {
    var db' := Deleted(db, gone);
    forall k | k in db'.edges && !k.etype.Inherits?
      ensures BoundRight(db'.nodes, db'.edges, k)
    {
      DeletedEdgeBoundRight(db, gone, k);
    }
  }

  lemma SurvivingPair(db: Db, gone: set<Id>, p: Pair)
    ensures p in CallPairs(Deleted(db, gone).edges)
            <==> p in CallPairs(db.edges) && p.0 !in gone && p.1 !in gone
  {
    var cut := Cut(db.edges, gone);
    if p in CallPairs(cut) {
      var k := PairHasKey(cut, p);
      CallPairIn(db.edges, k);
    }
    if p in CallPairs(db.edges) && p.0 !in gone && p.1 !in gone {
      var k := PairHasKey(db.edges, p);
      CallPairIn(cut, k);
    }
  }

  lemma PairAwayFromPeers(db: Db, gone: set<Id>, p: Pair, n: Id)
    requires n !in gone && n !in DeletePeers(db.edges, gone) && (p.0 == n || p.1 == n)
    ensures p in CallPairs(db.edges) <==> p in CallPairs(Deleted(db, gone).edges)
  {
    SurvivingPair(db, gone, p);
    if p in CallPairs(db.edges) {
      var k := PairHasKey(db.edges, p);
      assert p.0 in gone ==> k in KeysFrom(db.edges, gone);
    }
  }

  lemma DeleteKeepsLists(db: Db, gone: set<Id>, n: Id)
    requires ListsExact(db, n) && n !in gone && n !in DeletePeers(db.edges, gone)
    ensures ListsExact(Deleted(db, gone), n)
  {
    var before, after := CallPairs(db.edges), CallPairs(Deleted(db, gone).edges);
    forall p: Pair | p.0 == n || p.1 == n
      ensures !Changed(before, after, p)
    {
      PairAwayFromPeers(db, gone, p, n);
    }
    UntouchedExactIff(db.callees, db.callers, before, after, n);
  }

  /** After a deletion only the collected peers can have inexact lists. */
  lemma DeleteConsistent(db: Db, gone: set<Id>, stale: set<Id>)
    requires Consistent(db, stale)
    ensures Consistent(Deleted(db, gone), stale + DeletePeers(db.edges, gone))
  {
    var db' := Deleted(db, gone);
    DeletedEdgesBoundRight(db, gone);
    forall n | n in db'.nodes && n !in stale + DeletePeers(db.edges, gone)
      ensures ListsExact(db', n)
    {
      assert ListsExact(db, n);
      DeleteKeepsLists(db, gone, n);
    }
  }

  // ---- The refresh after deletions ----

  /** `given` are the rows the refresh loads: all of them as intended, the touched ones as written. */
  ghost predicate Refreshed(db: Db, touched: set<Id>, given: set<Id>, db': Db) {
    && db'.nodes == db.nodes && db'.edges == db.edges
    && if touched == {} then db' == db
       else Rebuilt(db.callees, db.callers, db'.callees, db'.callers, CallPairs(db.edges), given, touched, {}, {})
  }

  /** Loading every row, the refresh repairs all that the deletions left stale. */
  lemma RefreshConsistent(db: Db, stale: set<Id>, db': Db)
    requires Consistent(db, stale) && Refreshed(db, stale, db.nodes.Keys, db')
    ensures Consistent(db', {})
  {
    if stale != {} {
      forall n | n in db'.nodes
        ensures ListsExact(db', n)
      {
        if n in stale {
          TouchedIsExact(db.callees, db.callers, db'.callees, db'.callers, CallPairs(db.edges), db.nodes.Keys,
                         stale, {}, {}, n);
        } else {
          assert ListsExact(db, n);
        }
      }
    }
  }

  /** Loading the touched rows only, it does so exactly when calls never leave the touched set. */
  lemma RefreshAsWrittenConsistentIff(db: Db, stale: set<Id>, db': Db)
    requires Consistent(db, stale) && Refreshed(db, stale, stale * db.nodes.Keys, db')
    ensures Consistent(db', {})
            <==> forall n :: n in stale && n in db.nodes ==>
                   CalleesOf(CallPairs(db.edges), n) <= stale && CallersOf(CallPairs(db.edges), n) <= stale
  {
    if stale != {} {
      forall n | n in db'.nodes
        ensures n in stale ==> (ListsExact(db', n) <==> CalleesOf(CallPairs(db.edges), n) <= stale
                                                        && CallersOf(CallPairs(db.edges), n) <= stale)
        ensures n !in stale ==> ListsExact(db', n)
      {
        if n in stale {
          RefreshOfLoadedRowsExactIff(db.callees, db.callers, db'.callees, db'.callers, CallPairs(db.edges),
                                      db.nodes.Keys, stale, n);
        } else {
          assert ListsExact(db, n);
        }
      }
    }
  }

  /** A call joins the row to one that is not among the touched. */
  ghost predicate CallLeaves(db: Db, touched: set<Id>, n: Id) {
    !(CalleesOf(CallPairs(db.edges), n) <= touched && CallersOf(CallPairs(db.edges), n) <= touched)
  }

  /** The rows whose lists may be inexact after the refresh, given those before. */
  ghost function OwedAfterRefresh(db: Db, touched: set<Id>, loadsAll: bool, owed: set<Id>): set<Id> {
    (owed - touched) + if loadsAll then {} else set n | n in db.nodes && n in touched && CallLeaves(db, touched, n)
  }

  /** The refresh repairs the rows it touches; as written, those that no call leaves, and it spoils the others. */
  lemma RefreshOwes(db: Db, touched: set<Id>, loadsAll: bool, owed: set<Id>, db': Db)
    requires Consistent(db, owed)
    requires Refreshed(db, touched, if loadsAll then db.nodes.Keys else touched * db.nodes.Keys, db')
    ensures Consistent(db', OwedAfterRefresh(db, touched, loadsAll, owed))
    ensures !loadsAll ==>
              forall n :: n in db.nodes && n in touched && CallLeaves(db, touched, n) ==> !ListsExact(db', n)
  {
    hide ExactAt, Relisted;
    if touched != {} {
      forall n | n in db'.nodes
        ensures n in touched ==> (ListsExact(db', n) <==> loadsAll || !CallLeaves(db, touched, n))
        ensures n !in touched && n !in owed ==> ListsExact(db', n)
      {
        RefreshedRow(db, touched, loadsAll, owed, db', n);
      }
    }
  }

  lemma RefreshedRow(db: Db, touched: set<Id>, loadsAll: bool, owed: set<Id>, db': Db, n: Id)
    requires Consistent(db, owed) && touched != {} && n in db.nodes
    requires Refreshed(db, touched, if loadsAll then db.nodes.Keys else touched * db.nodes.Keys, db')
    ensures n in touched ==> (ListsExact(db', n) <==> loadsAll || !CallLeaves(db, touched, n))
    ensures n !in touched && n !in owed ==> ListsExact(db', n)
  {
    if n in touched {
      if loadsAll {
        TouchedIsExact(db.callees, db.callers, db'.callees, db'.callers, CallPairs(db.edges), db.nodes.Keys,
                       touched, {}, {}, n);
      } else {
        RefreshOfLoadedRowsExactIff(db.callees, db.callers, db'.callees, db'.callers, CallPairs(db.edges),
                                    db.nodes.Keys, touched, n);
      }
    } else if n !in owed {
      assert ListsExact(db, n);
    }
  }

  // ---- Pruning and the full rebuild ----

  function PrunedRows(nodes: Nodes, present: set<Path>): set<Id> {
    set id | id in nodes && nodes[id].path !in present
  }

  ghost predicate RebuiltAll(db: Db, db': Db) {
    && db'.nodes == db.nodes && db'.edges == db.edges
    && db'.callees.Keys == db.callees.Keys && db'.callers.Keys == db.callers.Keys
    && ArraysExact(db'.callees, db'.callers, Between(CallPairs(db.edges), db.nodes.Keys), db.nodes.Keys)
  }

  /** Pruning unbinds and forgets; the full rebuild that follows restores every list. */
  lemma PruneConsistent(db: Db, stale: set<Id>, present: set<Path>, db': Db)
    requires Consistent(db, stale) && RebuiltAll(Deleted(db, PrunedRows(db.nodes, present)), db')
    ensures Consistent(db', {})
    ensures forall id :: id in db'.nodes <==> id in db.nodes && db.nodes[id].path in present
  {
    var pruned := Deleted(db, PrunedRows(db.nodes, present));
    DeleteConsistent(db, PrunedRows(db.nodes, present), stale);
    assert Between(CallPairs(pruned.edges), pruned.nodes.Keys) == CallPairs(pruned.edges);
  }

  /** The paths that `_load_module_state` finds: those of the module rows. */
  function ModulePaths(nodes: Nodes): set<Path> {
    set id | id in nodes && nodes[id].kind.Module? :: nodes[id].path
  }

  /** A full walk up to its first commit: prune, and rebuild unless exactly the indexed files are present. */
  ghost predicate WalkBegun(db: Db, present: set<Path>, db': Db) {
    var pruned := Deleted(db, PrunedRows(db.nodes, present));
    if present != ModulePaths(db.nodes) then RebuiltAll(pruned, db') else db' == pruned
  }

  /** The rows whose lists may be inexact at the first commit of a walk, given those before. */
  ghost function OwedAfterBegin(nodes: Nodes, present: set<Path>, owed: set<Id>): set<Id> {
    if present != ModulePaths(nodes) then {} else owed
  }

  /**
   * That first commit saves rows of the present files only, and a rebuild repairs every list: when it
   * is skipped nothing was pruned, since every row belongs to a file with a module row.
   */
  lemma FirstCommitConsistent(db: Db, present: set<Path>, owed: set<Id>, db': Db)
    requires Consistent(db, owed) && WalkBegun(db, present, db')
    requires forall id :: id in db.nodes ==> db.nodes[id].path in ModulePaths(db.nodes)
    ensures Consistent(db', OwedAfterBegin(db.nodes, present, owed))
    ensures forall id :: id in db'.nodes <==> id in db.nodes && db.nodes[id].path in present
  {
    hide Consistent, RebuiltAll;
    if present != ModulePaths(db.nodes) {
      PruneConsistent(db, owed, present, db');
    } else {
      assert PrunedRows(db.nodes, present) == {};
      assert owed + DeletePeers(db.edges, {}) == owed;
      DeleteConsistent(db, {}, owed);
    }
  }
}
