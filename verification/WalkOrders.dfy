/**
 * A walk into an empty repository can take the files in any order: whatever the order, there are
 * row ids and lists that make it a history of the store.
 */
module WalkOrders {
  import opened Wrappers
  import opened CodeGraph
  import opened CallArrays
  import opened FileRewrite
  import opened CallScope
  import opened GraphStates
  import opened StoreRuns
  import opened CallCounts

  // ---- One insertion ----

  lemma IdsBounded(ids: set<Id>) returns (bound: Id)
    ensures forall id :: id in ids ==> id < bound
  {
    if ids == {} {
      bound := 0;
    } else {
      var id :| id in ids;
      var rest := IdsBounded(ids - {id});
      assert forall i :: i in ids ==> i == id || i in ids - {id};
      bound := if id < rest then rest else id + 1;
    }
  }

  lemma ListExists<T(!new)>(s: set<T>) returns (l: seq<T>)
    ensures ListsOnce(l, s)
  {
    if s == {} {
      l := [];
    } else {
      var x :| x in s;
      var rest := ListExists(s - {x});
      l := [x] + rest;
    }
  }

  ghost function IndexOf(f: File, q: Name): (i: nat)
    requires q in Names(f)
    ensures i < |f.nodes| && f.nodes[i].qn == q
  {
    var i: nat :| i < |f.nodes| && f.nodes[i].qn == q;
    i
  }

  ghost function NewIds(f: File, kept: map<Name, Id>, bound: Id): map<Name, Id> {
    map q | q in Names(f) :: if q in kept then kept[q] else bound + IndexOf(f, q)
  }

  ghost function NodeOf(f: File, ids: map<Name, Id>, id: Id): (x: XNode)
    requires ids.Keys <= Names(f) && id in ids.Values
    ensures x in f.nodes && x.qn in ids && ids[x.qn] == id
  {
    var q :| q in ids && ids[q] == id;
    f.nodes[IndexOf(f, q)]
  }

  ghost function RowsWith(nodes: Nodes, f: File, kept: map<Name, Id>, ids: map<Name, Id>): Nodes
    requires ids.Keys <= Names(f)
  {
    map id | id in (nodes.Keys - Doomed(nodes, f, kept)) + ids.Values ::
      if id in ids.Values then RowOf(f, NodeOf(f, ids, id)) else nodes[id]
  }

  /** A file that can replace the stored one: no row of another file has one of its names. */
  ghost predicate Storable(nodes: Nodes, f: File, kept: map<Name, Id>) {
    && HasModule(f) && DistinctNames(f) && Matching(nodes, f, kept)
    && forall id :: id in nodes && nodes[id].path != f.path ==> nodes[id].qn !in Names(f)
  }

  lemma NewIdsAssigned(nodes: Nodes, f: File, kept: map<Name, Id>, bound: Id)
    requires Matching(nodes, f, kept) && forall id :: id in nodes ==> id < bound
    ensures Assigned(nodes, f, kept, NewIds(f, kept, bound))
  {
    forall q | q in kept
      ensures kept[q] < bound
    {
      assert kept[q] in kept.Values;
    }
  }

  lemma NodeOfName(nodes: Nodes, f: File, kept: map<Name, Id>, ids: map<Name, Id>, x: XNode)
    requires DistinctNames(f) && Assigned(nodes, f, kept, ids) && x in f.nodes && x.qn in ids
    ensures ids[x.qn] in ids.Values && NodeOf(f, ids, ids[x.qn]) == x
  {
    hide NodeOf;
    var y := NodeOf(f, ids, ids[x.qn]);
    assert y.qn == x.qn;
  }

  lemma RowsWithRewritten(nodes: Nodes, f: File, kept: map<Name, Id>, ids: map<Name, Id>)
    requires DistinctNames(f) && Assigned(nodes, f, kept, ids)
    ensures NodesRewritten(nodes, f, kept, ids, RowsWith(nodes, f, kept, ids))
  {
    hide NodeOf, Doomed, DistinctNames, Assigned;
    AssignedKeys(nodes, f, kept, ids);
    forall x | x in f.nodes && x.qn in ids
      ensures ids[x.qn] in ids.Values && NodeOf(f, ids, ids[x.qn]) == x
    {
      NodeOfName(nodes, f, kept, ids, x);
    }
  }

  lemma NewNamesUnique(nodes: Nodes, f: File, kept: map<Name, Id>, ids: map<Name, Id>)
    requires Storable(nodes, f, kept) && NamesUnique(nodes) && Assigned(nodes, f, kept, ids)
    ensures NamesUnique(RowsWith(nodes, f, kept, ids))
  {
    var nodes' := RowsWith(nodes, f, kept, ids);
    forall id | id in nodes'
      ensures id in ids.Values ==> nodes'[id].qn in Names(f) && nodes'[id].qn in ids && ids[nodes'[id].qn] == id
      ensures id !in ids.Values ==> id in nodes && nodes'[id] == nodes[id] && nodes'[id].qn !in Names(f)
    {
      if id in ids.Values {
        var x := NodeOf(f, ids, id);
        assert nodes'[id] == RowOf(f, x);
      } else if id in kept.Values {
        KeptAreIds(kept, ids, nodes, f, id);
      }
    }
  }

  // ---- Lists that a rebuild may leave ----

  ghost function NewList(before: seq<Id>, found: set<Id>, n: Id, given: set<Id>, touched: set<Id>, peers: set<Id>,
                         dropped: set<Id>): (after: seq<Id>)
    ensures Relisted(before, after, found, n, given, touched, peers, dropped)
  {
    SomeList(found);
    var l :| ListsOnce(l, found);
    if n in given && n in peers then Swapped(before, touched + dropped, l)
    else if n in given && n in touched then l
    else before
  }

  lemma SomeList(s: set<Id>)
    ensures exists l: seq<Id> :: ListsOnce(l, s)
  {
    var l := ListExists(s);
  }

  lemma RebuildExists(callees: Lists, callers: Lists, pairs: set<Pair>, given: set<Id>, touched: set<Id>,
                      peers: set<Id>, dropped: set<Id>) returns (callees': Lists, callers': Lists)
    ensures Rebuilt(callees, callers, callees', callers', pairs, given, touched, peers, dropped)
  {
    hide Relisted;
    var found := Between(Swept(pairs, touched), given);
    callees' := map n | n in callees :: NewList(callees[n], CalleesOf(found, n), n, given, touched, peers, dropped);
    callers' := map n | n in callers :: NewList(callers[n], CallersOf(found, n), n, given, touched, peers, dropped);
  }

  lemma StorableMeans(nodes: Nodes, f: File, kept: map<Name, Id>)
    requires Storable(nodes, f, kept)
    ensures HasModule(f) && DistinctNames(f) && Matching(nodes, f, kept)
  {
  }

  /** Any good store can take in a file, reusing rows of the one it replaces. */
  lemma CanPersist(s: Store, f: File, kept: map<Name, Id>, r: Reading) returns (ids: map<Name, Id>, t: Store)
    requires Good(s) && Storable(s.db.nodes, f, kept)
    ensures StepTo(s, Persist(f, kept, ids), t, r) && t.files == s.files[f.path := f]
  {
    hide Storable, Matching, Assigned, NodesRewritten, NewIds, RowsWith, NamesBoundRight, ListsExactOutside,
         OwedAfterPersist;
    hide HasModule, DistinctNames, EdgesRepresent, RowsRepresent, Rebuilt, ScopeOf, EdgeStages, FilesHaveModules;
    var db := s.db;
    StorableMeans(db.nodes, f, kept);
    var bound := IdsBounded(db.nodes.Keys);
    NewIdsAssigned(db.nodes, f, kept, bound);
    ids := NewIds(f, kept, bound);
    AssignedKeys(db.nodes, f, kept, ids);
    var nodes' := RowsWith(db.nodes, f, kept, ids);
    RowsWithRewritten(db.nodes, f, kept, ids);
    NewNamesUnique(db.nodes, f, kept, ids);
    var edges' := EdgeStages(db.nodes, db.edges, f, kept, ids, nodes').final;
    var sc := ScopeOf(db.nodes, db.edges, f, kept, ids, nodes', r.collection);
    var rows := nodes'.Keys;
    var callees', callers' := RebuildExists(WithRows(db.callees, rows), WithRows(db.callers, rows), CallPairs(edges'),
                                            rows, sc.rebuilt, sc.peers, sc.dropped);
    var owed := OwedAfterPersist(db, f, kept, ids, r.collection, s.owed);
    t := Store(Db(nodes', edges', callees', callers'), s.due, owed, s.files[f.path := f]);
  }

  lemma AssignedKeys(nodes: Nodes, f: File, kept: map<Name, Id>, ids: map<Name, Id>)
    requires Assigned(nodes, f, kept, ids)
    ensures ids.Keys == Names(f)
  {
  }

  /** A step that keeps each row under its name misleads no edge. */
  lemma KeepingMisleadsNone(s: Store, f: File, kept: map<Name, Id>, ids: map<Name, Id>)
    requires Good(s) && forall q :: q in kept ==> kept[q] in s.db.nodes && s.db.nodes[kept[q]].qn == q
    ensures MisleadsNone(s, Persist(f, kept, ids))
  {
    hide RowsRepresent, EdgesRepresent, FilesHaveModules, ListsExactOutside;
    forall k, q | k in s.db.edges && !k.etype.Inherits? && q in kept && s.db.edges[k] == Some(kept[q])
      ensures q == k.target
    {
      assert BoundRight(s.db.nodes, s.db.edges, k);
    }
  }

  /** A file the store does not hold, and whose names no row has. */
  ghost predicate Fresh(nodes: Nodes, f: File) {
    Storable(nodes, f, map[]) && FileRows(nodes, f.path) == {}
  }

  lemma CanInsert(s: Store, f: File, r: Reading) returns (op: Op, t: Store)
    requires Good(s) && Fresh(s.db.nodes, f)
    ensures op.Persist? && op.f == f && StepTo(s, op, t, r) && MisleadsNone(s, op)
  {
    hide Good, StepTo, MisleadsNone, Storable;
    var ids, t' := CanPersist(s, f, map[], r);
    t := t';
    op := Persist(f, map[], ids);
    KeepingMisleadsNone(s, f, map[], ids);
  }

  // ---- A walk ----

  /** What the tree of a repository may hold: files as extracted, with no name defined twice. */
  ghost predicate Extracted(files: map<Path, File>) {
    && Keyed(files) && FilesHaveModules(files) && (forall p :: p in files ==> DistinctNames(files[p]))
    && forall p, q :: p in files && q in files && p != q ==> Names(files[p]) !! Names(files[q])
  }

  function Prefix(files: map<Path, File>, order: seq<Path>, n: nat): map<Path, File>
    requires n <= |order|
  {
    map p | p in files && p in order[..n] :: files[p]
  }

  lemma PrefixGrows(files: map<Path, File>, order: seq<Path>, n: nat)
    requires n < |order| && order[n] in files
    ensures Prefix(files, order, n + 1) == Prefix(files, order, n)[order[n] := files[order[n]]]
  {
    assert order[..n + 1] == order[..n] + [order[n]];
  }

  lemma FreshInStore(s: Store, files: map<Path, File>, order: seq<Path>, n: nat)
    requires Good(s) && Extracted(files) && n < |order| && order[n] in files && NoDuplicates(order)
    requires s.files == Prefix(files, order, n)
    ensures Fresh(s.db.nodes, files[order[n]]) && files[order[n]].path == order[n]
  {
    hide Consistent, EdgesRepresent, HasModule, DistinctNames;
    var f := files[order[n]];
    assert HasModule(f) && DistinctNames(f) && order[n] !in order[..n];
    forall id | id in s.db.nodes
      ensures s.db.nodes[id].path != f.path && s.db.nodes[id].qn !in Names(f)
    {
      RowHasName(s.db.nodes, s.files, id);
    }
  }

  ghost predicate WalksInOrder(states: seq<Store>, ops: seq<Op>, r: Reading, files: map<Path, File>, order: seq<Path>) {
    && FreshWalk(states, ops, r) && |states| == |ops| + 1 && |ops| <= |order|
    && (forall i :: 0 <= i < |ops| ==> order[i] in files && ops[i].Persist? && ops[i].f == files[order[i]])
    && (forall i :: 0 <= i <= |ops| ==> states[i].files == Prefix(files, order, i))
  }

  lemma {:induction false} WalkExists(files: map<Path, File>, order: seq<Path>, r: Reading, n: nat)
    returns (states: seq<Store>, ops: seq<Op>)
    requires Extracted(files) && n <= |order| && NoDuplicates(order) && forall p :: p in order ==> p in files
    ensures WalksInOrder(states, ops, r, files, order) && |ops| == n
  {
    if n == 0 {
      states, ops := [EMPTY], [];
      assert Prefix(files, order, 0) == map[];
    } else {
      states, ops := WalkExists(files, order, r, n - 1);
      states, ops := WalkExtends(files, order, r, states, ops);
    }
  }

  lemma HistoryExtends(states: seq<Store>, ops: seq<Op>, r: Reading, op: Op, t: Store)
    requires FreshWalk(states, ops, r) && |states| == |ops| + 1
    requires StepTo(states[|ops|], op, t, r) && MisleadsNone(states[|ops|], op)
    requires op.Persist? && FileRows(states[|ops|].db.nodes, op.f.path) == {}
    ensures FreshWalk(states + [t], ops + [op], r)
  {
    hide StepTo, MisleadsNone, FileRows;
    var states', ops' := states + [t], ops + [op];
    forall i | 0 <= i < |ops'|
      ensures StepTo(states'[i], ops'[i], states'[i + 1], r) && MisleadsNone(states'[i], ops'[i])
      ensures ops'[i].SkipFile? || (ops'[i].Persist? && FileRows(states'[i].db.nodes, ops'[i].f.path) == {})
    {
      if i < |ops| {
        assert states'[i + 1] == states[i + 1] && states'[i] == states[i] && ops'[i] == ops[i];
      }
    }
  }

  lemma WalkExtends(files: map<Path, File>, order: seq<Path>, r: Reading, states: seq<Store>, ops: seq<Op>)
    returns (states': seq<Store>, ops': seq<Op>)
    requires Extracted(files) && NoDuplicates(order) && (forall p :: p in order ==> p in files) && |ops| < |order|
    requires WalksInOrder(states, ops, r, files, order)
    ensures WalksInOrder(states', ops', r, files, order) && |ops'| == |ops| + 1
  {
    hide Extracted, Good, MisleadsNone, NoDuplicates, Prefix, Persisted, FreshWalk, HasModule, DistinctNames;
    var n := |ops|;
    WalkIsHistory(states, ops, r);
    HistoryGood(states, ops, r, n);
    FreshInStore(states[n], files, order, n);
    var op, t := CanInsert(states[n], files[order[n]], r);
    PrefixGrows(files, order, n);
    HistoryExtends(states, ops, r, op, t);
    states', ops' := states + [t], ops + [op];
    assert t.files == Prefix(files, order, n + 1);
  }

  lemma WalkIsHistory(states: seq<Store>, ops: seq<Op>, r: Reading)
    requires FreshWalk(states, ops, r)
    ensures History(states, ops, r)
  {
  }
}
