/**
 * The row half of `persist_graph` as tables: which existing rows the file's nodes keep, and
 * the node table and cache after each kept, dropped and inserted row
 * (backend/app/graph/builder.py:79-237).
 */
module RowReplacement {
  import opened Wrappers
  import opened CodeGraph
  import opened FileRewrite
  import opened CallScope
  import opened IngestCache

  ghost predicate DistinctKeys(f: File) {
    forall i, j :: 0 <= i < j < |f.nodes| && f.nodes[i].key != "" ==> f.nodes[i].key != f.nodes[j].key
  }

  function NamesUpTo(f: File, n: nat): set<Name>
    requires n <= |f.nodes|
  {
    set x | x in f.nodes[..n] :: x.qn
  }

  function Restricted(m: map<Name, Id>, names: set<Name>): map<Name, Id> {
    map q | q in m && q in names :: m[q]
  }

  function KeysUpTo(f: File, n: nat): set<string>
    requires n <= |f.nodes|
  {
    set x | x in f.nodes[..n] :: x.key
  }

  ghost predicate HasKey(nodes: Nodes, f: File, s: string) {
    s != "" && exists id :: id in FileRows(nodes, f.path) && nodes[id].key == s
  }

  /** A module row whose key the file no longer has. */
  ghost predicate IsOrphan(nodes: Nodes, f: File, id: Id) {
    id in FileRows(nodes, f.path) && nodes[id].kind.Module? && nodes[id].key !in KeysUpTo(f, |f.nodes|)
  }

  /** A module node that no row's key fits. */
  ghost predicate Homeless(nodes: Nodes, f: File, x: XNode) {
    x.kind.Module? && !HasKey(nodes, f, x.key)
  }

  /** A node keeps a row with its key if there is one; otherwise only an orphan module can become its row. */
  ghost predicate Reused(nodes: Nodes, f: File, kept: map<Name, Id>, x: XNode) {
    if HasKey(nodes, f, x.key) then x.qn in kept && kept[x.qn] in nodes && nodes[kept[x.qn]].key == x.key
    else x.qn in kept ==> x.kind.Module? && IsOrphan(nodes, f, kept[x.qn])
  }

  /** Every row that can be kept is: by key, and an orphan module by one of the homeless modules. */
  ghost predicate RowsReused(nodes: Nodes, f: File, kept: map<Name, Id>) {
    && (forall x :: x in f.nodes ==> Reused(nodes, f, kept, x))
    && ((exists id :: IsOrphan(nodes, f, id)) && (exists x :: x in f.nodes && Homeless(nodes, f, x)) ==>
          exists x :: x in f.nodes && Homeless(nodes, f, x) && x.qn in kept)
  }

  ghost predicate Available(nodes: Nodes, f: File, kept: map<Name, Id>, id: Id) {
    id in FileRows(nodes, f.path) && id !in kept.Values
  }

  /** The matching after `i` nodes: injective, into the file's rows, by key or as the orphan module. */
  ghost predicate MatchedUpTo(nodes: Nodes, f: File, kept: map<Name, Id>, i: nat)
    requires i <= |f.nodes|
  {
    && kept.Keys <= NamesUpTo(f, i) && Injective(kept) && kept.Values <= FileRows(nodes, f.path)
    && (forall id :: id in kept.Values ==>
          nodes[id].key in KeysUpTo(f, i) - {""} || nodes[id].key !in KeysUpTo(f, |f.nodes|))
    && (forall j :: 0 <= j < i ==> Reused(nodes, f, kept, f.nodes[j]))
  }

  /** `orphan` is still to be given away, or there was none, or a homeless module among the first `i` nodes has it. */
  ghost predicate OrphanUpTo(nodes: Nodes, f: File, kept: map<Name, Id>, i: nat, orphan: Option<Id>)
    requires i <= |f.nodes|
  {
    match orphan
    case Some(id) =>
      IsOrphan(nodes, f, id) && id !in kept.Values && forall j :: 0 <= j < i ==> !Homeless(nodes, f, f.nodes[j])
    case None =>
      (forall id :: !IsOrphan(nodes, f, id))
      || exists j :: 0 <= j < i && Homeless(nodes, f, f.nodes[j]) && f.nodes[j].qn in kept
  }

  lemma KeyedRowAvailable(nodes: Nodes, f: File, kept: map<Name, Id>, i: nat, id: Id)
    requires DistinctNames(f) && DistinctKeys(f) && i < |f.nodes| && MatchedUpTo(nodes, f, kept, i)
    requires id in FileRows(nodes, f.path) && nodes[id].key == f.nodes[i].key != ""
    ensures Available(nodes, f, kept, id) && HasKey(nodes, f, f.nodes[i].key)
    ensures Reused(nodes, f, map[f.nodes[i].qn := id], f.nodes[i])
  {
    NextNode(f, i);
  }

  lemma TakeRow(nodes: Nodes, f: File, kept: map<Name, Id>, i: nat, id: Id)
    requires DistinctNames(f) && DistinctKeys(f) && i < |f.nodes| && MatchedUpTo(nodes, f, kept, i)
    requires Available(nodes, f, kept, id) && Reused(nodes, f, map[f.nodes[i].qn := id], f.nodes[i])
    requires (nodes[id].key == f.nodes[i].key != "") || nodes[id].key !in KeysUpTo(f, |f.nodes|)
    ensures MatchedUpTo(nodes, f, kept[f.nodes[i].qn := id], i + 1)
  {
    hide Reused, DistinctNames, DistinctKeys;
    NextNode(f, i);
    ExtendMatching(kept, f.nodes[i].qn, id);
    TakenStaysReused(nodes, f, kept, i, id);
  }

  lemma ExtendMatching(kept: map<Name, Id>, q: Name, id: Id)
    requires Injective(kept) && q !in kept && id !in kept.Values
    ensures Injective(kept[q := id]) && kept[q := id].Values == kept.Values + {id}
  {
    assert forall p :: p in kept ==> kept[p] in kept.Values;
    assert forall p :: p in kept ==> kept[q := id][p] == kept[p];
    assert kept[q := id][q] == id;
  }

  lemma TakenStaysReused(nodes: Nodes, f: File, kept: map<Name, Id>, i: nat, id: Id)
    requires DistinctNames(f) && i < |f.nodes| && Reused(nodes, f, map[f.nodes[i].qn := id], f.nodes[i])
    requires forall j :: 0 <= j < i ==> Reused(nodes, f, kept, f.nodes[j])
    ensures forall j :: 0 <= j < i + 1 ==> Reused(nodes, f, kept[f.nodes[i].qn := id], f.nodes[j])
  {
    hide HasKey, IsOrphan;
    assert forall j :: 0 <= j < i ==> f.nodes[j].qn != f.nodes[i].qn;
  }

  lemma SkipNode(nodes: Nodes, f: File, kept: map<Name, Id>, i: nat)
    requires DistinctNames(f) && DistinctKeys(f) && i < |f.nodes| && MatchedUpTo(nodes, f, kept, i)
    requires !HasKey(nodes, f, f.nodes[i].key)
    ensures MatchedUpTo(nodes, f, kept, i + 1)
  {
    hide HasKey, DistinctNames, DistinctKeys;
    NextNode(f, i);
  }

  /** The orphan stays to be given away while no homeless module comes, and goes to the first that does. */
  lemma OrphanNext(nodes: Nodes, f: File, kept: map<Name, Id>, i: nat, orphan: Option<Id>, taken: Option<Id>)
    requires DistinctNames(f) && i < |f.nodes| && OrphanUpTo(nodes, f, kept, i, orphan)
             && MatchedUpTo(nodes, f, kept, i)
    requires taken.Some? ==> taken.value in nodes && nodes[taken.value].key == f.nodes[i].key
                             && HasKey(nodes, f, f.nodes[i].key)
    requires taken.None? && orphan.Some? ==> !Homeless(nodes, f, f.nodes[i])
    requires f.nodes[i].key in KeysUpTo(f, |f.nodes|)
    ensures OrphanUpTo(nodes, f, if taken.Some? then kept[f.nodes[i].qn := taken.value] else kept, i + 1, orphan)
  {
    hide HasKey, MatchedUpTo, DistinctNames;
    MatchedNames(nodes, f, kept, i);
    if orphan.None? {
      OrphanGone(nodes, f, kept, i, if taken.Some? then kept[f.nodes[i].qn := taken.value] else kept);
    } else if taken.Some? {
      ValuesExtended(kept, f.nodes[i].qn, taken.value);
    }
  }

  lemma MatchedNames(nodes: Nodes, f: File, kept: map<Name, Id>, i: nat)
    requires DistinctNames(f) && i < |f.nodes| && MatchedUpTo(nodes, f, kept, i)
    ensures f.nodes[i].qn !in kept
  {
  }

  lemma OrphanGone(nodes: Nodes, f: File, kept: map<Name, Id>, i: nat, kept': map<Name, Id>)
    requires i < |f.nodes| && OrphanUpTo(nodes, f, kept, i, None) && kept.Keys <= kept'.Keys
    ensures OrphanUpTo(nodes, f, kept', i + 1, None)
  {
    hide HasKey, IsOrphan, Homeless;
  }

  lemma ValuesExtended(kept: map<Name, Id>, q: Name, id: Id)
    requires q !in kept
    ensures kept[q := id].Values <= kept.Values + {id}
  {
    assert forall p :: p in kept ==> kept[p] in kept.Values;
  }

  lemma OrphanFree(nodes: Nodes, f: File, kept: map<Name, Id>, i: nat, id: Id)
    requires i < |f.nodes| && OrphanUpTo(nodes, f, kept, i, Some(id)) && Homeless(nodes, f, f.nodes[i])
    ensures IsOrphan(nodes, f, id) && Available(nodes, f, kept, id) && nodes[id].key !in KeysUpTo(f, |f.nodes|)
    ensures Reused(nodes, f, map[f.nodes[i].qn := id], f.nodes[i])
  {
  }

  lemma OrphanTaken(nodes: Nodes, f: File, kept: map<Name, Id>, i: nat, id: Id)
    requires i < |f.nodes| && Homeless(nodes, f, f.nodes[i])
    ensures OrphanUpTo(nodes, f, kept[f.nodes[i].qn := id], i + 1, None)
  {
  }

  lemma NothingMatched(nodes: Nodes, f: File, orphan: Option<Id>)
    requires orphan.Some? ==> IsOrphan(nodes, f, orphan.value)
    requires orphan.None? ==> forall id :: !IsOrphan(nodes, f, id)
    ensures MatchedUpTo(nodes, f, map[], 0) && OrphanUpTo(nodes, f, map[], 0, orphan)
  {
  }

  lemma AllMatched(nodes: Nodes, f: File, kept: map<Name, Id>, orphan: Option<Id>)
    requires MatchedUpTo(nodes, f, kept, |f.nodes|) && OrphanUpTo(nodes, f, kept, |f.nodes|, orphan)
    ensures Matching(nodes, f, kept) && RowsReused(nodes, f, kept)
  {
    hide HasKey, IsOrphan;
    assert f.nodes[..|f.nodes|] == f.nodes;
    if orphan.None? && exists id :: IsOrphan(nodes, f, id) {
      var j :| 0 <= j < |f.nodes| && Homeless(nodes, f, f.nodes[j]) && f.nodes[j].qn in kept;
      assert f.nodes[j] in f.nodes;
    }
  }

  /** Persisting the same file again keeps every row under its own id, provided its nodes have keys. */
  lemma SecondPersistKeepsRows(nodes: Nodes, f: File, kept: map<Name, Id>, ids: map<Name, Id>, nodes': Nodes,
                               again: map<Name, Id>)
    requires DistinctNames(f) && DistinctKeys(f) && forall x :: x in f.nodes ==> x.key != ""
    requires Matching(nodes, f, kept) && Assigned(nodes, f, kept, ids) && NodesRewritten(nodes, f, kept, ids, nodes')
    requires Matching(nodes', f, again) && RowsReused(nodes', f, again)
    ensures again == ids && Doomed(nodes', f, again) == {}
  {
    hide RowsReused, NodesRewritten, DistinctKeys;
    forall x | x in f.nodes
      ensures x.qn in again && again[x.qn] == ids[x.qn]
    {
      SecondTimeSameRow(nodes, f, kept, ids, nodes', again, x);
    }
    forall id | id in FileRows(nodes', f.path)
      ensures id in again.Values
    {
      var x := RowOfFile(nodes, f, kept, ids, nodes', id);
      assert again[x.qn] == id;
    }
  }

  /** As for symbol keys, which are made of language, qualified name and signature. */
  ghost predicate KeysDetermineNames(nodes: Nodes, f: File) {
    forall id, x ::
      id in FileRows(nodes, f.path) && x in f.nodes && nodes[id].key == x.key != "" ==> nodes[id].qn == x.qn
  }

  /** A kept row keeps its name, unless it is an orphan module. */
  lemma OnlyOrphansRenamed(nodes: Nodes, f: File, kept: map<Name, Id>, q: Name)
    requires Matching(nodes, f, kept) && RowsReused(nodes, f, kept) && KeysDetermineNames(nodes, f) && q in kept
    ensures kept[q] in nodes && (nodes[kept[q]].qn == q || IsOrphan(nodes, f, kept[q]))
  {
    var x :| x in f.nodes && x.qn == q;
    assert kept[q] in kept.Values;
    assert Reused(nodes, f, kept, x);
  }

  /** A rename is safe exactly when no edge elsewhere is bound to an orphan module that gets a new name. */
  lemma RenameSafeIff(nodes: Nodes, edges: Edges, f: File, kept: map<Name, Id>)
    requires NamesBoundRight(nodes, edges)
    requires Matching(nodes, f, kept) && RowsReused(nodes, f, kept) && KeysDetermineNames(nodes, f)
    ensures RenameSafe(nodes, edges, f, kept)
            <==> forall k, q :: k in edges && !k.etype.Inherits? && k.source !in FileRows(nodes, f.path)
                                && q in kept && IsOrphan(nodes, f, kept[q]) && nodes[kept[q]].qn != q ==>
                   edges[k] != Some(kept[q])
  {
    hide RowsReused, KeysDetermineNames, IsOrphan;
    forall k, q | k in edges && !k.etype.Inherits? && q in kept && edges[k] == Some(kept[q])
      ensures kept[q] in nodes && nodes[kept[q]].qn == k.target
      ensures nodes[kept[q]].qn == q || IsOrphan(nodes, f, kept[q])
    {
      assert BoundRight(nodes, edges, k);
      OnlyOrphansRenamed(nodes, f, kept, q);
    }
  }

  lemma RowOfFile(nodes: Nodes, f: File, kept: map<Name, Id>, ids: map<Name, Id>, nodes': Nodes,
                  id: Id) returns (x: XNode)
    requires Matching(nodes, f, kept) && Assigned(nodes, f, kept, ids) && NodesRewritten(nodes, f, kept, ids, nodes')
    requires id in FileRows(nodes', f.path)
    ensures x in f.nodes && ids[x.qn] == id && nodes'[id] == RowOf(f, x)
  {
    if id in kept.Values {
      KeptAreIds(kept, ids, nodes, f, id);
    }
    var q :| q in ids && ids[q] == id;
    x :| x in f.nodes && x.qn == q;
  }

  lemma SecondTimeSameRow(nodes: Nodes, f: File, kept: map<Name, Id>, ids: map<Name, Id>, nodes': Nodes,
                          again: map<Name, Id>, x: XNode)
    requires DistinctKeys(f) && x in f.nodes && x.key != ""
    requires Matching(nodes, f, kept) && Assigned(nodes, f, kept, ids) && NodesRewritten(nodes, f, kept, ids, nodes')
    requires Matching(nodes', f, again) && RowsReused(nodes', f, again)
    ensures x.qn in again && again[x.qn] == ids[x.qn]
  {
    assert ids[x.qn] in FileRows(nodes', f.path) && nodes'[ids[x.qn]].key == x.key;
    assert HasKey(nodes', f, x.key);
    assert again[x.qn] in again.Values;
    var y := RowOfFile(nodes, f, kept, ids, nodes', again[x.qn]);
    assert y.key == x.key;
    SameKeySameNode(f, x, y);
  }

  lemma SameKeySameNode(f: File, x: XNode, y: XNode)
    requires DistinctKeys(f) && x in f.nodes && y in f.nodes && x.key == y.key != ""
    ensures x == y
  {
    var i :| 0 <= i < |f.nodes| && f.nodes[i] == x;
    var j :| 0 <= j < |f.nodes| && f.nodes[j] == y;
  }

  /** Node `i` adds a name, and unless it has no key a key, that the nodes before it lack. */
  lemma NextNode(f: File, i: nat)
    requires DistinctNames(f) && DistinctKeys(f) && i < |f.nodes|
    ensures NamesUpTo(f, i + 1) == NamesUpTo(f, i) + {f.nodes[i].qn} && f.nodes[i].qn !in NamesUpTo(f, i)
    ensures KeysUpTo(f, i + 1) == KeysUpTo(f, i) + {f.nodes[i].key}
    ensures f.nodes[i].key != "" ==> f.nodes[i].key !in KeysUpTo(f, i)
    ensures f.nodes[i].key in KeysUpTo(f, |f.nodes|)
  {
    assert f.nodes[..i + 1] == f.nodes[..i] + [f.nodes[i]];
    assert f.nodes[i] in f.nodes[..|f.nodes|];
    if f.nodes[i].key in KeysUpTo(f, i) {
      var x :| x in f.nodes[..i] && x.key == f.nodes[i].key;
      var j :| 0 <= j < i && f.nodes[..i][j] == x;
      assert f.nodes[j].key == f.nodes[i].key;
    }
  }

  // ---- Keeping rows, as tables ----

  /** No row of another file bears one of the file's names: the unique index would refuse it. */
  predicate NamesFree(nodes: Nodes, f: File) {
    forall o :: o in nodes && nodes[o].path != f.path ==> nodes[o].qn !in Names(f)
  }

  /** The rows that the first `i` nodes of the file keep. */
  function Taken(f: File, kept: map<Name, Id>, i: nat): set<Id>
    requires i <= |f.nodes|
  {
    Restricted(kept, NamesUpTo(f, i)).Values
  }

  ghost predicate RowsKept(before: Nodes, f: File, kept: map<Name, Id>, i: nat, now: Nodes)
    requires i <= |f.nodes|
  {
    && now.Keys == before.Keys
    && (forall id :: id in now && id !in Taken(f, kept, i) ==> now[id] == before[id])
    && (forall j :: 0 <= j < i && f.nodes[j].qn in kept ==>
          kept[f.nodes[j].qn] in now && now[kept[f.nodes[j].qn]] == RowOf(f, f.nodes[j]))
  }

  /** After `i` nodes: the rows kept so far, and a cache that only the file's other rows may have upset. */
  ghost predicate MidKeep(before: Nodes, f: File, kept: map<Name, Id>, i: nat, now: Nodes, ix: Index)
    requires i <= |f.nodes|
  {
    && RowsKept(before, f, kept, i, now) && ix.ids == now.Keys
    && MidNames(ix.byQn, now, FileRows(before, f.path) - Taken(f, kept, i))
  }

  lemma KeepBegins(nodes: Nodes, f: File, kept: map<Name, Id>, ix: Index)
    requires ix.ids == nodes.Keys && MirrorsNames(ix.byQn, nodes)
    ensures MidKeep(nodes, f, kept, 0, nodes, ix)
  {
    var pending := FileRows(nodes, f.path);
    assert Taken(f, kept, 0) == {};
    forall a, b | a in pending && b in pending && nodes[a].qn == nodes[b].qn
      ensures a == b
    {
      assert Holds(ix.byQn, nodes[a].qn, a) && Holds(ix.byQn, nodes[b].qn, b);
    }
  }

  lemma TakenGrows(f: File, kept: map<Name, Id>, i: nat)
    requires DistinctNames(f) && Injective(kept) && i < |f.nodes|
    ensures f.nodes[i].qn in kept ==>
              Taken(f, kept, i + 1) == Taken(f, kept, i) + {kept[f.nodes[i].qn]}
                  && kept[f.nodes[i].qn] !in Taken(f, kept, i)
    ensures f.nodes[i].qn !in kept ==> Taken(f, kept, i + 1) == Taken(f, kept, i)
  {
    assert f.nodes[..i + 1] == f.nodes[..i] + [f.nodes[i]];
    var before, after := Restricted(kept, NamesUpTo(f, i)), Restricted(kept, NamesUpTo(f, i + 1));
    if f.nodes[i].qn in kept {
      assert after == before[f.nodes[i].qn := kept[f.nodes[i].qn]];
      assert f.nodes[i].qn !in NamesUpTo(f, i);
      assert kept[f.nodes[i].qn] !in before.Values;
      ExtendMatching(before, f.nodes[i].qn, kept[f.nodes[i].qn]);
    } else {
      assert after == before;
    }
  }

  lemma TakenAll(f: File, kept: map<Name, Id>)
    requires kept.Keys <= Names(f)
    ensures Taken(f, kept, |f.nodes|) == kept.Values
  {
    assert f.nodes[..|f.nodes|] == f.nodes;
    assert Restricted(kept, NamesUpTo(f, |f.nodes|)) == kept;
  }

  /** What a kept row ends up called is one of the file's names. */
  lemma TakenNamed(before: Nodes, f: File, kept: map<Name, Id>, i: nat, now: Nodes, id: Id)
    requires i <= |f.nodes| && RowsKept(before, f, kept, i, now) && id in Taken(f, kept, i)
    ensures id in now && now[id].qn in NamesUpTo(f, i)
  {
    var q :| q in kept && q in NamesUpTo(f, i) && kept[q] == id;
    var x :| x in f.nodes[..i] && x.qn == q;
    var j :| 0 <= j < i && f.nodes[..i][j] == x;
    assert f.nodes[j] == x;
  }

  lemma NewNameUnused(before: Nodes, f: File, kept: map<Name, Id>, i: nat, now: Nodes, o: Id)
    requires DistinctNames(f) && NamesFree(before, f) && i < |f.nodes| && RowsKept(before, f, kept, i, now)
    requires o in now && o !in FileRows(before, f.path) - Taken(f, kept, i)
    ensures now[o].qn != f.nodes[i].qn
  {
    NextName(f, i);
    if o in Taken(f, kept, i) {
      TakenNamed(before, f, kept, i, now, o);
    } else {
      assert f.nodes[i] in f.nodes;
    }
  }

  lemma KeepNext(before: Nodes, f: File, kept: map<Name, Id>, i: nat, now: Nodes, ix: Index)
    requires DistinctNames(f) && Matching(before, f, kept) && NamesFree(before, f)
    requires i < |f.nodes| && f.nodes[i].qn in kept && MidKeep(before, f, kept, i, now, ix)
    ensures var id, row := kept[f.nodes[i].qn], RowOf(f, f.nodes[i]);
            id in now && MidKeep(before, f, kept, i + 1, now[id := row], Renamed(ix, id, row, now[id].qn))
  {
    var id, row := kept[f.nodes[i].qn], RowOf(f, f.nodes[i]);
    var pending := FileRows(before, f.path) - Taken(f, kept, i);
    TakenGrows(f, kept, i);
    assert id in kept.Values;
    forall o | o in now && o !in pending
      ensures now[o].qn != row.qn
    {
      NewNameUnused(before, f, kept, i, now, o);
    }
    assert FileRows(before, f.path) - Taken(f, kept, i + 1) == pending - {id};
    if now[id].qn == row.qn {
      SameNameSettles(ix.byQn, now, pending, id, row);
    } else {
      NewNameSettles(ix.byQn, now, pending, id, row);
    }
    KeptRowsExtend(before, f, kept, i, now);
  }

  lemma NextName(f: File, i: nat)
    requires DistinctNames(f) && i < |f.nodes|
    ensures f.nodes[i].qn !in NamesUpTo(f, i)
  {
  }

  lemma KeptRowsExtend(before: Nodes, f: File, kept: map<Name, Id>, i: nat, now: Nodes)
    requires DistinctNames(f) && Injective(kept) && i < |f.nodes| && f.nodes[i].qn in kept && kept[f.nodes[i].qn] in now
    requires RowsKept(before, f, kept, i, now)
    ensures RowsKept(before, f, kept, i + 1, now[kept[f.nodes[i].qn] := RowOf(f, f.nodes[i])])
  {
    TakenGrows(f, kept, i);
    forall j | 0 <= j < i && f.nodes[j].qn in kept
      ensures kept[f.nodes[j].qn] != kept[f.nodes[i].qn]
    {
      assert f.nodes[j].qn != f.nodes[i].qn;
    }
  }

  lemma SkipNext(before: Nodes, f: File, kept: map<Name, Id>, i: nat, now: Nodes, ix: Index)
    requires DistinctNames(f) && Injective(kept) && i < |f.nodes| && f.nodes[i].qn !in kept
    requires MidKeep(before, f, kept, i, now, ix)
    ensures MidKeep(before, f, kept, i + 1, now, ix)
  {
    TakenGrows(f, kept, i);
  }

  // ---- Dropping and inserting rows, as tables ----

  /** With the doomed rows gone, the only names of the file still in use are the kept ones. */
  lemma OnlyKeptNamesLeft(before: Nodes, f: File, kept: map<Name, Id>, now: Nodes, o: Id)
    requires Matching(before, f, kept) && NamesFree(before, f) && RowsKept(before, f, kept, |f.nodes|, now)
    requires o in now && o !in Doomed(before, f, kept) && now[o].qn in Names(f)
    ensures now[o].qn in kept
  {
    TakenAll(f, kept);
    if o in kept.Values {
      var q :| q in kept && kept[q] == o;
      var x :| x in f.nodes && x.qn == q;
      var j :| 0 <= j < |f.nodes| && f.nodes[j] == x;
      assert now[kept[f.nodes[j].qn]] == RowOf(f, x);
    }
  }

  ghost predicate OnlyKeptNames(mid: Nodes, f: File, kept: map<Name, Id>) {
    forall o :: o in mid && mid[o].qn in Names(f) ==> mid[o].qn in kept
  }

  /** After `i` nodes: each of them that keeps no row has a new id, numbered from `first`. */
  ghost predicate IdsUpTo(f: File, kept: map<Name, Id>, first: Id, i: nat, ids: map<Name, Id>, next: Id)
    requires i <= |f.nodes|
  {
    && first <= next && ids.Keys == kept.Keys + NamesUpTo(f, i) && Injective(ids)
    && (forall q :: q in ids ==> if q in kept then ids[q] == kept[q] else first <= ids[q] < next)
  }

  /** And the rows with those ids are the file's. */
  ghost predicate RowsUpTo(mid: Nodes, f: File, kept: map<Name, Id>, i: nat, now: Nodes, ids: map<Name, Id>)
    requires i <= |f.nodes|
  {
    && now.Keys == mid.Keys + ids.Values && (forall id :: id in mid ==> now[id] == mid[id])
    && (forall id :: id in now ==> id in mid || (now[id].qn in ids && now[id].qn !in kept))
    && (forall j :: 0 <= j < i && f.nodes[j].qn !in kept ==>
          f.nodes[j].qn in ids && ids[f.nodes[j].qn] in now && now[ids[f.nodes[j].qn]] == RowOf(f, f.nodes[j]))
  }

  ghost predicate MidInsert(mid: Nodes, f: File, kept: map<Name, Id>, first: Id, i: nat,
                            now: Nodes, ids: map<Name, Id>, next: Id, ix: Index)
    requires i <= |f.nodes|
  {
    && IdsUpTo(f, kept, first, i, ids, next) && RowsUpTo(mid, f, kept, i, now, ids)
    && (forall id :: id in now ==> id < next)
    && ix.ids == now.Keys && MirrorsNames(ix.byQn, now)
  }

  lemma NamesGrow(f: File, i: nat)
    requires DistinctNames(f) && i < |f.nodes|
    ensures NamesUpTo(f, i + 1) == NamesUpTo(f, i) + {f.nodes[i].qn} && f.nodes[i].qn !in NamesUpTo(f, i)
    ensures f.nodes[i].qn in Names(f)
  {
    assert f.nodes[..i + 1] == f.nodes[..i] + [f.nodes[i]];
    assert f.nodes[i] in f.nodes;
  }

  lemma NextId(f: File, kept: map<Name, Id>, first: Id, i: nat, ids: map<Name, Id>, next: Id)
    requires DistinctNames(f) && i < |f.nodes| && f.nodes[i].qn !in kept && next !in ids.Values
    requires IdsUpTo(f, kept, first, i, ids, next)
    ensures IdsUpTo(f, kept, first, i + 1, ids[f.nodes[i].qn := next], next + 1)
    ensures ids[f.nodes[i].qn := next].Values == ids.Values + {next}
  {
    NamesGrow(f, i);
    ExtendMatching(ids, f.nodes[i].qn, next);
  }

  lemma NextRow(mid: Nodes, f: File, kept: map<Name, Id>, i: nat, now: Nodes, ids: map<Name, Id>, next: Id)
    requires DistinctNames(f) && i < |f.nodes| && f.nodes[i].qn !in ids && f.nodes[i].qn !in kept && next !in now
    requires ids[f.nodes[i].qn := next].Values == ids.Values + {next}
    requires RowsUpTo(mid, f, kept, i, now, ids)
    ensures RowsUpTo(mid, f, kept, i + 1, now[next := RowOf(f, f.nodes[i])], ids[f.nodes[i].qn := next])
  {
    NamesGrow(f, i);
    var now', ids' := now[next := RowOf(f, f.nodes[i])], ids[f.nodes[i].qn := next];
    forall j | 0 <= j < i + 1 && f.nodes[j].qn !in kept
      ensures f.nodes[j].qn in ids' && ids'[f.nodes[j].qn] in now' && now'[ids'[f.nodes[j].qn]] == RowOf(f, f.nodes[j])
    {
      assert j < i ==> f.nodes[j].qn in ids && f.nodes[j].qn != f.nodes[i].qn;
    }
  }

  lemma NextNameFree(mid: Nodes, f: File, kept: map<Name, Id>, i: nat, now: Nodes, ids: map<Name, Id>)
    requires DistinctNames(f) && OnlyKeptNames(mid, f, kept) && i < |f.nodes| && f.nodes[i].qn !in kept
             && f.nodes[i].qn !in ids
    requires RowsUpTo(mid, f, kept, i, now, ids)
    ensures forall o :: o in now ==> now[o].qn != f.nodes[i].qn
  {
    NamesGrow(f, i);
  }

  lemma InsertNext(mid: Nodes, f: File, kept: map<Name, Id>, first: Id, i: nat,
                   now: Nodes, ids: map<Name, Id>, next: Id, ix: Index)
    requires DistinctNames(f) && OnlyKeptNames(mid, f, kept) && i < |f.nodes| && f.nodes[i].qn !in kept
    requires MidInsert(mid, f, kept, first, i, now, ids, next, ix)
    ensures var x := f.nodes[i];
            MidInsert(mid, f, kept, first, i + 1, now[next := RowOf(f, x)], ids[x.qn := next], next + 1,
                      Added(ix, next, RowOf(f, x)))
  {
    var x := f.nodes[i];
    NamesGrow(f, i);
    NextId(f, kept, first, i, ids, next);
    NextRow(mid, f, kept, i, now, ids, next);
    NextNameFree(mid, f, kept, i, now, ids);
    AddKeepsNames(ix.byQn, now, next, RowOf(f, x));
  }

  lemma SkipId(f: File, kept: map<Name, Id>, first: Id, i: nat, ids: map<Name, Id>, next: Id)
    requires DistinctNames(f) && i < |f.nodes| && f.nodes[i].qn in kept && IdsUpTo(f, kept, first, i, ids, next)
    ensures IdsUpTo(f, kept, first, i + 1, ids, next)
  {
    NamesGrow(f, i);
  }

  lemma SkipRow(mid: Nodes, f: File, kept: map<Name, Id>, i: nat, now: Nodes, ids: map<Name, Id>)
    requires i < |f.nodes| && f.nodes[i].qn in kept && RowsUpTo(mid, f, kept, i, now, ids)
    ensures RowsUpTo(mid, f, kept, i + 1, now, ids)
  {
  }

  lemma InsertSkips(mid: Nodes, f: File, kept: map<Name, Id>, first: Id, i: nat,
                    now: Nodes, ids: map<Name, Id>, next: Id, ix: Index)
    requires DistinctNames(f) && i < |f.nodes| && f.nodes[i].qn in kept
    requires MidInsert(mid, f, kept, first, i, now, ids, next, ix)
    ensures MidInsert(mid, f, kept, first, i + 1, now, ids, next, ix)
  {
    SkipId(f, kept, first, i, ids, next);
    SkipRow(mid, f, kept, i, now, ids);
  }

  lemma InsertBegins(mid: Nodes, f: File, kept: map<Name, Id>, next: Id, ix: Index)
    requires Injective(kept) && kept.Values <= mid.Keys && (forall id :: id in mid ==> id < next)
    requires ix.ids == mid.Keys && MirrorsNames(ix.byQn, mid)
    ensures MidInsert(mid, f, kept, next, 0, mid, kept, next, ix)
  {
    assert NamesUpTo(f, 0) == {};
  }

  lemma AllAssigned(before: Nodes, f: File, kept: map<Name, Id>, first: Id, ids: map<Name, Id>, next: Id)
    requires Matching(before, f, kept) && (forall id :: id in before ==> id < first)
    requires IdsUpTo(f, kept, first, |f.nodes|, ids, next)
    ensures Assigned(before, f, kept, ids) && kept.Values <= ids.Values
  {
    assert f.nodes[..|f.nodes|] == f.nodes;
    assert NamesUpTo(f, |f.nodes|) == Names(f);
    forall id | id in kept.Values
      ensures id in ids.Values
    {
      var q :| q in kept && kept[q] == id;
      assert ids[q] == id;
    }
  }

  lemma AllRowsOfFile(f: File, kept: map<Name, Id>, keptRows: Nodes, mid: Nodes, now: Nodes, ids: map<Name, Id>,
                      before: Nodes, x: XNode)
    requires RowsKept(before, f, kept, |f.nodes|, keptRows) && RowsUpTo(mid, f, kept, |f.nodes|, now, ids)
    requires x in f.nodes && x.qn in ids && (x.qn in kept ==> ids[x.qn] == kept[x.qn] && kept[x.qn] in mid)
    requires forall id :: id in mid ==> id in keptRows && mid[id] == keptRows[id]
    ensures ids[x.qn] in now && now[ids[x.qn]] == RowOf(f, x)
  {
    var j :| 0 <= j < |f.nodes| && f.nodes[j] == x;
  }

  lemma OtherRowsUntouched(before: Nodes, f: File, kept: map<Name, Id>, keptRows: Nodes)
    requires Matching(before, f, kept) && RowsKept(before, f, kept, |f.nodes|, keptRows)
    ensures keptRows.Keys == before.Keys
    ensures forall id :: id in keptRows && id !in kept.Values ==> keptRows[id] == before[id]
  {
    TakenAll(f, kept);
  }

  /** Kept, dropped and inserted rows together are the rewritten node table. */
  lemma RowsRewritten(before: Nodes, f: File, kept: map<Name, Id>, keptRows: Nodes, mid: Nodes, first: Id,
                      now: Nodes, ids: map<Name, Id>, next: Id, ix: Index)
    requires Matching(before, f, kept) && (forall id :: id in before ==> id < first)
    requires RowsKept(before, f, kept, |f.nodes|, keptRows) && mid == keptRows - Doomed(before, f, kept)
    requires MidInsert(mid, f, kept, first, |f.nodes|, now, ids, next, ix)
    ensures Assigned(before, f, kept, ids) && NodesRewritten(before, f, kept, ids, now) && NamesUnique(now)
  {
    AllAssigned(before, f, kept, first, ids, next);
    MirroredNamesUnique(ix.byQn, now);
    AllRowsRewritten(before, f, kept, keptRows, mid, now, ids);
  }

  lemma AllRowsRewritten(before: Nodes, f: File, kept: map<Name, Id>, keptRows: Nodes, mid: Nodes,
                         now: Nodes, ids: map<Name, Id>)
    requires Matching(before, f, kept) && Assigned(before, f, kept, ids) && kept.Values <= ids.Values
    requires RowsKept(before, f, kept, |f.nodes|, keptRows) && mid == keptRows - Doomed(before, f, kept)
    requires RowsUpTo(mid, f, kept, |f.nodes|, now, ids)
    ensures NodesRewritten(before, f, kept, ids, now)
  {
    OtherRowsUntouched(before, f, kept, keptRows);
    assert forall q :: q in kept ==> kept[q] in kept.Values;
    forall x | x in f.nodes && x.qn in ids
      ensures ids[x.qn] in now && now[ids[x.qn]] == RowOf(f, x)
    {
      AllRowsOfFile(f, kept, keptRows, mid, now, ids, before, x);
    }
  }

  // ---- The cache's module slots ----

  /** Slots whose row is still there. */
  function Surviving(byPath: map<Path, Id>, gone: set<Id>): map<Path, Id> {
    map p | p in byPath && byPath[p] !in gone :: byPath[p]
  }

  /** Every slot names a row of its file. */
  ghost predicate SoundPaths(byPath: map<Path, Id>, nodes: Nodes) {
    forall p :: p in byPath ==> byPath[p] in nodes && nodes[byPath[p]].path == p
  }

  /** The last module among the first `i` nodes that gets a new row. */
  function NewModule(f: File, kept: map<Name, Id>, i: nat): (q: Option<Name>)
    requires i <= |f.nodes|
    ensures q.Some? ==> exists x :: x in f.nodes && x.kind.Module? && x.qn == q.value && x.qn !in kept
    ensures q.None? ==> forall j :: 0 <= j < i ==> !f.nodes[j].kind.Module? || f.nodes[j].qn in kept
  {
    if i == 0 then None
    else
      var x := f.nodes[i - 1];
      assert x in f.nodes;
      if x.kind.Module? && x.qn !in kept then Some(x.qn) else NewModule(f, kept, i - 1)
  }

  function WithNewModule(byPath: map<Path, Id>, f: File, kept: map<Name, Id>, ids: map<Name, Id>, i: nat): map<Path, Id>
    requires i <= |f.nodes|
  {
    var q := NewModule(f, kept, i);
    if q.Some? && q.value in ids then byPath[f.path := ids[q.value]] else byPath
  }

  /** The slots after the doomed rows are removed and the new rows added; a rename leaves them alone. */
  function SlotsAfter(byPath: map<Path, Id>, f: File, kept: map<Name, Id>, ids: map<Name, Id>,
                      doomed: set<Id>): map<Path, Id> {
    WithNewModule(Surviving(byPath, doomed), f, kept, ids, |f.nodes|)
  }

  lemma SurvivingOneMore(byPath: map<Path, Id>, nodes: Nodes, done: set<Id>, id: Id)
    requires SoundPaths(byPath, nodes) && id in nodes
    ensures Surviving(byPath, done + {id}) == Without(Surviving(byPath, done), nodes[id].path, id)
  {
  }

  lemma KeptSlotsSound(before: Nodes, f: File, kept: map<Name, Id>, keptRows: Nodes, byPath: map<Path, Id>)
    requires Matching(before, f, kept) && RowsKept(before, f, kept, |f.nodes|, keptRows) && SoundPaths(byPath, before)
    ensures SoundPaths(byPath, keptRows)
  {
    OtherRowsUntouched(before, f, kept, keptRows);
    forall id | id in kept.Values
      ensures keptRows[id].path == before[id].path
    {
      var q :| q in kept && kept[q] == id;
      var x :| x in f.nodes && x.qn == q;
      var j :| 0 <= j < |f.nodes| && f.nodes[j] == x;
      assert keptRows[kept[f.nodes[j].qn]] == RowOf(f, x);
    }
  }

  lemma NewModuleListed(byPath: map<Path, Id>, f: File, kept: map<Name, Id>, ids: map<Name, Id>, i: nat, id: Id)
    requires i < |f.nodes| && f.nodes[i].qn !in kept && f.nodes[i].qn !in ids && ids.Keys >= NamesUpTo(f, i)
    ensures WithNewModule(byPath, f, kept, ids[f.nodes[i].qn := id], i + 1)
            == if f.nodes[i].kind.Module? then WithNewModule(byPath, f, kept, ids, i)[f.path := id]
               else WithNewModule(byPath, f, kept, ids, i)
  {
    NewModuleAmong(f, kept, i);
  }

  lemma NewModuleAmong(f: File, kept: map<Name, Id>, i: nat)
    requires i <= |f.nodes|
    ensures NewModule(f, kept, i).Some? ==> NewModule(f, kept, i).value in NamesUpTo(f, i)
  {
    if i > 0 {
      NewModuleAmong(f, kept, i - 1);
      assert f.nodes[..i] == f.nodes[..i - 1] + [f.nodes[i - 1]];
      assert f.nodes[i - 1] in f.nodes[..i];
    }
  }

  lemma OldModuleListed(byPath: map<Path, Id>, f: File, kept: map<Name, Id>, ids: map<Name, Id>, i: nat)
    requires i < |f.nodes| && f.nodes[i].qn in kept
    ensures WithNewModule(byPath, f, kept, ids, i + 1) == WithNewModule(byPath, f, kept, ids, i)
  {
  }

  // ---- When the module slots come out right ----

  /** A module that keeps a row keeps one that was a module. */
  ghost predicate ModuleRowsStay(nodes: Nodes, f: File, kept: map<Name, Id>) {
    forall x :: x in f.nodes && x.kind.Module? && x.qn in kept && kept[x.qn] in nodes ==> nodes[kept[x.qn]].kind.Module?
  }

  /**
   * As for symbol keys of any one extractor.  A key is made of language, qualified name and signature,
   * so a module shares one only with a class that has no signature and that another extractor gave the
   * name (backend/app/graph/extractor.py:94-102, 238-256).
   */
  ghost predicate KeysDetermineKinds(nodes: Nodes, f: File) {
    forall id, x ::
      id in FileRows(nodes, f.path) && x in f.nodes && nodes[id].key == x.key != "" ==>
        (nodes[id].kind.Module? <==> x.kind.Module?)
  }

  /** Then a kept row stays a module or stays none. */
  lemma KindsStay(nodes: Nodes, f: File, kept: map<Name, Id>)
    requires Matching(nodes, f, kept) && RowsReused(nodes, f, kept) && KeysDetermineKinds(nodes, f)
    ensures ModuleRowsStay(nodes, f, kept)
    ensures forall x :: x in f.nodes && x.qn in kept ==>
              kept[x.qn] in nodes && (nodes[kept[x.qn]].kind.Module? <==> x.kind.Module?)
  {
    forall x | x in f.nodes && x.qn in kept
      ensures kept[x.qn] in nodes && (nodes[kept[x.qn]].kind.Module? <==> x.kind.Module?)
    {
      assert kept[x.qn] in kept.Values;
      assert Reused(nodes, f, kept, x);
    }
  }

  lemma TheModule(nodes: Nodes, edges: Edges, f: File, kept: map<Name, Id>, ids: map<Name, Id>,
                  nodes': Nodes) returns (x: XNode)
    requires RowsReplaced(nodes, edges, f, kept, ids, nodes') && HasModule(f) && Indexable(nodes')
    ensures x in f.nodes && x.kind.Module? && x.qn in ids && ids[x.qn] in nodes' && nodes'[ids[x.qn]] == RowOf(f, x)
    ensures forall y :: y in f.nodes && y.kind.Module? ==> y.qn == x.qn
    ensures forall id :: id in nodes' && nodes'[id].kind.Module? && nodes'[id].path == f.path ==> id == ids[x.qn]
  {
    x :| x in f.nodes && x.kind.Module?;
    forall y | y in f.nodes && y.kind.Module?
      ensures y.qn == x.qn
    {
      assert ids[y.qn] in nodes' && nodes'[ids[y.qn]] == RowOf(f, y);
    }
  }

  ghost predicate OtherSlotsRight(slots: map<Path, Id>, nodes: Nodes, path: Path) {
    && (forall p :: p in slots && p != path ==>
          slots[p] in nodes && nodes[slots[p]].kind.Module? && nodes[slots[p]].path == p)
    && (forall id :: id in nodes && nodes[id].kind.Module? && nodes[id].path != path ==>
          Holds(slots, nodes[id].path, id))
  }

  lemma OtherSlotsMirror(nodes: Nodes, edges: Edges, f: File, kept: map<Name, Id>, ids: map<Name, Id>, nodes': Nodes,
                         byPath: map<Path, Id>)
    requires RowsReplaced(nodes, edges, f, kept, ids, nodes') && MirrorsModules(byPath, nodes)
    ensures OtherSlotsRight(SlotsAfter(byPath, f, kept, ids, Doomed(nodes, f, kept)), nodes', f.path)
  {
    hide RowsReplaced, SlotsAfter, Doomed;
    var doomed := Doomed(nodes, f, kept);
    var slots := SlotsAfter(byPath, f, kept, ids, doomed);
    SlotsElsewhere(byPath, f, kept, ids, doomed);
    forall p | p in byPath && p != f.path
      ensures byPath[p] !in doomed && byPath[p] in nodes' && nodes'[byPath[p]] == nodes[byPath[p]]
    {
      OutsideRowStays(nodes, edges, f, kept, ids, nodes', byPath[p]);
      NotDoomed(nodes, f, kept, byPath[p]);
    }
    forall id | id in nodes' && nodes'[id].kind.Module? && nodes'[id].path != f.path
      ensures Holds(slots, nodes'[id].path, id)
    {
      OldRowElsewhere(nodes, edges, f, kept, ids, nodes', id);
      assert Holds(byPath, nodes[id].path, id);
    }
  }

  lemma SlotsElsewhere(byPath: map<Path, Id>, f: File, kept: map<Name, Id>, ids: map<Name, Id>, doomed: set<Id>)
    ensures var slots := SlotsAfter(byPath, f, kept, ids, doomed);
            forall p :: p != f.path ==>
              (p in slots <==> p in byPath && byPath[p] !in doomed) && (p in slots ==> slots[p] == byPath[p])
  {
    hide NewModule;
  }

  lemma NotDoomed(nodes: Nodes, f: File, kept: map<Name, Id>, id: Id)
    requires id in nodes && nodes[id].path != f.path
    ensures id !in Doomed(nodes, f, kept)
  {
  }

  lemma OldRowElsewhere(nodes: Nodes, edges: Edges, f: File, kept: map<Name, Id>, ids: map<Name, Id>, nodes': Nodes,
                        id: Id)
    requires RowsReplaced(nodes, edges, f, kept, ids, nodes') && id in nodes' && nodes'[id].path != f.path
    ensures id in nodes && nodes'[id] == nodes[id]
  {
    NewTableRow(nodes, edges, f, kept, ids, nodes', id);
  }

  /** If the file's module keeps a row, its slot is right exactly when that row was a module. */
  lemma KeptModuleSlot(nodes: Nodes, f: File, kept: map<Name, Id>, ids: map<Name, Id>, byPath: map<Path, Id>, x: XNode)
    requires Matching(nodes, f, kept) && Assigned(nodes, f, kept, ids) && MirrorsModules(byPath, nodes)
    requires x in f.nodes && x.kind.Module? && x.qn in kept
    requires forall y :: y in f.nodes && y.kind.Module? ==> y.qn == x.qn
    ensures Holds(SlotsAfter(byPath, f, kept, ids, Doomed(nodes, f, kept)), f.path, ids[x.qn])
            <==> ModuleRowsStay(nodes, f, kept)
  {
    assert NewModule(f, kept, |f.nodes|).None?;
    assert kept[x.qn] in kept.Values && kept[x.qn] in FileRows(nodes, f.path);
    assert ModuleRowsStay(nodes, f, kept) <==> nodes[kept[x.qn]].kind.Module?;
    if nodes[kept[x.qn]].kind.Module? {
      assert Holds(byPath, nodes[kept[x.qn]].path, kept[x.qn]);
    }
  }

  /** A new module row takes the slot. */
  lemma NewModuleSlot(nodes: Nodes, f: File, kept: map<Name, Id>, ids: map<Name, Id>, byPath: map<Path, Id>, x: XNode)
    requires ids.Keys == Names(f)
    requires x in f.nodes && x.kind.Module? && x.qn !in kept
    requires forall y :: y in f.nodes && y.kind.Module? ==> y.qn == x.qn
    ensures x.qn in ids && Holds(SlotsAfter(byPath, f, kept, ids, Doomed(nodes, f, kept)), f.path, ids[x.qn])
    ensures ModuleRowsStay(nodes, f, kept)
  {
    var j :| 0 <= j < |f.nodes| && f.nodes[j] == x;
    assert NewModule(f, kept, |f.nodes|).Some?;
  }

  /**
   * The module slots mirror the table after the call exactly when the file's module, if it keeps a
   * row, keeps a module's row: `rename` never looks at the kind.
   */
  lemma SlotsMirrorIff(nodes: Nodes, edges: Edges, f: File, kept: map<Name, Id>, ids: map<Name, Id>, nodes': Nodes,
                       byPath: map<Path, Id>)
    requires RowsReplaced(nodes, edges, f, kept, ids, nodes') && HasModule(f)
    requires MirrorsModules(byPath, nodes) && Indexable(nodes')
    ensures MirrorsModules(SlotsAfter(byPath, f, kept, ids, Doomed(nodes, f, kept)), nodes')
            <==> ModuleRowsStay(nodes, f, kept)
  {
    hide SlotsAfter, NodesRewritten, ModuleRowsStay, Indexable, HasModule;
    var x := TheModule(nodes, edges, f, kept, ids, nodes');
    OtherSlotsMirror(nodes, edges, f, kept, ids, nodes', byPath);
    if x.qn in kept {
      KeptModuleSlot(nodes, f, kept, ids, byPath, x);
    } else {
      NewModuleSlot(nodes, f, kept, ids, byPath, x);
    }
    OneSlotDecides(SlotsAfter(byPath, f, kept, ids, Doomed(nodes, f, kept)), nodes', f.path, ids[x.qn]);
  }

  lemma OneSlotDecides(slots: map<Path, Id>, nodes: Nodes, path: Path, id: Id)
    requires OtherSlotsRight(slots, nodes, path)
    requires id in nodes && nodes[id].kind.Module? && nodes[id].path == path
    requires forall o :: o in nodes && nodes[o].kind.Module? && nodes[o].path == path ==> o == id
    ensures MirrorsModules(slots, nodes) <==> Holds(slots, path, id)
  {
    if MirrorsModules(slots, nodes) {
      assert Holds(slots, nodes[id].path, id);
    }
  }
}
