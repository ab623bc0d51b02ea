/**
 * The in-memory mirror of the node table (backend/app/graph/ingest_cache.py).
 *
 * The session holds one object per row, so "is node" is equality of row ids, and the row an
 * object shows is the row's current content.
 */
module IngestCache {
  import opened CodeGraph

  /** The three dictionaries: rows by id, by qualified name, and module rows by file. */
  datatype Index = Index(ids: set<Id>, byQn: map<Name, Id>, byPath: map<Path, Id>)

  const EMPTY_INDEX := Index({}, map[], map[])

  function Holds<K(==)>(m: map<K, Id>, k: K, id: Id): bool {
    k in m && m[k] == id
  }

  function Added(ix: Index, id: Id, row: Node): Index {
    Index(ix.ids + {id}, ix.byQn[row.qn := id], if row.kind.Module? then ix.byPath[row.path := id] else ix.byPath)
  }

  function Removed(ix: Index, id: Id, row: Node): Index {
    Index(ix.ids - {id}, Without(ix.byQn, row.qn, id), Without(ix.byPath, row.path, id))
  }

  function Without<K(==)>(m: map<K, Id>, k: K, id: Id): map<K, Id> {
    if Holds(m, k, id) then m - {k} else m
  }

  /** `row` is the content after the rename. */
  function Renamed(ix: Index, id: Id, row: Node, oldQn: Name): Index {
    if oldQn == row.qn then ix else ix.(byQn := Without(ix.byQn, oldQn, id)[row.qn := id])
  }

  class GraphIngestCache {
    var nodeById: set<Id>
    var nodesByQn: map<Name, Id>
    var moduleNodesByFilePath: map<Path, Id>

    constructor ()
      ensures Contents() == EMPTY_INDEX
    {
      nodeById, nodesByQn, moduleNodesByFilePath := {}, map[], map[];
    }

    function Contents(): Index
      reads this
    {
      Index(nodeById, nodesByQn, moduleNodesByFilePath)
    }

    /** An exact mirror stays exact, as long as the table's indexes accept the row. */
    method Add(id: Id, row: Node)
      modifies this
      ensures Contents() == Added(old(Contents()), id, row)
      ensures forall nodes: Nodes :: Mirrors(old(Contents()), nodes) && id !in nodes && Indexable(nodes[id := row]) ==>
                Mirrors(Contents(), nodes[id := row])
    {
      AddKeepsMirrors(Contents(), id, row);
      nodeById := nodeById + {id};
      nodesByQn := nodesByQn[row.qn := id];
      if row.kind.Module? {
        moduleNodesByFilePath := moduleNodesByFilePath[row.path := id];
      }
    }

    /** A pending row is settled by removing it; a row that has taken its name keeps its slot. */
    method Remove(id: Id, row: Node)
      modifies this
      ensures Contents() == Removed(old(Contents()), id, row)
      ensures forall nodes: Nodes, pending: set<Id> ::
                MidReplacement(old(Contents()), nodes, pending) && id in pending && nodes[id] == row ==>
                  MidReplacement(Contents(), nodes - {id}, pending - {id})
    {
      RemoveSettles(Contents(), id, row);
      nodeById := nodeById - {id};
      if row.qn in nodesByQn && nodesByQn[row.qn] == id {
        nodesByQn := nodesByQn - {row.qn};
      }
      if row.path in moduleNodesByFilePath && moduleNodesByFilePath[row.path] == id {
        moduleNodesByFilePath := moduleNodesByFilePath - {row.path};
      }
    }

    /** A pending row is settled by its new name, even one that another pending row still carries. */
    method Rename(id: Id, row: Node, oldQn: Name)
      modifies this
      ensures Contents() == Renamed(old(Contents()), id, row, oldQn)
      ensures forall nodes: Nodes, pending: set<Id> ::
                MidReplacement(old(Contents()), nodes, pending) && id in pending && RenameFits(nodes, pending, id, row)
                && nodes[id].qn == oldQn ==>
                  MidReplacement(Contents(), nodes[id := row], pending - {id})
    {
      RenameSettlesAll(Contents(), id, row, oldQn);
      if oldQn == row.qn {
        return;
      }
      if oldQn in nodesByQn && nodesByQn[oldQn] == id {
        nodesByQn := nodesByQn - {oldQn};
      }
      nodesByQn := nodesByQn[row.qn := id];
    }

    /** Rebuild from the rows the database returns, whatever the dictionaries held before. */
    method Refresh(nodes: Nodes)
      requires NamesUnique(nodes)
      modifies this
      ensures nodeById == nodes.Keys && MirrorsNames(nodesByQn, nodes)
      ensures Indexable(nodes) ==> Mirrors(Contents(), nodes)
    {
      nodeById, nodesByQn, moduleNodesByFilePath := {}, map[], map[];
      var rest := nodes.Keys;
      while rest != {}
        invariant rest <= nodes.Keys && MirrorsUpTo(Contents(), nodes, rest)
        decreases rest
      {
        var id :| id in rest;
        AddNextRow(Contents(), nodes, rest, id);
        Add(id, nodes[id]);
        rest := rest - {id};
      }
      assert Except(nodes, {}) == nodes;
    }
  }

  function Except(nodes: Nodes, rest: set<Id>): Nodes {
    map id | id in nodes && id !in rest :: nodes[id]
  }

  // ---- Mirroring the table ----

  /** Names are unique, and no file has two module rows. */
  ghost predicate Indexable(nodes: Nodes) {
    NamesUnique(nodes) &&
    forall a, b :: a in nodes && b in nodes && a != b && nodes[a].kind.Module? && nodes[b].kind.Module? ==>
      nodes[a].path != nodes[b].path
  }

  ghost predicate MirrorsModules(byPath: map<Path, Id>, nodes: Nodes) {
    && (forall p :: p in byPath ==>
          byPath[p] in nodes && nodes[byPath[p]].kind.Module? && nodes[byPath[p]].path == p)
    && (forall id :: id in nodes && nodes[id].kind.Module? ==> Holds(byPath, nodes[id].path, id))
  }

  ghost predicate Sound(byQn: map<Name, Id>, nodes: Nodes) {
    forall q :: q in byQn ==> byQn[q] in nodes && nodes[byQn[q]].qn == q
  }

  ghost predicate MirrorsNames(byQn: map<Name, Id>, nodes: Nodes) {
    Sound(byQn, nodes) && forall id :: id in nodes ==> Holds(byQn, nodes[id].qn, id)
  }

  /** The dictionaries are exactly the indexes of the rows. */
  ghost predicate Mirrors(ix: Index, nodes: Nodes) {
    ix.ids == nodes.Keys && MirrorsNames(ix.byQn, nodes) && MirrorsModules(ix.byPath, nodes)
  }

  lemma IndexableBefore(nodes: Nodes, id: Id, row: Node)
    requires id !in nodes && Indexable(nodes[id := row])
    ensures forall o :: o in nodes ==> nodes[o].qn != row.qn
    ensures row.kind.Module? ==> forall o :: o in nodes && nodes[o].kind.Module? ==> nodes[o].path != row.path
    ensures Indexable(nodes)
  {
    var nodes' := nodes[id := row];
    assert id in nodes' && nodes'[id] == row;
    assert forall o :: o in nodes ==> o in nodes' && nodes'[o] == nodes[o] && o != id;
  }

  lemma AddKeepsMirror(ix: Index, nodes: Nodes, id: Id, row: Node)
    requires Mirrors(ix, nodes) && id !in nodes && Indexable(nodes[id := row])
    ensures Mirrors(Added(ix, id, row), nodes[id := row])
  {
    hide MirrorsNames, MirrorsModules, Indexable;
    IndexableBefore(nodes, id, row);
    AddKeepsNames(ix.byQn, nodes, id, row);
    AddKeepsModules(ix, nodes, id, row);
  }

  lemma AddKeepsMirrors(ix: Index, id: Id, row: Node)
    ensures forall nodes: Nodes :: Mirrors(ix, nodes) && id !in nodes && Indexable(nodes[id := row]) ==>
              Mirrors(Added(ix, id, row), nodes[id := row])
  {
    forall nodes: Nodes | Mirrors(ix, nodes) && id !in nodes && Indexable(nodes[id := row])
      ensures Mirrors(Added(ix, id, row), nodes[id := row])
    {
      AddKeepsMirror(ix, nodes, id, row);
    }
  }

  lemma AddKeepsNames(byQn: map<Name, Id>, nodes: Nodes, id: Id, row: Node)
    requires MirrorsNames(byQn, nodes) && id !in nodes && forall o :: o in nodes ==> nodes[o].qn != row.qn
    ensures MirrorsNames(byQn[row.qn := id], nodes[id := row])
  {
    var nodes' := nodes[id := row];
    forall o | o in nodes'
      ensures Holds(byQn[row.qn := id], nodes'[o].qn, o)
    {
      if o != id {
        assert Holds(byQn, nodes[o].qn, o);
      }
    }
  }

  lemma AddKeepsModules(ix: Index, nodes: Nodes, id: Id, row: Node)
    requires MirrorsModules(ix.byPath, nodes) && id !in nodes
    requires row.kind.Module? ==> forall o :: o in nodes && nodes[o].kind.Module? ==> nodes[o].path != row.path
    ensures MirrorsModules(Added(ix, id, row).byPath, nodes[id := row])
  {
    var nodes' := nodes[id := row];
    forall o | o in nodes' && nodes'[o].kind.Module?
      ensures Holds(Added(ix, id, row).byPath, nodes'[o].path, o)
    {
      if o != id {
        assert Holds(ix.byPath, nodes[o].path, o);
      }
    }
  }

  /** The rows outside `rest` are mirrored; their modules too if no file has two. */
  ghost predicate MirrorsUpTo(ix: Index, nodes: Nodes, rest: set<Id>) {
    && ix.ids == nodes.Keys - rest && MirrorsNames(ix.byQn, Except(nodes, rest))
    && (Indexable(nodes) ==> MirrorsModules(ix.byPath, Except(nodes, rest)))
  }

  lemma ExceptOneLess(nodes: Nodes, rest: set<Id>, id: Id)
    requires id in rest && id in nodes
    ensures Except(nodes, rest - {id}) == Except(nodes, rest)[id := nodes[id]]
  {
  }

  lemma AddNextName(ix: Index, nodes: Nodes, rest: set<Id>, id: Id)
    requires NamesUnique(nodes) && id in rest && id in nodes && MirrorsNames(ix.byQn, Except(nodes, rest))
    ensures MirrorsNames(Added(ix, id, nodes[id]).byQn, Except(nodes, rest - {id}))
  {
    ExceptOneLess(nodes, rest, id);
    AddKeepsNames(ix.byQn, Except(nodes, rest), id, nodes[id]);
  }

  lemma AddNextModule(ix: Index, nodes: Nodes, rest: set<Id>, id: Id)
    requires Indexable(nodes) && id in rest && id in nodes && MirrorsModules(ix.byPath, Except(nodes, rest))
    ensures MirrorsModules(Added(ix, id, nodes[id]).byPath, Except(nodes, rest - {id}))
  {
    ExceptOneLess(nodes, rest, id);
    AddKeepsModules(ix, Except(nodes, rest), id, nodes[id]);
  }

  lemma AddNextRow(ix: Index, nodes: Nodes, rest: set<Id>, id: Id)
    requires NamesUnique(nodes) && rest <= nodes.Keys && id in rest && MirrorsUpTo(ix, nodes, rest)
    ensures MirrorsUpTo(Added(ix, id, nodes[id]), nodes, rest - {id})
  {
    AddNextName(ix, nodes, rest, id);
    if Indexable(nodes) {
      AddNextModule(ix, nodes, rest, id);
    }
  }

  /**
   * The names in the middle of replacing a file: `pending` rows have not been renamed or
   * removed yet, and one of them may have lost its slot to a row that took its name.
   */
  ghost predicate MidNames(byQn: map<Name, Id>, nodes: Nodes, pending: set<Id>) {
    && pending <= nodes.Keys && Sound(byQn, nodes)
    && (forall id :: id in nodes && id !in pending ==> Holds(byQn, nodes[id].qn, id))
    && (forall id :: id in pending ==>
          nodes[id].qn in byQn && (byQn[nodes[id].qn] == id || byQn[nodes[id].qn] !in pending))
    && (forall a, b :: a in pending && b in pending && nodes[a].qn == nodes[b].qn ==> a == b)
  }

  ghost predicate MidReplacement(ix: Index, nodes: Nodes, pending: set<Id>) {
    ix.ids == nodes.Keys && MidNames(ix.byQn, nodes, pending) && MirrorsModules(ix.byPath, nodes)
  }

  lemma ReplacementBegins(ix: Index, nodes: Nodes, pending: set<Id>)
    requires Mirrors(ix, nodes) && pending <= nodes.Keys
    ensures MidReplacement(ix, nodes, pending)
  {
    forall a, b | a in pending && b in pending && nodes[a].qn == nodes[b].qn
      ensures a == b
    {
      assert Holds(ix.byQn, nodes[a].qn, a) && Holds(ix.byQn, nodes[b].qn, b);
    }
  }

  lemma SameNameSettles(byQn: map<Name, Id>, nodes: Nodes, pending: set<Id>, id: Id, row: Node)
    requires MidNames(byQn, nodes, pending) && id in pending && row.qn == nodes[id].qn
    requires forall o :: o in nodes && o !in pending ==> nodes[o].qn != row.qn
    ensures MidNames(byQn, nodes[id := row], pending - {id})
  {
    assert byQn[row.qn] in nodes;
    assert byQn[row.qn] == id;
  }

  lemma NewNameSettles(byQn: map<Name, Id>, nodes: Nodes, pending: set<Id>, id: Id, row: Node)
    requires MidNames(byQn, nodes, pending) && id in pending && row.qn != nodes[id].qn
    requires forall o :: o in nodes && o !in pending ==> nodes[o].qn != row.qn
    ensures MidNames(Without(byQn, nodes[id].qn, id)[row.qn := id], nodes[id := row], pending - {id})
  {
    var byQn', nodes', pending' := Without(byQn, nodes[id].qn, id)[row.qn := id], nodes[id := row], pending - {id};
    forall o | o in nodes' && o !in pending'
      ensures Holds(byQn', nodes'[o].qn, o)
    {
      if o != id {
        assert Holds(byQn, nodes[o].qn, o);
      }
    }
    forall o | o in pending'
      ensures nodes'[o].qn in byQn' && (byQn'[nodes'[o].qn] == o || byQn'[nodes'[o].qn] !in pending')
    {
      assert nodes[o].qn != nodes[id].qn;
    }
  }

  lemma RemovalSettlesNames(byQn: map<Name, Id>, nodes: Nodes, pending: set<Id>, id: Id)
    requires MidNames(byQn, nodes, pending) && id in pending
    ensures MidNames(Without(byQn, nodes[id].qn, id), nodes - {id}, pending - {id})
  {
    var byQn', nodes', pending' := Without(byQn, nodes[id].qn, id), nodes - {id}, pending - {id};
    forall o | o in nodes' && o !in pending'
      ensures Holds(byQn', nodes'[o].qn, o)
    {
      assert Holds(byQn, nodes[o].qn, o);
    }
    forall o | o in pending'
      ensures nodes'[o].qn in byQn' && (byQn'[nodes'[o].qn] == o || byQn'[nodes'[o].qn] !in pending')
    {
      assert nodes[o].qn != nodes[id].qn;
    }
  }

  lemma RemovalKeepsModules(byPath: map<Path, Id>, nodes: Nodes, id: Id)
    requires MirrorsModules(byPath, nodes) && id in nodes
    ensures MirrorsModules(Without(byPath, nodes[id].path, id), nodes - {id})
  {
    forall o | o in nodes - {id} && nodes[o].kind.Module?
      ensures Holds(Without(byPath, nodes[id].path, id), nodes[o].path, o)
    {
      assert Holds(byPath, nodes[o].path, o);
    }
  }

  lemma RenameKeepsModules(byPath: map<Path, Id>, nodes: Nodes, id: Id, row: Node)
    requires MirrorsModules(byPath, nodes) && id in nodes
    requires row.path == nodes[id].path && row.kind.Module? == nodes[id].kind.Module?
    ensures MirrorsModules(byPath, nodes[id := row])
  {
  }

  /** File and module kind stay, and no row that stays has the new name. */
  ghost predicate RenameFits(nodes: Nodes, pending: set<Id>, id: Id, row: Node) {
    && id in nodes && row.path == nodes[id].path && row.kind.Module? == nodes[id].kind.Module?
    && forall o :: o in nodes && o !in pending ==> nodes[o].qn != row.qn
  }

  lemma RenameSettlesAll(ix: Index, id: Id, row: Node, oldQn: Name)
    ensures forall nodes: Nodes, pending: set<Id> ::
              MidReplacement(ix, nodes, pending) && id in pending && RenameFits(nodes, pending, id, row)
              && nodes[id].qn == oldQn ==>
                MidReplacement(Renamed(ix, id, row, oldQn), nodes[id := row], pending - {id})
  {
    forall nodes: Nodes, pending: set<Id> | MidReplacement(ix, nodes, pending) && id in pending
                                            && RenameFits(nodes, pending, id, row) && nodes[id].qn == oldQn
      ensures MidReplacement(Renamed(ix, id, row, oldQn), nodes[id := row], pending - {id})
    {
      RenameSettles(ix, nodes, pending, id, row);
    }
  }

  lemma RemoveSettles(ix: Index, id: Id, row: Node)
    ensures forall nodes: Nodes, pending: set<Id> ::
              MidReplacement(ix, nodes, pending) && id in pending && nodes[id] == row ==>
                MidReplacement(Removed(ix, id, row), nodes - {id}, pending - {id})
  {
    forall nodes: Nodes, pending: set<Id> | MidReplacement(ix, nodes, pending) && id in pending && nodes[id] == row
      ensures MidReplacement(Removed(ix, id, row), nodes - {id}, pending - {id})
    {
      RemovalSettles(ix, nodes, pending, id);
    }
  }

  /** A rename settles its row, even onto a name that a pending row still carries. */
  lemma RenameSettles(ix: Index, nodes: Nodes, pending: set<Id>, id: Id, row: Node)
    requires MidReplacement(ix, nodes, pending) && id in pending
    requires row.path == nodes[id].path && row.kind.Module? == nodes[id].kind.Module?
    requires forall o :: o in nodes && o !in pending ==> nodes[o].qn != row.qn
    ensures MidReplacement(Renamed(ix, id, row, nodes[id].qn), nodes[id := row], pending - {id})
  {
    RenameKeepsModules(ix.byPath, nodes, id, row);
    if row.qn == nodes[id].qn {
      SameNameSettles(ix.byQn, nodes, pending, id, row);
    } else {
      NewNameSettles(ix.byQn, nodes, pending, id, row);
    }
  }

  /** Removing a doomed row leaves alone whatever row has taken its name. */
  lemma RemovalSettles(ix: Index, nodes: Nodes, pending: set<Id>, id: Id)
    requires MidReplacement(ix, nodes, pending) && id in pending
    ensures MidReplacement(Removed(ix, id, nodes[id]), nodes - {id}, pending - {id})
  {
    RemovalSettlesNames(ix.byQn, nodes, pending, id);
    RemovalKeepsModules(ix.byPath, nodes, id);
  }

  /** With nothing pending the mirror is exact again. */
  lemma ReplacementEnds(ix: Index, nodes: Nodes)
    requires MidReplacement(ix, nodes, {})
    ensures Mirrors(ix, nodes)
  {
  }

  lemma MirroredNamesUnique(byQn: map<Name, Id>, nodes: Nodes)
    requires MirrorsNames(byQn, nodes)
    ensures NamesUnique(nodes)
  {
    forall a, b | a in nodes && b in nodes && nodes[a].qn == nodes[b].qn
      ensures a == b
    {
      assert Holds(byQn, nodes[a].qn, a) && Holds(byQn, nodes[b].qn, b);
    }
  }

  // ---- A whole batch, as one function of the index ----

  datatype Change = Rename(id: Id, row: Node) | Remove(id: Id)

  function ApplyRows(nodes: Nodes, batch: seq<Change>): Nodes {
    if batch == [] then nodes
    else
      var c := batch[0];
      if c.id !in nodes then ApplyRows(nodes, batch[1..])
      else if c.Rename? then ApplyRows(nodes[c.id := c.row], batch[1..])
      else ApplyRows(nodes - {c.id}, batch[1..])
  }

  function ApplyIndex(ix: Index, nodes: Nodes, batch: seq<Change>): Index
    decreases |batch|
  {
    if batch == [] then ix
    else
      var c := batch[0];
      if c.id !in nodes then ApplyIndex(ix, nodes, batch[1..])
      else if c.Rename? then
        ApplyIndex(Renamed(ix, c.id, c.row, nodes[c.id].qn), nodes[c.id := c.row], batch[1..])
      else ApplyIndex(Removed(ix, c.id, nodes[c.id]), nodes - {c.id}, batch[1..])
  }

  /** Each pending row is renamed or removed once; files and module kinds stay. */
  ghost predicate Batch(nodes: Nodes, pending: set<Id>, batch: seq<Change>) {
    && (forall i, j :: 0 <= i < j < |batch| ==> batch[i].id != batch[j].id)
    && (forall id :: id in pending <==> exists i :: 0 <= i < |batch| && batch[i].id == id)
    && (forall i :: 0 <= i < |batch| ==>
          batch[i].id in nodes &&
          (batch[i].Rename? ==> batch[i].row.path == nodes[batch[i].id].path
                                && batch[i].row.kind.Module? == nodes[batch[i].id].kind.Module?))
  }

  /** No two rows end up with one name: neither two renamed ones nor a renamed one and one left alone. */
  ghost predicate FinalNamesDistinct(nodes: Nodes, pending: set<Id>, batch: seq<Change>) {
    && (forall i, o :: 0 <= i < |batch| && batch[i].Rename? && o in nodes && o !in pending ==>
          nodes[o].qn != batch[i].row.qn)
    && (forall i, j :: 0 <= i < j < |batch| && batch[i].Rename? && batch[j].Rename? ==>
          batch[i].row.qn != batch[j].row.qn)
  }

  lemma BatchTail(nodes: Nodes, nodes': Nodes, pending: set<Id>, batch: seq<Change>)
    requires batch != [] && Batch(nodes, pending, batch) && FinalNamesDistinct(nodes, pending, batch)
    requires var c := batch[0]; c.id in nodes && nodes' == if c.Rename? then nodes[c.id := c.row] else nodes - {c.id}
    ensures Batch(nodes', pending - {batch[0].id}, batch[1..])
    ensures FinalNamesDistinct(nodes', pending - {batch[0].id}, batch[1..])
  {
    var c, rest := batch[0], batch[1..];
    assert forall i :: 0 <= i < |rest| ==> rest[i] == batch[i + 1];
    forall id
      ensures id in pending - {c.id} <==> exists i :: 0 <= i < |rest| && rest[i].id == id
    {
      if id in pending - {c.id} {
        var i :| 0 <= i < |batch| && batch[i].id == id;
        assert rest[i - 1].id == id;
      }
      if i :| 0 <= i < |rest| && rest[i].id == id {
        assert batch[i + 1].id == id;
      }
    }
  }

  lemma {:induction false} PendingSettles(ix: Index, nodes: Nodes, pending: set<Id>, batch: seq<Change>)
    requires MidReplacement(ix, nodes, pending) && Batch(nodes, pending, batch)
             && FinalNamesDistinct(nodes, pending, batch)
    ensures Mirrors(ApplyIndex(ix, nodes, batch), ApplyRows(nodes, batch))
    decreases |batch|
  {
    if batch == [] {
      assert pending == {};
      ReplacementEnds(ix, nodes);
    } else {
      var c := batch[0];
      assert c.id in pending && batch[0].id in nodes;
      if c.Rename? {
        var nodes' := nodes[c.id := c.row];
        BatchTail(nodes, nodes', pending, batch);
        RenameSettles(ix, nodes, pending, c.id, c.row);
        PendingSettles(Renamed(ix, c.id, c.row, nodes[c.id].qn), nodes', pending - {c.id}, batch[1..]);
      } else {
        BatchTail(nodes, nodes - {c.id}, pending, batch);
        RemovalSettles(ix, nodes, pending, c.id);
        PendingSettles(Removed(ix, c.id, nodes[c.id]), nodes - {c.id}, pending - {c.id}, batch[1..]);
      }
    }
  }

  datatype Addition = Addition(id: Id, row: Node)

  function WithRowsAdded(nodes: Nodes, adds: seq<Addition>): Nodes {
    if adds == [] then nodes
    else WithRowsAdded(nodes, adds[..|adds| - 1])[adds[|adds| - 1].id := adds[|adds| - 1].row]
  }

  function AddAll(ix: Index, adds: seq<Addition>): Index {
    if adds == [] then ix
    else Added(AddAll(ix, adds[..|adds| - 1]), adds[|adds| - 1].id, adds[|adds| - 1].row)
  }

  ghost predicate NewIds(nodes: Nodes, adds: seq<Addition>) {
    && (forall i :: 0 <= i < |adds| ==> adds[i].id !in nodes)
    && (forall i, j :: 0 <= i < j < |adds| ==> adds[i].id != adds[j].id)
  }

  lemma {:induction false} AddedIds(nodes: Nodes, adds: seq<Addition>, id: Id)
    ensures id in WithRowsAdded(nodes, adds) <==> id in nodes || exists i :: 0 <= i < |adds| && adds[i].id == id
  {
    if adds != [] {
      var init := adds[..|adds| - 1];
      AddedIds(nodes, init, id);
      assert forall i :: 0 <= i < |init| ==> init[i] == adds[i];
    }
  }

  lemma {:induction false} AdditionsKeepMirror(ix: Index, nodes: Nodes, adds: seq<Addition>)
    requires Mirrors(ix, nodes) && NewIds(nodes, adds) && Indexable(WithRowsAdded(nodes, adds))
    ensures Mirrors(AddAll(ix, adds), WithRowsAdded(nodes, adds))
  {
    hide Mirrors, Indexable;
    if adds != [] {
      var init, last := adds[..|adds| - 1], adds[|adds| - 1];
      AddedIds(nodes, init, last.id);
      IndexableBefore(WithRowsAdded(nodes, init), last.id, last.row);
      AdditionsKeepMirror(ix, nodes, init);
      AddKeepsMirror(AddAll(ix, init), WithRowsAdded(nodes, init), last.id, last.row);
    }
  }

  /**
   * Any batch of renames and removals with distinct final names, in whatever order, followed by any
   * additions that the table's indexes accept, takes an exact mirror to an exact mirror.  Swaps,
   * chains and cycles of names collide on the way and still settle.
   */
  lemma BatchKeepsMirror(ix: Index, nodes: Nodes, pending: set<Id>, batch: seq<Change>, adds: seq<Addition>)
    requires Mirrors(ix, nodes) && pending <= nodes.Keys
    requires Batch(nodes, pending, batch) && FinalNamesDistinct(nodes, pending, batch)
    requires var settled := ApplyRows(nodes, batch);
             NewIds(settled, adds) && Indexable(WithRowsAdded(settled, adds))
    ensures Mirrors(AddAll(ApplyIndex(ix, nodes, batch), adds), WithRowsAdded(ApplyRows(nodes, batch), adds))
  {
    hide Mirrors, MidReplacement, Batch, FinalNamesDistinct, Indexable;
    ReplacementBegins(ix, nodes, pending);
    PendingSettles(ix, nodes, pending, batch);
    AdditionsKeepMirror(ApplyIndex(ix, nodes, batch), ApplyRows(nodes, batch), adds);
  }
}
