/**
 * What `persist_graph` does to the node and edge tables when it replaces one file
 * (backend/app/graph/builder.py:36-532), and what that means for bindings and arrays.
 *
 * `kept` says which existing rows of the file are reused for which of its names, `ids` which
 * row each of its names ends up with.
 */
module FileRewrite {
  import opened Wrappers
  import opened CodeGraph

  datatype XNode = XNode(key: string, qn: Name, kind: Kind, name: string, parentQn: Option<Name>)

  /** An extracted edge; its target is already the canonical name that will be stored. */
  datatype XEdge = XEdge(source: Name, etype: EdgeType, target: Name)

  datatype File = File(path: Path, nodes: seq<XNode>, edges: seq<XEdge>)

  function Names(f: File): set<Name> {
    set x | x in f.nodes :: x.qn
  }

  ghost predicate DistinctNames(f: File) {
    forall i, j :: 0 <= i < j < |f.nodes| ==> f.nodes[i].qn != f.nodes[j].qn
  }

  /** Every file has one; `persist_graph` looks up the file's source row by it (builder.py:65-77, 120). */
  predicate HasModule(f: File) {
    exists x :: x in f.nodes && x.kind.Module?
  }

  function RowOf(f: File, x: XNode): Node {
    Node(f.path, x.key, x.qn, x.kind, x.name)
  }

  // ---- Rows ----

  function FileRows(nodes: Nodes, path: Path): set<Id> {
    set id | id in nodes && nodes[id].path == path
  }

  function Doomed(nodes: Nodes, f: File, kept: map<Name, Id>): set<Id> {
    FileRows(nodes, f.path) - kept.Values
  }

  ghost predicate Injective(m: map<Name, Id>) {
    forall p, q :: p in m && q in m && m[p] == m[q] ==> p == q
  }

  ghost predicate Matching(nodes: Nodes, f: File, kept: map<Name, Id>) {
    kept.Keys <= Names(f) && Injective(kept) && kept.Values <= FileRows(nodes, f.path)
  }

  ghost predicate Assigned(nodes: Nodes, f: File, kept: map<Name, Id>, ids: map<Name, Id>) {
    && ids.Keys == Names(f) && Injective(ids)
    && (forall q :: q in ids ==> if q in kept then ids[q] == kept[q] else ids[q] !in nodes)
  }

  ghost predicate NodesRewritten(nodes: Nodes, f: File, kept: map<Name, Id>, ids: map<Name, Id>, nodes': Nodes) {
    && nodes'.Keys == (nodes.Keys - Doomed(nodes, f, kept)) + ids.Values
    && (forall id :: id in nodes' && id !in ids.Values ==> nodes'[id] == nodes[id])
    && (forall x :: x in f.nodes && x.qn in ids ==> ids[x.qn] in nodes' && nodes'[ids[x.qn]] == RowOf(f, x))
  }

  // ---- Resolving a name ----

  ghost predicate Named(nodes: Nodes, q: Name, id: Id) {
    id in nodes && nodes[id].qn == q
  }

  ghost function Lookup(nodes: Nodes, q: Name): (r: Option<Id>)
    ensures r.Some? ==> Named(nodes, q, r.value)
    ensures r.None? ==> forall id :: !Named(nodes, q, id)
  {
    if exists id :: Named(nodes, q, id) then
      var id :| Named(nodes, q, id);
      Some(id)
    else None
  }

  predicate Fits(row: Node, target: Name) {
    EndsWith(row.qn, "." + target) || row.name == target
  }

  /** That is by its short name, or by what follows one of the dots of its qualified name. */
  lemma FitsMeans(row: Node, target: Name)
    ensures Fits(row, target) <==> row.name == target || exists outer :: row.qn == outer + "." + target
  {
    if EndsWith(row.qn, "." + target) {
      var outer := row.qn[..|row.qn| - |target| - 1];
      assert row.qn == outer + "." + target;
    }
    forall outer | row.qn == outer + "." + target
      ensures EndsWith(row.qn, "." + target)
    {
      assert row.qn[|outer|..] == "." + target;
    }
  }

  /** An INHERITS target may also be named by its last segment, if only one row fits. */
  function ShortNameMatches(nodes: Nodes, target: Name): set<Id> {
    set id | id in nodes && Fits(nodes[id], target)
  }

  ghost function Resolve(nodes: Nodes, k: EdgeKey): (r: Option<Id>)
    ensures r.Some? ==> r.value in nodes
  {
    var direct := Lookup(nodes, k.target);
    if direct.Some? then direct
    else if k.etype.Inherits? && |ShortNameMatches(nodes, k.target)| == 1 then
      var id :| id in ShortNameMatches(nodes, k.target);
      Some(id)
    else None
  }

  // ---- Edges ----

  /** Deleting rows deletes the edges they are sources of and unbinds the edges they are targets of. */
  function Cut(edges: Edges, doomed: set<Id>): Edges {
    map k | k in edges && k.source !in doomed ::
      if edges[k].Some? && edges[k].value in doomed then None else edges[k]
  }

  function WithoutSources(edges: Edges, sources: set<Id>): Edges {
    map k | k in edges && k.source !in sources :: edges[k]
  }

  /** Edges by key, for the extracted edges whose source has a row. */
  function KeysOf(es: seq<XEdge>, ids: map<Name, Id>): set<EdgeKey> {
    set e | e in es && e.source in ids :: EdgeKey(ids[e.source], e.etype, e.target)
  }

  function NewKeys(f: File, ids: map<Name, Id>): set<EdgeKey> {
    KeysOf(f.edges, ids)
  }

  ghost function WithNewEdges(edges: Edges, nodes: Nodes, keys: set<EdgeKey>): Edges {
    map k | k in edges.Keys + keys :: if k in keys then Resolve(nodes, k) else edges[k]
  }

  /** Names the call defines or used to define: only edges to them can newly resolve. */
  function Affected(nodes: Nodes, f: File, doomed: set<Id>): set<Name> {
    Names(f) + set id | id in doomed && id in nodes :: nodes[id].qn
  }

  function Candidates(edges: Edges, names: set<Name>): set<EdgeKey> {
    set k | k in edges && edges[k].None? && k.target in names
  }

  ghost function Rebound(edges: Edges, nodes: Nodes, names: set<Name>): Edges {
    map k | k in edges :: if k in Candidates(edges, names) then Resolve(nodes, k) else edges[k]
  }

  /** The edge table at the stages of the call. */
  datatype Stages = Stages(cut: Edges, cleared: Edges, inserted: Edges, final: Edges)

  ghost function EdgeStages(nodes: Nodes, edges: Edges, f: File, kept: map<Name, Id>, ids: map<Name, Id>,
                            nodes': Nodes): Stages
  {
    var doomed := Doomed(nodes, f, kept);
    var cut := Cut(edges, doomed);
    var cleared := WithoutSources(cut, kept.Values);
    var inserted := WithNewEdges(cleared, nodes', NewKeys(f, ids));
    Stages(cut, cleared, inserted, Rebound(inserted, nodes', Affected(nodes, f, doomed)))
  }

  ghost predicate References(nodes: Nodes, edges: Edges) {
    forall k :: k in edges ==> k.source in nodes && (edges[k].Some? ==> edges[k].value in nodes)
  }

  /** An edge is bound to the row its target names, and unbound if no row has that name. */
  ghost predicate BoundRight(nodes: Nodes, edges: Edges, k: EdgeKey)
    requires k in edges
  {
    match edges[k]
    case Some(t) => Named(nodes, k.target, t)
    case None => forall id :: !Named(nodes, k.target, id)
  }

  /** So it is for every edge but INHERITS, which may also be bound by a short name. */
  ghost predicate NamesBoundRight(nodes: Nodes, edges: Edges) {
    forall k :: k in edges && !k.etype.Inherits? ==> BoundRight(nodes, edges, k)
  }

  /** No row that edges from outside the file are bound to is kept under another name. */
  ghost predicate RenameSafe(nodes: Nodes, edges: Edges, f: File, kept: map<Name, Id>) {
    forall k, q ::
      (k in edges && !k.etype.Inherits? && k.source !in FileRows(nodes, f.path)
       && q in kept && edges[k] == Some(kept[q])) ==> q == k.target
  }

  /** What one call is given and what it leaves in the node table. */
  ghost predicate RowsReplaced(nodes: Nodes, edges: Edges, f: File, kept: map<Name, Id>, ids: map<Name, Id>,
                               nodes': Nodes) {
    && DistinctNames(f) && References(nodes, edges)
    && Matching(nodes, f, kept) && Assigned(nodes, f, kept, ids)
    && NodesRewritten(nodes, f, kept, ids, nodes') && NamesUnique(nodes')
  }

  /** The same, from a table whose edges are bound right. */
  ghost predicate Rewrite(nodes: Nodes, edges: Edges, f: File, kept: map<Name, Id>, ids: map<Name, Id>, nodes': Nodes) {
    RowsReplaced(nodes, edges, f, kept, ids, nodes') && NamesBoundRight(nodes, edges)
  }

  lemma IdsAreRows(nodes: Nodes, edges: Edges, f: File, kept: map<Name, Id>, ids: map<Name, Id>, nodes': Nodes, q: Name)
    requires RowsReplaced(nodes, edges, f, kept, ids, nodes') && q in ids
    ensures ids[q] in nodes' && nodes'[ids[q]].qn == q && nodes'[ids[q]].path == f.path
  {
    var x :| x in f.nodes && x.qn == q;
  }

  lemma IdNamed(nodes: Nodes, edges: Edges, f: File, kept: map<Name, Id>, ids: map<Name, Id>, nodes': Nodes, id: Id)
    requires RowsReplaced(nodes, edges, f, kept, ids, nodes') && id in ids.Values
    ensures id in nodes' && nodes'[id].qn in Names(f)
  {
    var q :| q in ids && ids[q] == id;
    IdsAreRows(nodes, edges, f, kept, ids, nodes', q);
  }

  lemma KeptAreIds(kept: map<Name, Id>, ids: map<Name, Id>, nodes: Nodes, f: File, id: Id)
    requires Matching(nodes, f, kept) && Assigned(nodes, f, kept, ids) && id in kept.Values
    ensures id in ids.Values
  {
    var q :| q in kept && kept[q] == id;
    assert ids[q] == id;
  }

  /** Which edges survive from before, which are the file's own, and what each ends up bound to. */
  lemma FinalEdge(nodes: Nodes, edges: Edges, f: File, kept: map<Name, Id>, ids: map<Name, Id>, nodes': Nodes,
                  k: EdgeKey)
    requires RowsReplaced(nodes, edges, f, kept, ids, nodes')
    ensures var s := EdgeStages(nodes, edges, f, kept, ids, nodes');
            var doomed := Doomed(nodes, f, kept);
            && (k in s.final <==> k in NewKeys(f, ids) || (k in edges && k.source !in FileRows(nodes, f.path)))
            && (k in NewKeys(f, ids) ==> k.source in ids.Values && k in s.inserted
                                         && s.inserted[k] == Resolve(nodes', k) == s.final[k])
            && (k in s.final && k !in NewKeys(f, ids) ==>
                  && k.source !in ids.Values && k.source in nodes'
                  && s.inserted[k] == (if edges[k].Some? && edges[k].value in doomed then None else edges[k])
                  && s.final[k] == if k in Candidates(s.inserted, Affected(nodes, f, doomed)) then Resolve(nodes', k)
                                   else s.inserted[k])
  {
    if k in NewKeys(f, ids) {
      var e :| e in f.edges && e.source in ids && k == EdgeKey(ids[e.source], e.etype, e.target);
      assert k.source in ids.Values;
    }
    if k in edges {
      if k.source in kept.Values {
        KeptAreIds(kept, ids, nodes, f, k.source);
      }
      if k.source in ids.Values {
        var q :| q in ids && ids[q] == k.source;
        assert k.source in nodes;
        assert q in kept && k.source == kept[q];
        assert k.source in FileRows(nodes, f.path);
      }
    }
  }

  lemma ResolveByName(nodes: Nodes, k: EdgeKey)
    requires !k.etype.Inherits?
    ensures Resolve(nodes, k) == Lookup(nodes, k.target)
  {
  }

  /** The file's own edges come out bound right whatever was there before. */
  lemma OwnEdgeBoundRight(nodes: Nodes, edges: Edges, f: File, kept: map<Name, Id>, ids: map<Name, Id>, nodes': Nodes,
                          k: EdgeKey)
    requires RowsReplaced(nodes, edges, f, kept, ids, nodes') && k in NewKeys(f, ids) && !k.etype.Inherits?
    ensures var final := EdgeStages(nodes, edges, f, kept, ids, nodes').final;
            k in final && BoundRight(nodes', final, k)
  {
    FinalEdge(nodes, edges, f, kept, ids, nodes', k);
    ResolveByName(nodes', k);
  }

  /**
   * An edge from elsewhere that was bound right, and resolves by name if at all, stays bound right,
   * unless its target row was kept under another name.
   */
  lemma OtherEdgeStaysRightIff(nodes: Nodes, edges: Edges, f: File, kept: map<Name, Id>, ids: map<Name, Id>,
                               nodes': Nodes, k: EdgeKey)
    requires RowsReplaced(nodes, edges, f, kept, ids, nodes')
    requires k in edges && k.source !in FileRows(nodes, f.path) && BoundRight(nodes, edges, k)
    requires Resolve(nodes', k) == Lookup(nodes', k.target)
    ensures var final := EdgeStages(nodes, edges, f, kept, ids, nodes').final;
            k in final && (BoundRight(nodes', final, k) <==>
                             forall q :: q in kept && edges[k] == Some(kept[q]) ==> q == k.target)
  {
    FinalEdge(nodes, edges, f, kept, ids, nodes', k);
    var s := EdgeStages(nodes, edges, f, kept, ids, nodes');
    var doomed := Doomed(nodes, f, kept);
    var names := Affected(nodes, f, doomed);
    match edges[k]
    case Some(t) =>
      if t in doomed {
        assert k.target in names;
        assert t !in kept.Values;
        assert forall q :: q in kept ==> kept[q] in kept.Values;
      } else if t in kept.Values {
        var q :| q in kept && kept[q] == t;
        assert ids[q] == t;
        IdsAreRows(nodes, edges, f, kept, ids, nodes', q);
      } else {
        assert forall q :: q in kept ==> kept[q] in kept.Values;
        assert t in nodes' && nodes'[t] == nodes[t];
      }
    case None =>
      if k.target !in names {
        forall id | id in nodes'
          ensures !Named(nodes', k.target, id)
        {
          assert !Named(nodes, k.target, id);
          if id in ids.Values {
            IdNamed(nodes, edges, f, kept, ids, nodes', id);
          }
        }
      }
  }

  lemma OtherEdgeBoundRightIff(nodes: Nodes, edges: Edges, f: File, kept: map<Name, Id>, ids: map<Name, Id>,
                               nodes': Nodes, k: EdgeKey)
    requires Rewrite(nodes, edges, f, kept, ids, nodes')
    requires k in edges && !k.etype.Inherits? && k.source !in FileRows(nodes, f.path)
    ensures var final := EdgeStages(nodes, edges, f, kept, ids, nodes').final;
            k in final && (BoundRight(nodes', final, k) <==>
                             forall q :: q in kept && edges[k] == Some(kept[q]) ==> q == k.target)
  {
    hide RowsReplaced;
    ResolveByName(nodes', k);
    OtherEdgeStaysRightIff(nodes, edges, f, kept, ids, nodes', k);
  }

  /**
   * After the call every edge of the repository but INHERITS is bound to the live row its target
   * names, or unbound if there is none, exactly when no row that edges from outside the file are
   * bound to was kept under another name.
   */
  lemma BindingExactIff(nodes: Nodes, edges: Edges, f: File, kept: map<Name, Id>, ids: map<Name, Id>, nodes': Nodes)
    requires Rewrite(nodes, edges, f, kept, ids, nodes')
    ensures NamesBoundRight(nodes', EdgeStages(nodes, edges, f, kept, ids, nodes').final)
            <==> RenameSafe(nodes, edges, f, kept)
  {
    var final := EdgeStages(nodes, edges, f, kept, ids, nodes').final;
    forall k | k in final && !k.etype.Inherits? && k in NewKeys(f, ids)
      ensures BoundRight(nodes', final, k)
    {
      OwnEdgeBoundRight(nodes, edges, f, kept, ids, nodes', k);
    }
    forall k | k in edges && !k.etype.Inherits? && k.source !in FileRows(nodes, f.path)
      ensures k in final && (BoundRight(nodes', final, k) <==>
                               forall q :: q in kept && edges[k] == Some(kept[q]) ==> q == k.target)
    {
      OtherEdgeBoundRightIff(nodes, edges, f, kept, ids, nodes', k);
    }
    forall k | k in final
      ensures k in NewKeys(f, ids) || (k in edges && k.source !in FileRows(nodes, f.path))
    {
      FinalEdge(nodes, edges, f, kept, ids, nodes', k);
    }
  }

  lemma FinalReferences(nodes: Nodes, edges: Edges, f: File, kept: map<Name, Id>, ids: map<Name, Id>, nodes': Nodes)
    requires RowsReplaced(nodes, edges, f, kept, ids, nodes')
    ensures References(nodes', EdgeStages(nodes, edges, f, kept, ids, nodes').final)
  {
    var final := EdgeStages(nodes, edges, f, kept, ids, nodes').final;
    forall k | k in final
      ensures k.source in nodes' && (final[k].Some? ==> final[k].value in nodes')
    {
      FinalEdge(nodes, edges, f, kept, ids, nodes', k);
      if k in NewKeys(f, ids) {
        IdNamed(nodes, edges, f, kept, ids, nodes', k.source);
      }
    }
  }
}
