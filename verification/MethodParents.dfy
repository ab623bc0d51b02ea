/**
 * The `parent_id` column: the cascade it carries, how `persist_graph` keeps surviving rows
 * out of that cascade, and how methods find their parents again
 * (backend/app/graph/builder.py:169-188, 239-248, 328-348, 1027-1068).
 */
module MethodParents {
  import opened Wrappers
  import opened CodeGraph
  import opened FileRewrite

  /** Rows with a parent; a row not in the map has none. */
  type Parents = map<Id, Id>

  // ---- The cascade ----

  function ChildrenOf(parents: Parents, dead: set<Id>): set<Id> {
    set c | c in parents && parents[c] in dead
  }

  /** Everything ON DELETE CASCADE takes along when the rows `dead` are deleted. */
  function Cascade(parents: Parents, dead: set<Id>): (gone: set<Id>)
    ensures dead <= gone
    decreases parents.Keys - dead
  {
    var children := ChildrenOf(parents, dead);
    if children <= dead then dead
    else
      assert exists c :: c in children && c !in dead;
      Cascade(parents, dead + children)
  }

  /** The cascade is closed under taking children. */
  lemma {:induction false} CascadeClosed(parents: Parents, dead: set<Id>)
    ensures ChildrenOf(parents, Cascade(parents, dead)) <= Cascade(parents, dead)
    decreases parents.Keys - dead
  {
    var children := ChildrenOf(parents, dead);
    if !(children <= dead) {
      assert exists c :: c in children && c !in dead;
      CascadeClosed(parents, dead + children);
    }
  }

  /** And it is the smallest such set around `dead`. */
  lemma {:induction false} CascadeLeast(parents: Parents, dead: set<Id>, closed: set<Id>)
    requires dead <= closed && ChildrenOf(parents, closed) <= closed
    ensures Cascade(parents, dead) <= closed
    decreases parents.Keys - dead
  {
    var children := ChildrenOf(parents, dead);
    if !(children <= dead) {
      assert exists c :: c in children && c !in dead;
      assert children <= ChildrenOf(parents, closed);
      CascadeLeast(parents, dead + children, closed);
    }
  }

  /** Clearing `parent_id` on the children of the rows about to go. */
  function Detached(parents: Parents, doomed: set<Id>): Parents {
    map c | c in parents && parents[c] !in doomed :: parents[c]
  }

  /** What is left of the column once the doomed rows are gone. */
  function AfterDrop(parents: Parents, doomed: set<Id>): Parents {
    Detached(parents, doomed) - doomed
  }

  /** Every surviving row keeps its parent, unless that is gone. */
  lemma SurvivorsKeepParents(parents: Parents, doomed: set<Id>, c: Id)
    ensures c in AfterDrop(parents, doomed) <==> c in parents && c !in doomed && parents[c] !in doomed
    ensures c in AfterDrop(parents, doomed) ==> AfterDrop(parents, doomed)[c] == parents[c]
  {
  }

  /** After detaching, deleting the doomed rows deletes exactly those. */
  lemma DetachedCascadeIsExact(parents: Parents, doomed: set<Id>)
    ensures Cascade(Detached(parents, doomed), doomed) == doomed
  {
    assert ChildrenOf(Detached(parents, doomed), doomed) == {};
  }

  /** Without it, the cascade takes every child of a doomed row along. */
  lemma CascadeTakesChildren(parents: Parents, doomed: set<Id>, c: Id)
    requires c in parents && parents[c] in doomed
    ensures c in Cascade(parents, doomed)
  {
    CascadeClosed(parents, doomed);
  }

  // ---- Parents by name ----

  /** `qn.rpartition(".")[0]`: what precedes the last dot, or nothing. */
  function ParentName(qn: Name): Name {
    if qn == "" then ""
    else if qn[|qn| - 1] == '.' then qn[..|qn| - 1]
    else ParentName(qn[..|qn| - 1])
  }

  /** `qn` is `q`, a dot and one last segment. */
  ghost predicate Below(qn: Name, q: Name, last: Name) {
    qn == q + "." + last && '.' !in last
  }

  /** A name with a dot is cut at its last one; a name without has the empty name for a parent's. */
  lemma {:induction false} ParentNameCuts(qn: Name)
    ensures '.' !in qn ==> ParentName(qn) == ""
    ensures '.' in qn ==> exists last :: Below(qn, ParentName(qn), last)
  {
    if qn != "" {
      var init, c := qn[..|qn| - 1], qn[|qn| - 1];
      assert qn == init + [c];
      if c == '.' {
        assert qn == init + "." + "";
        assert Below(qn, ParentName(qn), "");
      } else {
        ParentNameCuts(init);
        if '.' in init {
          var last :| Below(init, ParentName(init), last);
          assert qn == ParentName(init) + "." + (last + [c]);
          assert Below(qn, ParentName(qn), last + [c]);
        }
      }
    }
  }

  /** There is only one way to cut it. */
  lemma {:induction false} ParentNameIs(qn: Name, q: Name, last: Name)
    requires Below(qn, q, last)
    ensures ParentName(qn) == q && '.' in qn
    decreases |last|
  {
    assert qn[|q|] == '.';
    if last == "" {
      assert qn == q + ".";
    } else {
      var init := qn[..|qn| - 1];
      assert qn[|qn| - 1] == last[|last| - 1] && last[|last| - 1] in last;
      assert init == q + "." + last[..|last| - 1];
      ParentNameIs(init, q, last[..|last| - 1]);
    }
  }

  function ParentOf(parents: Parents, id: Id): Option<Id> {
    if id in parents then Some(parents[id]) else None
  }

  function WithParent(parents: Parents, id: Id, p: Option<Id>): Parents {
    if p.Some? then parents[id := p.value] else parents - {id}
  }

  /** The pass over the file's own nodes: a parent named in the file is linked, no parent is cleared. */
  function OwnParent(parents: Parents, x: XNode, ids: map<Name, Id>): Option<Id>
    requires x.qn in ids
  {
    match x.parentQn
    case None => None
    case Some(q) => if q in ids then Some(ids[q]) else ParentOf(parents, ids[x.qn])
  }

  ghost predicate ParentsPassed(parents: Parents, f: File, ids: map<Name, Id>, parents': Parents) {
    && (forall x :: x in f.nodes && x.qn in ids ==> ParentOf(parents', ids[x.qn]) == OwnParent(parents, x, ids))
    && (forall id :: id !in ids.Values ==> ParentOf(parents', id) == ParentOf(parents, id))
  }

  /** Every method of `scope` re-linked to the row its parent's name belongs to. */
  ghost predicate MethodsLinked(parents: Parents, nodes: Nodes, scope: set<Id>, parents': Parents) {
    forall id ::
      ParentOf(parents', id) == if id in scope && id in nodes && nodes[id].kind.Method?
                                then Lookup(nodes, ParentName(nodes[id].qn))
                                else ParentOf(parents, id)
  }

  ghost predicate MethodParentsRight(nodes: Nodes, parents: Parents) {
    forall id :: id in nodes && nodes[id].kind.Method? ==>
      ParentOf(parents, id) == Lookup(nodes, ParentName(nodes[id].qn))
  }

  /** The parent of `m` is the live row named `q`, or none if there is none. */
  ghost predicate ParentNamed(nodes: Nodes, parents: Parents, m: Id, q: Name) {
    match ParentOf(parents, m)
    case Some(p) => Named(nodes, q, p)
    case None => forall id :: !Named(nodes, q, id)
  }

  ghost predicate ParentsNamed(nodes: Nodes, parents: Parents) {
    && (forall m, q, last :: m in nodes && nodes[m].kind.Method? && Below(nodes[m].qn, q, last) ==>
          ParentNamed(nodes, parents, m, q))
    && (forall m :: m in nodes && nodes[m].kind.Method? && '.' !in nodes[m].qn ==> ParentNamed(nodes, parents, m, ""))
  }

  /** Parents are right when a method named `q.last` has the row named `q` for its parent. */
  lemma RightIsNamed(nodes: Nodes, parents: Parents)
    requires NamesUnique(nodes)
    ensures MethodParentsRight(nodes, parents) <==> ParentsNamed(nodes, parents)
  {
    forall m | m in nodes && nodes[m].kind.Method?
      ensures ParentOf(parents, m) == Lookup(nodes, ParentName(nodes[m].qn))
              <==> ParentNamed(nodes, parents, m, ParentName(nodes[m].qn))
    {
      assert forall id: Id :: Named(nodes, ParentName(nodes[m].qn), id) ==>
          Lookup(nodes, ParentName(nodes[m].qn)) == Some(id);
    }
    forall m | m in nodes && nodes[m].kind.Method?
      ensures '.' !in nodes[m].qn ==> ParentName(nodes[m].qn) == ""
      ensures '.' in nodes[m].qn ==> exists last :: Below(nodes[m].qn, ParentName(nodes[m].qn), last)
    {
      ParentNameCuts(nodes[m].qn);
    }
    forall m, q, last | m in nodes && Below(nodes[m].qn, q, last)
      ensures ParentName(nodes[m].qn) == q
    {
      ParentNameIs(nodes[m].qn, q, last);
    }
  }

  lemma LinkedIsNamed(parents: Parents, nodes: Nodes, scope: set<Id>, parents': Parents)
    requires MethodsLinked(parents, nodes, scope, parents')
    ensures forall m, q, last :: m in scope && m in nodes && nodes[m].kind.Method? && Below(nodes[m].qn, q, last) ==>
              ParentNamed(nodes, parents', m, q)
    ensures forall m :: !(m in scope && m in nodes && nodes[m].kind.Method?) ==>
              ParentOf(parents', m) == ParentOf(parents, m)
  {
    forall m, q, last | m in scope && m in nodes && nodes[m].kind.Method? && Below(nodes[m].qn, q, last)
      ensures ParentNamed(nodes, parents', m, q)
    {
      ParentNameIs(nodes[m].qn, q, last);
    }
  }

  /** A method's parent is a class or a receiver type, never a module. */
  ghost predicate NoMethodUnderModule(nodes: Nodes) {
    forall m, r :: m in nodes && r in nodes && nodes[m].kind.Method? && nodes[r].kind.Module? ==>
      nodes[r].qn != ParentName(nodes[m].qn)
  }

  ghost predicate ModulesStayModules(nodes: Nodes, f: File, kept: map<Name, Id>) {
    forall x :: x in f.nodes && x.qn in kept && kept[x.qn] in nodes ==>
      (nodes[kept[x.qn]].kind.Module? <==> x.kind.Module?)
  }

  /** The code's test for whether methods of other files may need a new parent. */
  predicate ParentsMayMove(nodes: Nodes, f: File, kept: map<Name, Id>) {
    || (exists x :: x in f.nodes && !x.kind.Module? && x.qn in kept && kept[x.qn] in nodes
                    && nodes[kept[x.qn]].qn != x.qn)
    || (exists x :: x in f.nodes && !x.kind.Module? && x.qn !in kept)
    || (exists d :: d in Doomed(nodes, f, kept) && d in nodes && !nodes[d].kind.Module?)
  }

  /** The rows whose methods are re-linked: all of them if parents may have moved, else the file's. */
  ghost function LinkScope(nodes: Nodes, f: File, kept: map<Name, Id>, ids: map<Name, Id>, nodes': Nodes): set<Id> {
    if ParentsMayMove(nodes, f, kept) then nodes'.Keys else ids.Values
  }

  /** What `persist_graph` does to the column: drop, own parents, then the methods'. */
  ghost predicate ParentsRelinked(nodes: Nodes, parents: Parents, f: File, kept: map<Name, Id>, ids: map<Name, Id>,
                                  nodes': Nodes, parents': Parents) {
    exists passed: Parents ::
      && ParentsPassed(AfterDrop(parents, Doomed(nodes, f, kept)), f, ids, passed)
      && MethodsLinked(passed, nodes', LinkScope(nodes, f, kept, ids, nodes'), parents')
  }

  /** Whoever bears the parent's name of a method elsewhere bore it before, and no one else did. */
  lemma OtherMethodKeepsParent(nodes: Nodes, edges: Edges, f: File, kept: map<Name, Id>, ids: map<Name, Id>,
                               nodes': Nodes, m: Id)
    requires RowsReplaced(nodes, edges, f, kept, ids, nodes') && NamesUnique(nodes)
    requires NoMethodUnderModule(nodes) && NoMethodUnderModule(nodes') && ModulesStayModules(nodes, f, kept)
    requires !ParentsMayMove(nodes, f, kept)
    requires m in nodes' && m !in ids.Values && nodes'[m].kind.Method?
    ensures m in nodes && nodes[m] == nodes'[m]
    ensures Lookup(nodes', ParentName(nodes'[m].qn)) == Lookup(nodes, ParentName(nodes[m].qn))
  {
    var q := ParentName(nodes[m].qn);
    var before, after := Lookup(nodes, q), Lookup(nodes', q);
    if before.Some? {
      assert !nodes[before.value].kind.Module?;
      SameRowAfter(nodes, edges, f, kept, ids, nodes', before.value);
      assert Named(nodes', q, before.value);
    }
    if after.Some? {
      assert !nodes'[after.value].kind.Module?;
      SameRowBefore(nodes, edges, f, kept, ids, nodes', after.value);
      assert Named(nodes, q, after.value);
    }
  }

  lemma SameRowAfter(nodes: Nodes, edges: Edges, f: File, kept: map<Name, Id>, ids: map<Name, Id>, nodes': Nodes, r: Id)
    requires RowsReplaced(nodes, edges, f, kept, ids, nodes') && ModulesStayModules(nodes, f, kept)
    requires !ParentsMayMove(nodes, f, kept) && r in nodes && !nodes[r].kind.Module?
    ensures r in nodes' && nodes'[r].qn == nodes[r].qn
  {
    assert r !in Doomed(nodes, f, kept);
    if r in kept.Values {
      var q :| q in kept && kept[q] == r;
      assert ids[q] == r;
      var x :| x in f.nodes && x.qn == q;
      assert nodes'[ids[x.qn]] == RowOf(f, x);
    }
  }

  lemma SameRowBefore(nodes: Nodes, edges: Edges, f: File, kept: map<Name, Id>, ids: map<Name, Id>, nodes': Nodes,
                      r: Id)
    requires RowsReplaced(nodes, edges, f, kept, ids, nodes') && ModulesStayModules(nodes, f, kept)
    requires !ParentsMayMove(nodes, f, kept) && r in nodes' && !nodes'[r].kind.Module?
    ensures r in nodes && nodes[r].qn == nodes'[r].qn
  {
    if r in ids.Values {
      var q :| q in ids && ids[q] == r;
      var x :| x in f.nodes && x.qn == q;
      assert nodes'[ids[x.qn]] == RowOf(f, x);
      assert x.qn in kept && kept[x.qn] in kept.Values;
      assert kept[x.qn] in nodes;
    }
  }

  /**
   * When the code finds that parents cannot move, linking only this file's methods leaves every
   * method of the repository where linking all of them would.
   */
  lemma LocalLinkingSuffices(nodes: Nodes, edges: Edges, f: File, kept: map<Name, Id>, ids: map<Name, Id>,
                             nodes': Nodes,
                             parents: Parents, passed: Parents, linked: Parents)
    requires RowsReplaced(nodes, edges, f, kept, ids, nodes') && NamesUnique(nodes)
    requires NoMethodUnderModule(nodes) && NoMethodUnderModule(nodes') && ModulesStayModules(nodes, f, kept)
    requires MethodParentsRight(nodes, parents) && !ParentsMayMove(nodes, f, kept)
    requires ParentsPassed(AfterDrop(parents, Doomed(nodes, f, kept)), f, ids, passed)
    requires MethodsLinked(passed, nodes', ids.Values, linked)
    ensures MethodParentsRight(nodes', linked)
    ensures MethodsLinked(passed, nodes', nodes'.Keys, linked)
  {
    forall m | m in nodes' && nodes'[m].kind.Method?
      ensures ParentOf(linked, m) == Lookup(nodes', ParentName(nodes'[m].qn))
    {
      if m !in ids.Values {
        OtherMethodKeepsParent(nodes, edges, f, kept, ids, nodes', m);
        NotDetached(nodes, f, kept, parents, m);
        assert ParentOf(passed, m) == ParentOf(AfterDrop(parents, Doomed(nodes, f, kept)), m);
      }
    }
  }

  /** A method's parent is not doomed when only modules are. */
  lemma NotDetached(nodes: Nodes, f: File, kept: map<Name, Id>, parents: Parents, m: Id)
    requires MethodParentsRight(nodes, parents) && NoMethodUnderModule(nodes) && !ParentsMayMove(nodes, f, kept)
    requires m in nodes && nodes[m].kind.Method? && m !in Doomed(nodes, f, kept)
    ensures ParentOf(AfterDrop(parents, Doomed(nodes, f, kept)), m) == ParentOf(parents, m)
  {
    if m in parents {
      assert Named(nodes, ParentName(nodes[m].qn), parents[m]);
    }
  }

  /** What lets the code leave the methods of other files alone when it finds that parents cannot move. */
  ghost predicate LocalLinkingSafe(nodes: Nodes, f: File, kept: map<Name, Id>, nodes': Nodes) {
    NoMethodUnderModule(nodes) && NoMethodUnderModule(nodes') && ModulesStayModules(nodes, f, kept)
  }

  /** If every method's parent was right it is right after the call; if all are re-linked, whatever it was. */
  lemma PersistKeepsMethodParents(nodes: Nodes, edges: Edges, f: File, kept: map<Name, Id>, ids: map<Name, Id>,
                                  nodes': Nodes, parents: Parents, parents': Parents)
    requires RowsReplaced(nodes, edges, f, kept, ids, nodes') && NamesUnique(nodes)
    requires ParentsRelinked(nodes, parents, f, kept, ids, nodes', parents')
    requires ParentsMayMove(nodes, f, kept)
             || (LocalLinkingSafe(nodes, f, kept, nodes') && MethodParentsRight(nodes, parents))
    ensures MethodParentsRight(nodes', parents')
  {
    hide RowsReplaced, NamesUnique, NoMethodUnderModule, ModulesStayModules, ParentsPassed;
    var passed: Parents :| ParentsPassed(AfterDrop(parents, Doomed(nodes, f, kept)), f, ids, passed)
                           && MethodsLinked(passed, nodes', LinkScope(nodes, f, kept, ids, nodes'), parents');
    if !ParentsMayMove(nodes, f, kept) {
      LocalLinkingSuffices(nodes, edges, f, kept, ids, nodes', parents, passed, parents');
    }
  }

  /**
   * Of the nodes of a file that are no methods, one whose parent the file defines hangs below that
   * parent's row, and one without a parent below none.
   */
  ghost predicate OwnNodesPlaced(f: File, ids: map<Name, Id>, nodes: Nodes, parents: Parents) {
    forall x :: x in f.nodes && !x.kind.Method? && x.qn in ids ==>
      && (x.parentQn.None? ==> ids[x.qn] !in parents)
      && (x.parentQn.Some? && x.parentQn.value in Names(f) ==>
            ids[x.qn] in parents && Named(nodes, x.parentQn.value, parents[ids[x.qn]]))
  }

  /** The linking of methods leaves every other row where the pass over the file's nodes put it. */
  lemma PassedStays(nodes: Nodes, f: File, kept: map<Name, Id>, ids: map<Name, Id>, nodes': Nodes, parents: Parents,
                    parents': Parents, id: Id)
    requires ParentsRelinked(nodes, parents, f, kept, ids, nodes', parents')
    requires !(id in nodes' && nodes'[id].kind.Method?)
    ensures id !in ids.Values ==> ParentOf(parents', id) == ParentOf(AfterDrop(parents, Doomed(nodes, f, kept)), id)
    ensures forall x :: x in f.nodes && x.qn in ids && ids[x.qn] == id ==>
              ParentOf(parents', id) == OwnParent(AfterDrop(parents, Doomed(nodes, f, kept)), x, ids)
  {
    hide LinkScope, AfterDrop, Doomed;
    var passed: Parents :| ParentsPassed(AfterDrop(parents, Doomed(nodes, f, kept)), f, ids, passed)
                           && MethodsLinked(passed, nodes', LinkScope(nodes, f, kept, ids, nodes'), parents');
  }

  lemma PersistPlacesOwnNodes(nodes: Nodes, edges: Edges, f: File, kept: map<Name, Id>, ids: map<Name, Id>,
                              nodes': Nodes, parents: Parents, parents': Parents)
    requires RowsReplaced(nodes, edges, f, kept, ids, nodes')
    requires ParentsRelinked(nodes, parents, f, kept, ids, nodes', parents')
    ensures OwnNodesPlaced(f, ids, nodes', parents')
  {
    hide References, NamesUnique, ParentsRelinked, AfterDrop, Doomed, Matching, DistinctNames;
    forall x | x in f.nodes && !x.kind.Method? && x.qn in ids
      ensures x.parentQn.None? ==> ids[x.qn] !in parents'
      ensures x.parentQn.Some? && x.parentQn.value in Names(f) ==>
                ids[x.qn] in parents' && Named(nodes', x.parentQn.value, parents'[ids[x.qn]])
    {
      PassedStays(nodes, f, kept, ids, nodes', parents, parents', ids[x.qn]);
      if x.parentQn.Some? && x.parentQn.value in Names(f) {
        IdsAreRows(nodes, edges, f, kept, ids, nodes', x.parentQn.value);
      }
    }
  }

  /** A method whose parent is deleted has no parent, and no row bears its parent's name any more. */
  lemma DeleteKeepsMethodParents(nodes: Nodes, parents: Parents, gone: set<Id>)
    requires NamesUnique(nodes) && MethodParentsRight(nodes, parents)
    ensures MethodParentsRight(nodes - gone, AfterDrop(parents, gone))
  {
    var nodes', parents' := nodes - gone, AfterDrop(parents, gone);
    forall m | m in nodes' && nodes'[m].kind.Method?
      ensures ParentOf(parents', m) == Lookup(nodes', ParentName(nodes'[m].qn))
    {
      var before := Lookup(nodes, ParentName(nodes[m].qn));
      var after := Lookup(nodes', ParentName(nodes[m].qn));
      assert ParentOf(parents, m) == before;
      if after.Some? {
        assert Named(nodes, ParentName(nodes[m].qn), after.value);
      } else if before.Some? && before.value !in gone {
        assert Named(nodes', ParentName(nodes[m].qn), before.value);
      }
    }
  }
}
