/**
 * `persist_graph` step by step (backend/app/graph/builder.py:36-532): the loops over the
 * file's nodes and edges, the node table and the cache they keep in step, and the rebuild
 * of the arrays at the end.
 */
module GraphBuilder {
  import opened Wrappers
  import opened CodeGraph
  import opened CallArrays
  import opened FileRewrite
  import opened CallScope
  import opened GraphStates
  import opened CallCounts
  import opened MethodParents
  import opened IngestCache
  import opened RowReplacement

  datatype BuildResult = BuildResult(insertedNodes: nat, replacedFiles: seq<Path>, counts: Counts)

  const NOTHING_BUILT := BuildResult(0, [], Counts(0, 0))

  /** Foreign keys resolve, ids are not reused, and the cache indexes the node table. */
  ghost predicate InStep(db: Db, parents: Parents, next: Id, ix: Index) {
    && References(db.nodes, db.edges) && db.callees.Keys == db.callers.Keys == db.nodes.Keys
    && AmongRows(parents, db.nodes.Keys)
    && (forall id :: id in db.nodes ==> id < next)
    && ix.ids == db.nodes.Keys && MirrorsNames(ix.byQn, db.nodes)
  }

  class GraphStore {
    var nodes: Nodes
    var parents: Parents
    var edges: Edges
    var callees: Lists
    var callers: Lists
    var nextId: Id
    const cache: GraphIngestCache

    constructor ()
      ensures Valid() && fresh(cache) && Contents() == EMPTY_DB && Mirrors(cache.Contents(), nodes)
    {
      nodes, parents, edges, callees, callers, nextId := map[], map[], map[], map[], map[], 0;
      cache := new GraphIngestCache();
    }

    function Contents(): Db
      reads this
    {
      Db(nodes, edges, callees, callers)
    }

    ghost predicate Valid()
      reads this, cache
    {
      InStep(Contents(), parents, nextId, cache.Contents())
    }

    // ---- Matching extracted nodes with existing rows ----

    /** Existing rows by symbol key; rows without one are never matched by it. */
    method RowsByKey(path: Path) returns (byKey: map<string, Id>)
      ensures forall s :: s in byKey ==> s != "" && byKey[s] in FileRows(nodes, path) && nodes[byKey[s]].key == s
      ensures forall id :: id in FileRows(nodes, path) && nodes[id].key != "" ==> nodes[id].key in byKey
    {
      byKey := map[];
      var rest := FileRows(nodes, path);
      while rest != {}
        invariant rest <= FileRows(nodes, path)
        invariant forall s :: s in byKey ==> s != "" && byKey[s] in FileRows(nodes, path) && nodes[byKey[s]].key == s
        invariant forall id :: id in FileRows(nodes, path) - rest && nodes[id].key != "" ==> nodes[id].key in byKey
        decreases rest
      {
        var id :| id in rest;
        rest := rest - {id};
        if nodes[id].key != "" {
          byKey := byKey[nodes[id].key := id];
        }
      }
    }

    /** The module row whose key the file no longer has: a renamed module reuses it. */
    method OrphanModule(f: File) returns (orphan: Option<Id>)
      ensures orphan.Some? ==> IsOrphan(nodes, f, orphan.value)
      ensures orphan.None? ==> forall id :: !IsOrphan(nodes, f, id)
    {
      var keys := KeysUpTo(f, |f.nodes|);
      var orphans := set id | id in FileRows(nodes, f.path) && nodes[id].kind.Module? && nodes[id].key !in keys;
      if orphans == {} {
        assert forall id :: IsOrphan(nodes, f, id) ==> id in orphans;
        return None;
      }
      var id :| id in orphans;
      return Some(id);
    }

    /** A row is reused by key, or, for a module whose key has changed, as the file's module. */
    method MatchRows(f: File) returns (kept: map<Name, Id>)
      requires DistinctNames(f) && DistinctKeys(f)
      ensures Matching(nodes, f, kept) && RowsReused(nodes, f, kept)
    {
      hide MatchedUpTo, OrphanUpTo, Matching, RowsReused, DistinctNames, DistinctKeys;
      var byKey := RowsByKey(f.path);
      var orphan := OrphanModule(f);
      kept := map[];
      NothingMatched(nodes, f, orphan);
      for i := 0 to |f.nodes|
        invariant MatchedUpTo(nodes, f, kept, i) && OrphanUpTo(nodes, f, kept, i, orphan)
      {
        kept, orphan := MatchNode(f, kept, i, byKey, orphan);
      }
      AllMatched(nodes, f, kept, orphan);
    }

    method MatchNode(f: File, kept: map<Name, Id>, i: nat, byKey: map<string, Id>, orphan: Option<Id>)
      returns (kept': map<Name, Id>, orphan': Option<Id>)
      requires DistinctNames(f) && DistinctKeys(f) && i < |f.nodes|
      requires MatchedUpTo(nodes, f, kept, i) && OrphanUpTo(nodes, f, kept, i, orphan)
      requires forall s :: s in byKey ==> s != "" && byKey[s] in FileRows(nodes, f.path) && nodes[byKey[s]].key == s
      requires forall id :: id in FileRows(nodes, f.path) && nodes[id].key != "" ==> nodes[id].key in byKey
      ensures MatchedUpTo(nodes, f, kept', i + 1) && OrphanUpTo(nodes, f, kept', i + 1, orphan')
    {
      hide OrphanUpTo, MatchedUpTo, Reused, IsOrphan, DistinctNames, DistinctKeys, KeysUpTo;
      var x := f.nodes[i];
      NextNode(f, i);
      assert HasKey(nodes, f, x.key) <==> x.key in byKey;
      if x.key in byKey {
        KeyedRowAvailable(nodes, f, kept, i, byKey[x.key]);
        TakeRow(nodes, f, kept, i, byKey[x.key]);
        OrphanNext(nodes, f, kept, i, orphan, Some(byKey[x.key]));
        kept', orphan' := kept[x.qn := byKey[x.key]], orphan;
      } else if x.kind.Module? && orphan.Some? {
        OrphanFree(nodes, f, kept, i, orphan.value);
        TakeRow(nodes, f, kept, i, orphan.value);
        OrphanTaken(nodes, f, kept, i, orphan.value);
        kept', orphan' := kept[x.qn := orphan.value], None;
      } else {
        SkipNode(nodes, f, kept, i);
        OrphanNext(nodes, f, kept, i, orphan, None);
        kept', orphan' := kept, orphan;
      }
    }

    // ---- The node table and its cache ----

    /** Overwrite the row that node `i` keeps, and tell the cache about its new name. */
    method KeepRow(f: File, kept: map<Name, Id>, i: nat, ghost before: Nodes)
      requires DistinctNames(f) && Matching(before, f, kept) && NamesFree(before, f)
      requires i < |f.nodes| && f.nodes[i].qn in kept && MidKeep(before, f, kept, i, nodes, cache.Contents())
      modifies this`nodes, cache
      ensures MidKeep(before, f, kept, i + 1, nodes, cache.Contents())
      ensures cache.moduleNodesByFilePath == old(cache.moduleNodesByFilePath)
    {
      var id, row := kept[f.nodes[i].qn], RowOf(f, f.nodes[i]);
      KeepNext(before, f, kept, i, nodes, cache.Contents());
      var oldQn := nodes[id].qn;
      nodes := nodes[id := row];
      cache.Rename(id, row, oldQn);
    }

    method KeepRows(f: File, kept: map<Name, Id>)
      requires DistinctNames(f) && Matching(nodes, f, kept) && NamesFree(nodes, f)
      requires cache.nodeById == nodes.Keys && MirrorsNames(cache.nodesByQn, nodes)
      modifies this`nodes, cache
      ensures MidKeep(old(nodes), f, kept, |f.nodes|, nodes, cache.Contents())
      ensures cache.moduleNodesByFilePath == old(cache.moduleNodesByFilePath)
    {
      hide MidKeep, NamesFree, DistinctNames;
      ghost var before, slots := nodes, cache.moduleNodesByFilePath;
      KeepBegins(nodes, f, kept, cache.Contents());
      for i := 0 to |f.nodes|
        invariant MidKeep(before, f, kept, i, nodes, cache.Contents()) && cache.moduleNodesByFilePath == slots
      {
        if f.nodes[i].qn in kept {
          KeepRow(f, kept, i, before);
        } else {
          SkipNext(before, f, kept, i, nodes, cache.Contents());
        }
      }
    }

    /**
     * Delete the rows that no extracted node kept.  Their surviving children are detached
     * first, so the cascade takes nothing else along.
     */
    method DropRows(doomed: set<Id>)
      requires cache.nodeById == nodes.Keys && MidNames(cache.nodesByQn, nodes, doomed)
      modifies this`nodes, this`parents, this`edges, this`callees, this`callers, cache
      ensures nodes == old(nodes) - doomed && parents == AfterDrop(old(parents), doomed)
      ensures Contents() == Deleted(old(Contents()), doomed)
      ensures cache.nodeById == nodes.Keys && MirrorsNames(cache.nodesByQn, nodes)
      ensures SoundPaths(old(cache.moduleNodesByFilePath), old(nodes)) ==>
                cache.moduleNodesByFilePath == Surviving(old(cache.moduleNodesByFilePath), doomed)
    {
      hide MidNames, MirrorsNames, Cascade, SoundPaths, Surviving;
      DetachedCascadeIsExact(parents, doomed);
      parents := Detached(parents, doomed);
      var gone := Cascade(parents, doomed);
      ghost var before := nodes;
      ForgetRows(gone);
      assert nodes == Deleted(Db(before, edges, callees, callers), gone).nodes;
      parents := parents - gone;
      edges := Cut(edges, gone);
      callees, callers := Minus(callees, gone), Minus(callers, gone);
    }

    method ForgetRows(gone: set<Id>)
      requires cache.nodeById == nodes.Keys && MidNames(cache.nodesByQn, nodes, gone)
      modifies this`nodes, cache
      ensures nodes == old(nodes) - gone
      ensures cache.nodeById == nodes.Keys && MirrorsNames(cache.nodesByQn, nodes)
      ensures SoundPaths(old(cache.moduleNodesByFilePath), old(nodes)) ==>
                cache.moduleNodesByFilePath == Surviving(old(cache.moduleNodesByFilePath), gone)
    {
      hide SoundPaths, Surviving, Without;
      var rest := gone;
      ghost var before, slots := nodes, cache.moduleNodesByFilePath;
      assert before - (gone - rest) == before;
      NothingGone(slots, gone - rest);
      while rest != {}
        invariant rest <= gone && nodes == before - (gone - rest)
        invariant cache.nodeById == nodes.Keys && MidNames(cache.nodesByQn, nodes, rest)
        invariant SoundPaths(slots, before) ==> cache.moduleNodesByFilePath == Surviving(slots, gone - rest)
        decreases rest
      {
        var id :| id in rest;
        OneLess(before, gone, rest, id);
        OneSlotLess(slots, before, gone, rest, id);
        ForgetRow(id, rest);
        rest := rest - {id};
      }
      assert gone - rest == gone;
    }

    method ForgetRow(id: Id, ghost pending: set<Id>)
      requires id in pending && cache.nodeById == nodes.Keys && MidNames(cache.nodesByQn, nodes, pending)
      modifies this`nodes, cache
      ensures nodes == old(nodes) - {id}
      ensures cache.nodeById == nodes.Keys && MidNames(cache.nodesByQn, nodes, pending - {id})
      ensures id in old(nodes)
              && cache.moduleNodesByFilePath == Without(old(cache.moduleNodesByFilePath), old(nodes)[id].path, id)
    {
      RemovalSettlesNames(cache.nodesByQn, nodes, pending, id);
      cache.Remove(id, nodes[id]);
      nodes := nodes - {id};
    }

    /** A new row, with empty lists, for each node that kept none. */
    method InsertRows(f: File, kept: map<Name, Id>) returns (ids: map<Name, Id>)
      requires DistinctNames(f) && Injective(kept) && ReadyToInsert(f, kept)
      modifies this`nodes, this`callees, this`callers, this`nextId, cache
      ensures MidInsert(old(nodes), f, kept, old(nextId), |f.nodes|, nodes, ids, nextId, cache.Contents())
      ensures callees == WithRows(old(callees), nodes.Keys) && callers == WithRows(old(callers), nodes.Keys)
      ensures cache.moduleNodesByFilePath == WithNewModule(old(cache.moduleNodesByFilePath), f, kept, ids, |f.nodes|)
    {
      hide MidInsert, WithRows, WithNewModule, OnlyKeptNames, MirrorsNames;
      ids := kept;
      ghost var mid, first, callees0, callers0 := nodes, nextId, callees, callers;
      ghost var slots := cache.moduleNodesByFilePath;
      NoNewRows(callees, callers, nodes.Keys, slots, f, kept);
      InsertBegins(nodes, f, kept, nextId, cache.Contents());
      for i := 0 to |f.nodes|
        invariant MidInsert(mid, f, kept, first, i, nodes, ids, nextId, cache.Contents())
        invariant callees == WithRows(callees0, nodes.Keys) && callers == WithRows(callers0, nodes.Keys)
        invariant cache.moduleNodesByFilePath == WithNewModule(slots, f, kept, ids, i)
      {
        if f.nodes[i].qn !in kept {
          ids := InsertRow(f, kept, i, ids, mid, first, callees0, callers0, slots);
        } else {
          InsertSkips(mid, f, kept, first, i, nodes, ids, nextId, cache.Contents());
          OldModuleListed(slots, f, kept, ids, i);
        }
      }
    }

    method InsertRow(f: File, kept: map<Name, Id>, i: nat, ids: map<Name, Id>,
                     ghost mid: Nodes, ghost first: Id, ghost callees0: Lists, ghost callers0: Lists,
                     ghost slots: map<Path, Id>)
      returns (ids': map<Name, Id>)
      requires DistinctNames(f) && OnlyKeptNames(mid, f, kept) && i < |f.nodes| && f.nodes[i].qn !in kept
      requires MidInsert(mid, f, kept, first, i, nodes, ids, nextId, cache.Contents())
      requires callees == WithRows(callees0, nodes.Keys) && callers == WithRows(callers0, nodes.Keys)
      requires callees0.Keys == callers0.Keys == mid.Keys
      requires cache.moduleNodesByFilePath == WithNewModule(slots, f, kept, ids, i)
      modifies this`nodes, this`callees, this`callers, this`nextId, cache
      ensures MidInsert(mid, f, kept, first, i + 1, nodes, ids', nextId, cache.Contents())
      ensures callees == WithRows(callees0, nodes.Keys) && callers == WithRows(callers0, nodes.Keys)
      ensures cache.moduleNodesByFilePath == WithNewModule(slots, f, kept, ids', i + 1)
    {
      hide MidInsert, WithNewModule, OnlyKeptNames, WithRows;
      var id, row := nextId, RowOf(f, f.nodes[i]);
      InsertNext(mid, f, kept, first, i, nodes, ids, id, cache.Contents());
      NextIsNew(mid, f, kept, first, i, nodes, ids, id, cache.Contents());
      NewModuleListed(slots, f, kept, ids, i, id);
      NewRowListed(callees0, nodes.Keys, id);
      NewRowListed(callers0, nodes.Keys, id);
      AddRow(id, row);
      nextId := nextId + 1;
      ids' := ids[f.nodes[i].qn := id];
    }

    method AddRow(id: Id, row: Node)
      modifies this`nodes, this`callees, this`callers, cache
      ensures nodes == old(nodes)[id := row] && nodes.Keys == old(nodes).Keys + {id}
      ensures callees == old(callees)[id := []] && callers == old(callers)[id := []]
      ensures cache.Contents() == Added(old(cache.Contents()), id, row)
    {
      nodes := nodes[id := row];
      callees, callers := callees[id := []], callers[id := []];
      cache.Add(id, row);
    }

    // ---- Parents ----

    method LinkOwnParents(f: File, ids: map<Name, Id>)
      requires DistinctNames(f) && ids.Keys == Names(f) && Injective(ids)
      modifies this`parents
      ensures ParentsPassed(old(parents), f, ids, parents)
    {
      ghost var before := parents;
      for i := 0 to |f.nodes|
        invariant forall j :: 0 <= j < i ==>
                    f.nodes[j].qn in ids && ParentOf(parents, ids[f.nodes[j].qn]) == OwnParent(before, f.nodes[j], ids)
        invariant forall id :: (forall j :: 0 <= j < i && f.nodes[j].qn in ids ==> ids[f.nodes[j].qn] != id)
                    ==> ParentOf(parents, id) == ParentOf(before, id)
      {
        var x := f.nodes[i];
        assert x in f.nodes;
        assert forall j :: 0 <= j < i ==> f.nodes[j].qn != x.qn;
        match x.parentQn
        case None => parents := parents - {ids[x.qn]};
        case Some(q) =>
          if q in ids {
            parents := parents[ids[x.qn] := ids[q]];
          }
      }
    }

    /** Re-link the methods among `scope` by name, through the cache. */
    method LinkMethodParents(scope: set<Id>)
      requires scope <= nodes.Keys && MirrorsNames(cache.nodesByQn, nodes)
      modifies this`parents
      ensures MethodsLinked(old(parents), nodes, scope, parents)
      ensures forall m, q, last :: m in scope && nodes[m].kind.Method? && Below(nodes[m].qn, q, last) ==>
                ParentNamed(nodes, parents, m, q)
    {
      ghost var before := parents;
      var rest := scope;
      while rest != {}
        invariant rest <= scope && MethodsLinked(before, nodes, scope - rest, parents)
        decreases rest
      {
        var id :| id in rest;
        if nodes[id].kind.Method? {
          var p := ByName(ParentName(nodes[id].qn));
          parents := WithParent(parents, id, p);
        }
        rest := rest - {id};
      }
      assert scope - rest == scope;
      LinkedIsNamed(before, nodes, scope, parents);
    }

    /** The row with a name, if any. */
    method ByName(q: Name) returns (r: Option<Id>)
      requires MirrorsNames(cache.nodesByQn, nodes)
      ensures r == Lookup(nodes, q)
    {
      if q in cache.nodesByQn {
        r := Some(cache.nodesByQn[q]);
        assert Named(nodes, q, r.value);
      } else {
        r := None;
        assert forall id :: id in nodes ==> Holds(cache.nodesByQn, nodes[id].qn, id);
      }
      MirroredLookup(cache.nodesByQn, nodes, q, r);
    }

    // ---- Edges ----

    /** `_resolve_edge_target`: by name, or for INHERITS by a last segment that only one row fits. */
    method ResolveTarget(k: EdgeKey) returns (r: Option<Id>)
      requires MirrorsNames(cache.nodesByQn, nodes)
      ensures r == Resolve(nodes, k)
    {
      r := ByName(k.target);
      if r.None? && k.etype.Inherits? {
        var matches := ShortNameMatches(nodes, k.target);
        if |matches| == 1 {
          var id :| id in matches;
          OnlyElement(matches, id);
          r := Some(id);
        }
      }
    }

    /** Drop the edges of the kept rows, remembering what they were bound to. */
    method ClearEdges(keptRows: set<Id>) returns (outbound: set<Id>)
      modifies this`edges
      ensures outbound == Targets(old(edges), KeysFrom(old(edges), keptRows))
      ensures edges == WithoutSources(old(edges), keptRows)
    {
      outbound := Targets(edges, KeysFrom(edges, keptRows));
      edges := WithoutSources(edges, keptRows);
    }

    /** Insert each extracted edge once, bound if its target is known. */
    method InsertEdges(f: File, ids: map<Name, Id>) returns (seen: set<EdgeKey>, resolved: nat, unresolved: nat)
      requires MirrorsNames(cache.nodesByQn, nodes)
      modifies this`edges
      ensures seen == NewKeys(f, ids) && edges == WithNewEdges(old(edges), nodes, seen)
      ensures resolved == |OwnBound(edges, seen)| && unresolved == |OwnDangling(edges, seen)|
    {
      ghost var before := edges;
      seen, resolved, unresolved := {}, 0, 0;
      NoEdgesYet(edges, nodes);
      for i := 0 to |f.edges|
        invariant seen == KeysOf(f.edges[..i], ids)
        invariant MidEdges(before, nodes, edges, seen, resolved, unresolved)
      {
        var e := f.edges[i];
        KeysGrow(f.edges, ids, i);
        if e.source in ids {
          var k := EdgeKey(ids[e.source], e.etype, e.target);
          if k !in seen {
            resolved, unresolved := InsertEdge(k, before, seen, resolved, unresolved);
            seen := seen + {k};
          }
        }
      }
      assert f.edges[..|f.edges|] == f.edges;
    }

    method InsertEdge(k: EdgeKey, ghost before: Edges, ghost seen: set<EdgeKey>, resolved: nat, unresolved: nat)
      returns (resolved': nat, unresolved': nat)
      requires MirrorsNames(cache.nodesByQn, nodes) && k !in seen
      requires MidEdges(before, nodes, edges, seen, resolved, unresolved)
      modifies this`edges
      ensures MidEdges(before, nodes, edges, seen + {k}, resolved', unresolved')
    {
      resolved', unresolved' := resolved, unresolved;
      var target := ResolveTarget(k);
      EdgeAdded(before, nodes, seen, k);
      OwnBoundGrows(edges, seen, k, target);
      OwnDanglingGrows(edges, seen, k, target);
      edges := edges[k := target];
      if k.etype.Calls? {
        if target.Some? { resolved' := resolved + 1; } else { unresolved' := unresolved + 1; }
      }
    }

    /** Give every dangling edge to an affected name another chance. */
    method RebindEdges(names: set<Name>) returns (sources: set<Id>, targets: set<Id>, rebound: nat)
      requires MirrorsNames(cache.nodesByQn, nodes)
      modifies this`edges
      ensures edges == Rebound(old(edges), nodes, names)
      ensures sources == Sources(Candidates(old(edges), names))
      ensures targets == Targets(edges, CallsOnly(Candidates(old(edges), names)))
      ensures rebound == |NewlyBound(edges, Candidates(old(edges), names))|
    {
      ghost var before := edges;
      var candidates := Candidates(edges, names);
      sources, targets, rebound := Sources(candidates), {}, 0;
      var rest := candidates;
      NothingRebound(edges, nodes, candidates);
      while rest != {}
        invariant rest <= candidates <= before.Keys
        invariant MidRebind(before, nodes, edges, candidates - rest, targets, rebound)
        decreases rest
      {
        var k :| k in rest;
        OneMoreDone(candidates, rest, k);
        targets, rebound := RebindEdge(k, before, candidates - rest, targets, rebound);
        rest := rest - {k};
      }
      AllRebound(before, nodes, names, rest);
    }

    method RebindEdge(k: EdgeKey, ghost before: Edges, ghost done: set<EdgeKey>, targets: set<Id>, rebound: nat)
      returns (targets': set<Id>, rebound': nat)
      requires MirrorsNames(cache.nodesByQn, nodes) && k in before && k !in done
      requires MidRebind(before, nodes, edges, done, targets, rebound)
      modifies this`edges
      ensures MidRebind(before, nodes, edges, done + {k}, targets', rebound')
    {
      var target := ResolveTarget(k);
      RebindStep(before, nodes, edges, done, targets, rebound, k, target);
      edges := edges[k := target];
      if target.Some? && k.etype.Calls? {
        targets', rebound' := targets + {target.value}, rebound + 1;
      } else {
        targets', rebound' := targets, rebound;
      }
    }

    // ---- Replacing a file ----

    /** Rows kept and rows dropped; what is left of the file is what it keeps. */
    method KeepThenDrop(f: File, kept: map<Name, Id>) returns (ghost keptRows: Nodes)
      requires Valid() && DistinctNames(f) && Matching(nodes, f, kept) && NamesFree(nodes, f)
      modifies this`nodes, this`parents, this`edges, this`callees, this`callers, cache
      ensures KeptAndDropped(old(Contents()), f, kept, keptRows, Contents())
      ensures parents == AfterDrop(old(parents), Doomed(old(nodes), f, kept))
      ensures ReadyToInsert(f, kept)
      ensures SoundPaths(old(cache.moduleNodesByFilePath), old(nodes)) ==>
                cache.moduleNodesByFilePath == Surviving(old(cache.moduleNodesByFilePath), Doomed(old(nodes), f, kept))
    {
      hide SoundPaths, Surviving;
      hide InStep, MidKeep, MidNames, RowsKept, Doomed, Cut, Minus, MirrorsNames, AfterDrop, NamesFree, Matching,
           Deleted;
      var doomed := Doomed(nodes, f, kept);
      ghost var before := Contents();
      TableInStep(before, parents, nextId, cache.Contents());
      KeepRows(f, kept);
      keptRows := nodes;
      KeptRowsToDrop(before.nodes, f, kept, keptRows, nextId, cache.Contents());
      ghost var middle := Contents();
      SlotsStaySound(before.nodes, f, kept, keptRows, cache.Contents());
      DropRows(doomed);
      DroppedListed(before, keptRows, middle, doomed);
    }

    ghost predicate ReadyToInsert(f: File, kept: map<Name, Id>)
      reads this, cache
    {
      && kept.Values <= nodes.Keys && OnlyKeptNames(nodes, f, kept)
      && (forall id :: id in nodes ==> id < nextId) && callees.Keys == callers.Keys == nodes.Keys
      && cache.nodeById == nodes.Keys && MirrorsNames(cache.nodesByQn, nodes)
    }

    /** The rows kept, dropped and inserted, with the cache, the edges and the lists in step. */
    method SwapRows(f: File, kept: map<Name, Id>) returns (ids: map<Name, Id>)
      requires Valid() && DistinctNames(f) && Matching(nodes, f, kept) && NamesFree(nodes, f)
      modifies this, cache
      ensures RowsSwapped(old(Contents()), f, kept, ids, Contents(), nextId, cache.Contents())
      ensures parents == AfterDrop(old(parents), Doomed(old(nodes), f, kept))
      ensures SoundPaths(old(cache.moduleNodesByFilePath), old(nodes)) ==>
                cache.moduleNodesByFilePath
                == SlotsAfter(old(cache.moduleNodesByFilePath), f, kept, ids, Doomed(old(nodes), f, kept))
    {
      hide MidInsert, RowsSwapped, KeptAndDropped, SoundPaths, Surviving, WithNewModule;
      ghost var before, first := Contents(), nextId;
      ghost var keptRows := KeepThenDrop(f, kept);
      ghost var mid := Contents();
      ids := InsertRows(f, kept);
      AllSwapped(before, f, kept, keptRows, mid, first, Contents(), ids, nextId, cache.Contents());
    }

    /** And the parents: first those named in the file, then the methods'. */
    method ReplaceRows(f: File, kept: map<Name, Id>) returns (ids: map<Name, Id>)
      requires Valid() && DistinctNames(f) && Matching(nodes, f, kept) && NamesFree(nodes, f)
      modifies this, cache
      ensures RowsSwapped(old(Contents()), f, kept, ids, Contents(), nextId, cache.Contents())
      ensures ParentsRelinked(old(nodes), old(parents), f, kept, ids, nodes, parents)
      ensures SoundPaths(old(cache.moduleNodesByFilePath), old(nodes)) ==>
                cache.moduleNodesByFilePath
                == SlotsAfter(old(cache.moduleNodesByFilePath), f, kept, ids, Doomed(old(nodes), f, kept))
    {
      hide NodesRewritten, Matching, Injective, ParentsPassed, MethodsLinked, SoundPaths, SlotsAfter;
      var mayMove := ParentsMayMove(nodes, f, kept);
      ids := SwapRows(f, kept);
      LinkOwnParents(f, ids);
      ghost var passed := parents;
      IdsInNodes(old(nodes), f, kept, ids, nodes);
      LinkMethodParents(if mayMove then nodes.Keys else ids.Values);
      assert MethodsLinked(passed, nodes, LinkScope(old(nodes), f, kept, ids, nodes), parents);
    }

    /** Clear the kept rows' edges, insert the file's own, and rebind dangling edges to `names`. */
    method ReplaceEdges(f: File, keptRows: set<Id>, ids: map<Name, Id>, names: set<Name>)
      returns (rebuilt: set<Id>, touched: set<Id>, counts: Counts)
      requires MirrorsNames(cache.nodesByQn, nodes)
      modifies this`edges
      ensures EdgesReplaced(old(edges), nodes, f, keptRows, ids, names, edges, rebuilt, touched, counts)
    {
      hide WithNewEdges, WithoutSources, Candidates, Rebound, Targets, KeysFrom, Sources, CallsOnly, NewKeys;
      hide OwnBound, OwnDangling, NewlyBound, MirrorsNames;
      var outbound := ClearEdges(keptRows);
      var own, resolved, unresolved := InsertEdges(f, ids);
      var linked := Targets(edges, own);
      var sources, targets, rebound := RebindEdges(names);
      rebuilt, touched := ids.Values + targets, outbound + sources + linked;
      counts := Counts(resolved + rebound, unresolved as int - rebound);
    }

    /**
     * Replace one file.  `c` says whether the targets of deleted rows are collected: `AsWritten`
     * they are not.  An exact cache stays exact if and only if the file's module keeps no row but
     * a module's, and methods' parents stay right under the conditions of `LocalLinkingSafe`.
     */
    method PersistGraph(f: File, c: Collection)
      returns (r: BuildResult, ghost kept: map<Name, Id>, ghost ids: map<Name, Id>)
      requires Valid() && DistinctNames(f) && DistinctKeys(f) && NamesFree(nodes, f)
      requires f.nodes != [] ==> HasModule(f)
      modifies this, cache
      ensures Valid()
      ensures f.nodes == [] ==> r == NOTHING_BUILT && Contents() == old(Contents()) && parents == old(parents)
                                && cache.Contents() == old(cache.Contents())
      ensures f.nodes != [] ==>
                && Persisted(old(Contents()), f, kept, ids, c, Contents()) && RowsReused(old(nodes), f, kept)
                && r == BuildResult(|ids|, [f.path], CountsOf(old(Contents()), f, kept, ids, nodes))
                && ParentsRelinked(old(nodes), old(parents), f, kept, ids, nodes, parents)
      ensures f.nodes != [] && Mirrors(old(cache.Contents()), old(nodes)) && Indexable(nodes) ==>
                (Mirrors(cache.Contents(), nodes) <==> ModuleRowsStay(old(nodes), f, kept))
      ensures f.nodes != [] ==>
                && (forall x :: x in f.nodes ==>
                      && x.qn in ids && ids[x.qn] in nodes
                      && nodes[ids[x.qn]] == Node(f.path, x.key, x.qn, x.kind, x.name))
                && (forall id :: id in old(nodes) && old(nodes)[id].path != f.path ==>
                      id in nodes && nodes[id] == old(nodes)[id])
                && (forall id :: id in nodes ==>
                      id in ids.Values || (id in old(nodes) && old(nodes)[id].path != f.path))
      ensures f.nodes != [] ==> OwnNodesPlaced(f, ids, nodes, parents)
      ensures f.nodes != [] && ParentsStayRight(old(nodes), old(parents), f, kept, nodes) ==>
                MethodParentsRight(nodes, parents) && ParentsNamed(nodes, parents)
    {
      hide OwnNodesPlaced, ParentsNamed;
      hide Persisted, CountsOf, ParentsRelinked, ParentsStayRight, MethodParentsRight, Mirrors, Indexable, RowsReused;
      hide InStep, DistinctNames, DistinctKeys, NamesFree, ModuleRowsStay;
      if f.nodes == [] {
        kept, ids := map[], map[];
        return NOTHING_BUILT, kept, ids;
      }
      ghost var before, parents0, ix := Contents(), parents, cache.Contents();
      TableInStep(before, parents, nextId, ix);
      r, kept, ids := ReplaceFile(f, c);
      CacheOutcome(before, f, kept, ids, c, Contents(), parents, nextId, ix, cache.Contents());
      ParentsOutcome(before, f, kept, ids, c, Contents(), parents0, parents);
      RowsOutcome(before, f, kept, ids, c, Contents());
    }

    /** The node and edge tables, and what the lists owe a rebuild. */
    method ReplaceTables(f: File, kept: map<Name, Id>)
      returns (ids: map<Name, Id>, rebuilt: set<Id>, touched: set<Id>, counts: Counts)
      requires f.nodes != [] && Valid() && DistinctNames(f) && Matching(nodes, f, kept) && NamesFree(nodes, f)
      modifies this, cache
      ensures TablesReplaced(old(Contents()), f, kept, ids, Contents(), nextId, cache.Contents(), rebuilt, touched,
                             counts)
      ensures nodes.Keys == callees.Keys == callers.Keys && rebuilt != {}
      ensures ParentsRelinked(old(nodes), old(parents), f, kept, ids, nodes, parents)
      ensures AmongRows(parents, nodes.Keys)
      ensures SoundPaths(old(cache.moduleNodesByFilePath), old(nodes)) ==>
                cache.moduleNodesByFilePath
                == SlotsAfter(old(cache.moduleNodesByFilePath), f, kept, ids, Doomed(old(nodes), f, kept))
    {
      hide Matching, RowsSwapped, EdgesReplaced, ParentsRelinked, AmongRows, NamesFree, SoundPaths, SlotsAfter;
      hide Affected, MirrorsNames, NodesRewritten, InStep, DistinctNames, Cut, Doomed, TablesReplaced, Names;
      ghost var before, parents0 := Contents(), parents;
      ParentsInStep(before, parents, nextId, cache.Contents());
      var names := Affected(nodes, f, Doomed(nodes, f, kept));
      ids := ReplaceRows(f, kept);
      ghost var swapped := Contents();
      RowsMirrored(before, f, kept, ids, swapped, nextId, cache.Contents());
      rebuilt, touched, counts := ReplaceEdges(f, kept.Values, ids, names);
      RowsToRebuild(f, ids, swapped.edges, nodes, kept.Values, names, edges, rebuilt, touched, counts);
      ParentsStayRows(before.nodes, f, kept, ids, nodes, parents0, parents);
      BothReplaced(before, f, kept, ids, swapped, Contents(), nextId, cache.Contents(), names, rebuilt, touched,
                   counts);
    }

    method ReplaceFile(f: File, c: Collection)
      returns (r: BuildResult, ghost kept: map<Name, Id>, ghost ids: map<Name, Id>)
      requires f.nodes != [] && Valid() && DistinctNames(f) && DistinctKeys(f) && NamesFree(nodes, f)
      modifies this, cache
      ensures Valid() && Persisted(old(Contents()), f, kept, ids, c, Contents()) && RowsReused(old(nodes), f, kept)
      ensures r == BuildResult(|ids|, [f.path], CountsOf(old(Contents()), f, kept, ids, nodes))
      ensures ParentsRelinked(old(nodes), old(parents), f, kept, ids, nodes, parents)
      ensures SoundPaths(old(cache.moduleNodesByFilePath), old(nodes)) ==>
                cache.moduleNodesByFilePath
                == SlotsAfter(old(cache.moduleNodesByFilePath), f, kept, ids, Doomed(old(nodes), f, kept))
    {
      hide Matching, TablesReplaced, Rebuilt, Persisted, ParentsRelinked, InStep, CountsOf, SoundPaths, SlotsAfter;
      hide DoomedTargets, Doomed, AmongRows, CallPairs, NamesFree, DistinctNames, DistinctKeys, RowsReused;
      ghost var before := Contents();
      var matched := MatchRows(f);
      var doomed := Doomed(nodes, f, matched);
      var ofDoomed := DoomedTargets(edges, doomed, c);
      var rows, rebuilt, touched, counts := ReplaceTables(f, matched);
      ghost var replaced := Contents();
      var peers := touched + ofDoomed - rebuilt;
      callees, callers := RebuildScoped(edges, callees, callers, nodes.Keys, rebuilt, peers, doomed);
      FilePersisted(before, f, matched, rows, c, replaced, Contents(), parents, nextId, cache.Contents(),
                    rebuilt, touched, peers, counts);
      kept, ids := matched, rows;
      r := BuildResult(|rows|, [f.path], counts);
    }

    /**
     * `_persist_preparsed_graph`: one file inside a savepoint.  Whatever the attempt had done to the
     * tables and the cache when it `raises`, the file is skipped and both are as before.
     */
    method PersistInSavepoint(f: File, c: Collection, raises: bool)
      returns (r: BuildResult, ghost kept: map<Name, Id>, ghost ids: map<Name, Id>)
      requires Valid() && DistinctNames(f) && DistinctKeys(f) && (f.nodes != [] ==> HasModule(f))
      modifies this, cache
      ensures Valid()
      ensures raises || f.nodes == [] || !NamesFree(old(nodes), f) ==>
                && r == NOTHING_BUILT && Contents() == old(Contents()) && parents == old(parents)
                && (Mirrors(old(cache.Contents()), nodes) && Indexable(nodes) ==> Mirrors(cache.Contents(), nodes))
      ensures !raises && f.nodes != [] && NamesFree(old(nodes), f) ==>
                && Persisted(old(Contents()), f, kept, ids, c, Contents()) && RowsReused(old(nodes), f, kept)
                && r == BuildResult(|ids|, [f.path], CountsOf(old(Contents()), f, kept, ids, nodes))
                && ParentsRelinked(old(nodes), old(parents), f, kept, ids, nodes, parents)
                && (Mirrors(old(cache.Contents()), old(nodes)) && Indexable(nodes) ==>
                      (Mirrors(cache.Contents(), nodes) <==> ModuleRowsStay(old(nodes), f, kept)))
                && OwnNodesPlaced(f, ids, nodes, parents)
                && (ParentsStayRight(old(nodes), old(parents), f, kept, nodes) ==>
                      MethodParentsRight(nodes, parents) && ParentsNamed(nodes, parents))
    {
      hide OwnNodesPlaced, ParentsNamed;
      hide InStep, Persisted, CountsOf, ParentsRelinked, ParentsStayRight, MethodParentsRight, Mirrors, Indexable;
      hide DistinctNames, DistinctKeys, NamesFree, RowsReused, ModuleRowsStay, HasModule;
      if raises || !NamesFree(nodes, f) {
        RollBack();
        kept, ids := map[], map[];
        return NOTHING_BUILT, kept, ids;
      }
      r, kept, ids := PersistGraph(f, c);
    }

    /**
     * The attempt leaves anything behind; the savepoint restores the tables, `_refresh_cache_from_db`
     * all three dictionaries.
     */
    method RollBack()
      requires Valid()
      modifies this, cache
      ensures Valid() && Contents() == old(Contents()) && parents == old(parents)
      ensures Indexable(nodes) ==> Mirrors(cache.Contents(), nodes)
    {
      hide AmongRows, References, MirrorsNames, MirrorsModules, Indexable;
      TableInStep(Contents(), parents, nextId, cache.Contents());
      var savepoint, parents0, next := Contents(), parents, nextId;
      nodes, edges, callees, callers, parents, nextId := *, *, *, *, *, *;
      cache.nodeById, cache.nodesByQn, cache.moduleNodesByFilePath := *, *, *;
      nodes, edges, callees, callers := savepoint.nodes, savepoint.edges, savepoint.callees, savepoint.callers;
      parents, nextId := parents0, next;
      cache.Refresh(nodes);
    }

    // ---- Deleting files ----

    /** Rows, their edges and the edges to them; children elsewhere are detached, not taken along. */
    method DeleteRows(gone: set<Id>)
      requires Valid() && gone <= nodes.Keys
      modifies this, cache
      ensures Valid() && Contents() == Deleted(old(Contents()), gone) && parents == AfterDrop(old(parents), gone)
      ensures Mirrors(old(cache.Contents()), old(nodes)) ==> Mirrors(cache.Contents(), nodes)
      ensures MethodParentsRight(old(nodes), old(parents)) ==> MethodParentsRight(nodes, parents)
    {
      hide InStep, MidNames, MirrorsNames, AfterDrop, Cascade, Detached, SoundPaths, Surviving, MirrorsModules;
      hide MethodParentsRight;
      ghost var before, parents0, ix := Contents(), parents, cache.Contents();
      TableInStep(before, parents, nextId, cache.Contents());
      DeletionBegins(before, parents, gone, nextId, cache.Contents());
      DropRows(gone);
      DeletionInStep(before, parents0, gone, nextId, cache.Contents());
      DeletionMirrored(before, gone, ix, cache.Contents());
      if MethodParentsRight(before.nodes, parents0) {
        DeleteKeepsMethodParents(before.nodes, parents0, gone);
        assert nodes == before.nodes - gone;
      }
    }

    /** `_collect_delete_peer_ids`, then `_delete_source_file`. */
    method DeleteSourceFile(path: Path) returns (peers: set<Id>)
      requires Valid()
      modifies this, cache
      ensures Valid() && Contents() == Deleted(old(Contents()), FileRows(old(nodes), path))
      ensures parents == AfterDrop(old(parents), FileRows(old(nodes), path))
      ensures Mirrors(old(cache.Contents()), old(nodes)) ==> Mirrors(cache.Contents(), nodes)
      ensures MethodParentsRight(old(nodes), old(parents)) ==> MethodParentsRight(nodes, parents)
      ensures peers == DeletePeers(old(edges), FileRows(old(nodes), path))
    {
      var gone := FileRows(nodes, path);
      peers := DeletePeers(edges, gone);
      DeleteRows(gone);
    }

    /** `rebuild_relationships_scoped`; as written it loads only the touched rows. */
    method RebuildRelationshipsScoped(touched: set<Id>, loadsAll: bool)
      requires Valid()
      modifies this`callees, this`callers
      ensures Valid()
      ensures Refreshed(old(Contents()), touched, if loadsAll then nodes.Keys else touched * nodes.Keys, Contents())
    {
      hide AmongRows, References, MirrorsNames, CallPairs, Relisted, Between, Swept;
      var given := if loadsAll then nodes.Keys else touched * nodes.Keys;
      callees, callers := RebuildScoped(edges, callees, callers, given, touched, {}, {});
    }

    /**
     * The start of a full walk, up to its first commit: prune the files that are gone, and rebuild
     * every list unless the files present are exactly the files indexed.
     */
    method BeginWalk(present: set<Path>)
      requires Valid()
      modifies this, cache
      ensures Valid()
      ensures WalkBegun(old(Contents()), present, Contents())
      ensures Mirrors(old(cache.Contents()), old(nodes)) ==> Mirrors(cache.Contents(), nodes)
      ensures MethodParentsRight(old(nodes), old(parents)) ==> MethodParentsRight(nodes, parents)
    {
      hide ArraysExact, AmongRows, References, MirrorsNames, CallPairs, Between, Deleted;
      var changed := present != ModulePaths(nodes);
      DeleteRows(PrunedRows(nodes, present));
      if changed {
        callees, callers := RebuildAll(edges, callees, callers, nodes.Keys);
      }
    }
  }

  function DoomedTargets(edges: Edges, doomed: set<Id>, c: Collection): set<Id> {
    if c.AsWritten? then {} else Targets(edges, KeysFrom(edges, doomed)) - doomed
  }

  ghost predicate EdgesReplaced(edges: Edges, nodes: Nodes, f: File, keptRows: set<Id>, ids: map<Name, Id>,
                                names: set<Name>,
                                edges': Edges, rebuilt: set<Id>, touched: set<Id>, counts: Counts) {
    var own := NewKeys(f, ids);
    var inserted := WithNewEdges(WithoutSources(edges, keptRows), nodes, own);
    var candidates := Candidates(inserted, names);
    && edges' == Rebound(inserted, nodes, names)
    && rebuilt == ids.Values + Targets(edges', CallsOnly(candidates))
    && touched == Targets(edges, KeysFrom(edges, keptRows)) + Sources(candidates) + Targets(inserted, own)
    && counts == Reported(inserted, edges', own, candidates)
  }

  /** Rows swapped, edges replaced; the lists are those of the rows, not yet rebuilt. */
  ghost predicate TablesReplaced(db: Db, f: File, kept: map<Name, Id>, ids: map<Name, Id>, db': Db, next: Id, ix: Index,
                                 rebuilt: set<Id>, touched: set<Id>, counts: Counts) {
    var doomed := Doomed(db.nodes, f, kept);
    && RowsSwapped(db, f, kept, ids, db'.(edges := Cut(db.edges, doomed)), next, ix)
    && EdgesReplaced(Cut(db.edges, doomed), db'.nodes, f, kept.Values, ids, Affected(db.nodes, f, doomed),
                     db'.edges, rebuilt, touched, counts)
  }

  lemma BothReplaced(db: Db, f: File, kept: map<Name, Id>, ids: map<Name, Id>, swapped: Db, db': Db, next: Id,
                     ix: Index,
                     names: set<Name>, rebuilt: set<Id>, touched: set<Id>, counts: Counts)
    requires RowsSwapped(db, f, kept, ids, swapped, next, ix) && db' == swapped.(edges := db'.edges)
    requires names == Affected(db.nodes, f, Doomed(db.nodes, f, kept))
    requires EdgesReplaced(swapped.edges, swapped.nodes, f, kept.Values, ids, names, db'.edges, rebuilt, touched,
                           counts)
    ensures TablesReplaced(db, f, kept, ids, db', next, ix, rebuilt, touched, counts)
  {
    hide EdgesReplaced;
    assert db'.(edges := swapped.edges) == swapped;
  }

  lemma DeletionBegins(db: Db, parents: Parents, gone: set<Id>, next: Id, ix: Index)
    requires InStep(db, parents, next, ix) && gone <= db.nodes.Keys
    ensures ix.ids == db.nodes.Keys && MidNames(ix.byQn, db.nodes, gone)
  {
    MirroredNamesUnique(ix.byQn, db.nodes);
  }

  lemma DeletionInStep(db: Db, parents: Parents, gone: set<Id>, next: Id, ix: Index)
    requires References(db.nodes, db.edges) && db.callees.Keys == db.callers.Keys == db.nodes.Keys
    requires AmongRows(parents, db.nodes.Keys) && forall id :: id in db.nodes ==> id < next
    requires ix.ids == Deleted(db, gone).nodes.Keys && MirrorsNames(ix.byQn, Deleted(db, gone).nodes)
    ensures InStep(Deleted(db, gone), AfterDrop(parents, gone), next, ix)
  {
    hide MirrorsNames;
  }

  lemma TableInStep(db: Db, parents: Parents, next: Id, ix: Index)
    requires InStep(db, parents, next, ix)
    ensures NamesUnique(db.nodes) && References(db.nodes, db.edges)
             && db.callees.Keys == db.callers.Keys == db.nodes.Keys
    ensures AmongRows(parents, db.nodes.Keys) && forall id :: id in db.nodes ==> id < next
    ensures ix.ids == db.nodes.Keys && MirrorsNames(ix.byQn, db.nodes)
  {
    MirroredNamesUnique(ix.byQn, db.nodes);
  }

  lemma ParentsInStep(db: Db, parents: Parents, next: Id, ix: Index)
    requires InStep(db, parents, next, ix)
    ensures AmongRows(parents, db.nodes.Keys)
  {
  }

  lemma RowsMirrored(db: Db, f: File, kept: map<Name, Id>, ids: map<Name, Id>, db': Db, next: Id, ix: Index)
    requires RowsSwapped(db, f, kept, ids, db', next, ix)
    ensures ix.ids == db'.nodes.Keys && MirrorsNames(ix.byQn, db'.nodes) && forall id :: id in db'.nodes ==> id < next
    ensures db'.callees.Keys == db'.callers.Keys == db'.nodes.Keys
    ensures NodesRewritten(db.nodes, f, kept, ids, db'.nodes) && ids.Keys == Names(f)
    ensures db'.edges == Cut(db.edges, Doomed(db.nodes, f, kept))
  {
  }

  /** Something is rebuilt, since the file has nodes. */
  lemma RowsToRebuild(f: File, ids: map<Name, Id>, edges: Edges, nodes: Nodes, keptRows: set<Id>, names: set<Name>,
                      edges': Edges, rebuilt: set<Id>, touched: set<Id>, counts: Counts)
    requires f.nodes != [] && ids.Keys == Names(f)
    requires EdgesReplaced(edges, nodes, f, keptRows, ids, names, edges', rebuilt, touched, counts)
    ensures rebuilt != {}
  {
    hide Rebound, Reported;
    var x := f.nodes[0];
    assert x in f.nodes && x.qn in ids;
    assert ids[x.qn] in rebuilt;
  }

  /** The steps of the call add up to what `Persisted` says of it. */
  lemma FilePersisted(db: Db, f: File, kept: map<Name, Id>, ids: map<Name, Id>, c: Collection, replaced: Db, db': Db,
                      parents: Parents, next: Id, ix: Index,
                      rebuilt: set<Id>, touched: set<Id>, peers: set<Id>, counts: Counts)
    requires TablesReplaced(db, f, kept, ids, replaced, next, ix, rebuilt, touched, counts)
    requires db' == replaced.(callees := db'.callees, callers := db'.callers) && AmongRows(parents, db'.nodes.Keys)
    requires peers == touched + DoomedTargets(db.edges, Doomed(db.nodes, f, kept), c) - rebuilt
    requires Rebuilt(replaced.callees, replaced.callers, db'.callees, db'.callers, CallPairs(db'.edges), db'.nodes.Keys,
                     rebuilt, peers, Doomed(db.nodes, f, kept))
    ensures Persisted(db, f, kept, ids, c, db') && counts == CountsOf(db, f, kept, ids, db'.nodes)
    ensures InStep(db', parents, next, ix)
  {
    hide NodesRewritten, Assigned, Matching, NamesUnique, DistinctNames, MirrorsNames, AmongRows, Relisted;
    hide WithNewEdges, WithoutSources, Candidates, Rebound, Targets, KeysFrom, Sources, CallsOnly, NewKeys, Cut;
    hide Doomed, Affected, Reported, CallPairs, References, Between, Swept;
    FinalReferences(db.nodes, db.edges, f, kept, ids, db'.nodes);
  }

  ghost predicate AmongRows(parents: Parents, rows: set<Id>) {
    forall id :: id in parents ==> id in rows && parents[id] in rows
  }

  lemma PassedAmongRows(parents: Parents, f: File, ids: map<Name, Id>, passed: Parents, rows: set<Id>)
    requires AmongRows(parents, rows) && ids.Values <= rows && ids.Keys == Names(f)
    requires ParentsPassed(parents, f, ids, passed)
    ensures AmongRows(passed, rows)
  {
    forall id | id in passed
      ensures id in rows && passed[id] in rows
    {
      assert ParentOf(passed, id).Some?;
      if id in ids.Values {
        var q :| q in ids && ids[q] == id;
        var x :| x in f.nodes && x.qn == q;
        assert ParentOf(passed, ids[x.qn]) == OwnParent(parents, x, ids);
      }
    }
  }

  lemma LinkedAmongRows(parents: Parents, nodes: Nodes, scope: set<Id>, linked: Parents)
    requires AmongRows(parents, nodes.Keys) && MethodsLinked(parents, nodes, scope, linked)
    ensures AmongRows(linked, nodes.Keys)
  {
    forall id | id in linked
      ensures id in nodes && linked[id] in nodes
    {
      assert ParentOf(linked, id).Some?;
    }
  }

  lemma ParentsStayRows(nodes: Nodes, f: File, kept: map<Name, Id>, ids: map<Name, Id>, nodes': Nodes, parents: Parents,
                        parents': Parents)
    requires AmongRows(parents, nodes.Keys)
    requires NodesRewritten(nodes, f, kept, ids, nodes') && ids.Keys == Names(f)
    requires ParentsRelinked(nodes, parents, f, kept, ids, nodes', parents')
    ensures AmongRows(parents', nodes'.Keys)
  {
    hide ParentsPassed, MethodsLinked;
    var passed: Parents :| ParentsPassed(AfterDrop(parents, Doomed(nodes, f, kept)), f, ids, passed)
                           && MethodsLinked(passed, nodes', LinkScope(nodes, f, kept, ids, nodes'), parents');
    PassedAmongRows(AfterDrop(parents, Doomed(nodes, f, kept)), f, ids, passed, nodes'.Keys);
    LinkedAmongRows(passed, nodes', LinkScope(nodes, f, kept, ids, nodes'), parents');
  }

  /** All methods are re-linked, or their parents were right and only this file's need it. */
  ghost predicate ParentsStayRight(nodes: Nodes, parents: Parents, f: File, kept: map<Name, Id>, nodes': Nodes) {
    ParentsMayMove(nodes, f, kept) || (LocalLinkingSafe(nodes, f, kept, nodes') && MethodParentsRight(nodes, parents))
  }

  /** The table afterwards: the rows of the other files, and one row for each of the file's nodes. */
  lemma RowsOutcome(db: Db, f: File, kept: map<Name, Id>, ids: map<Name, Id>, c: Collection, db': Db)
    requires References(db.nodes, db.edges) && Persisted(db, f, kept, ids, c, db')
    ensures forall x :: x in f.nodes ==>
              && x.qn in ids && ids[x.qn] in db'.nodes
              && db'.nodes[ids[x.qn]] == Node(f.path, x.key, x.qn, x.kind, x.name)
    ensures forall id :: id in db.nodes && db.nodes[id].path != f.path ==>
              id in db'.nodes && db'.nodes[id] == db.nodes[id]
    ensures forall id :: id in db'.nodes ==> id in ids.Values || (id in db.nodes && db.nodes[id].path != f.path)
  {
    hide Rebuilt, References, ScopeOf, EdgeStages;
    forall id | id in db.nodes && db.nodes[id].path != f.path
      ensures id in db'.nodes && db'.nodes[id] == db.nodes[id]
    {
      OutsideRowStays(db.nodes, db.edges, f, kept, ids, db'.nodes, id);
    }
    forall id | id in db'.nodes
      ensures id in ids.Values || (id in db.nodes && db.nodes[id].path != f.path)
    {
      NewTableRow(db.nodes, db.edges, f, kept, ids, db'.nodes, id);
    }
  }

  lemma ParentsOutcome(db: Db, f: File, kept: map<Name, Id>, ids: map<Name, Id>, c: Collection, db': Db,
                       parents: Parents, parents': Parents)
    requires NamesUnique(db.nodes) && References(db.nodes, db.edges) && Persisted(db, f, kept, ids, c, db')
    requires ParentsRelinked(db.nodes, parents, f, kept, ids, db'.nodes, parents')
    ensures OwnNodesPlaced(f, ids, db'.nodes, parents')
    ensures ParentsStayRight(db.nodes, parents, f, kept, db'.nodes) ==>
              MethodParentsRight(db'.nodes, parents') && ParentsNamed(db'.nodes, parents')
  {
    hide Rebuilt, NodesRewritten, Assigned, Matching, References, NamesUnique, ParentsRelinked, ParentsMayMove;
    hide LocalLinkingSafe, MethodParentsRight, ParentsNamed, OwnNodesPlaced;
    PersistPlacesOwnNodes(db.nodes, db.edges, f, kept, ids, db'.nodes, parents, parents');
    RightIsNamed(db'.nodes, parents');
    if ParentsStayRight(db.nodes, parents, f, kept, db'.nodes) {
      PersistKeepsMethodParents(db.nodes, db.edges, f, kept, ids, db'.nodes, parents, parents');
    }
  }

  lemma CacheOutcome(db: Db, f: File, kept: map<Name, Id>, ids: map<Name, Id>, c: Collection, db': Db,
                     parents': Parents,
                     next: Id, ix: Index, ix': Index)
    requires HasModule(f) && References(db.nodes, db.edges) && Persisted(db, f, kept, ids, c, db')
    requires InStep(db', parents', next, ix')
    requires SoundPaths(ix.byPath, db.nodes) ==>
               ix'.byPath == SlotsAfter(ix.byPath, f, kept, ids, Doomed(db.nodes, f, kept))
    ensures Mirrors(ix, db.nodes) && Indexable(db'.nodes) ==>
              (Mirrors(ix', db'.nodes) <==> ModuleRowsStay(db.nodes, f, kept))
  {
    hide Rebuilt, NodesRewritten, Assigned, Matching, References, NamesUnique, MirrorsNames, SlotsAfter, ModuleRowsStay;
    hide Indexable, AmongRows, HasModule;
    if Mirrors(ix, db.nodes) && Indexable(db'.nodes) {
      SlotsMirrorIff(db.nodes, db.edges, f, kept, ids, db'.nodes, ix.byPath);
    }
  }

  lemma DeletionMirrored(db: Db, gone: set<Id>, ix: Index, ix': Index)
    requires SoundPaths(ix.byPath, db.nodes) ==> ix'.byPath == Surviving(ix.byPath, gone)
    requires ix'.ids == Deleted(db, gone).nodes.Keys && MirrorsNames(ix'.byQn, Deleted(db, gone).nodes)
    ensures Mirrors(ix, db.nodes) ==> Mirrors(ix', Deleted(db, gone).nodes)
  {
    hide MirrorsNames;
    if Mirrors(ix, db.nodes) {
      forall id | id in Deleted(db, gone).nodes && db.nodes[id].kind.Module?
        ensures Holds(ix'.byPath, db.nodes[id].path, id)
      {
        assert Holds(ix.byPath, db.nodes[id].path, id);
      }
    }
  }

  lemma NothingGone(byPath: map<Path, Id>, gone: set<Id>)
    requires gone == {}
    ensures Surviving(byPath, gone) == byPath
  {
  }

  lemma OneSlotLess(byPath: map<Path, Id>, nodes: Nodes, gone: set<Id>, rest: set<Id>, id: Id)
    requires rest <= gone && id in rest && id in nodes
    ensures SoundPaths(byPath, nodes) ==>
              Surviving(byPath, gone - (rest - {id})) == Without(Surviving(byPath, gone - rest), nodes[id].path, id)
  {
    hide SoundPaths, Surviving, Without;
    if SoundPaths(byPath, nodes) {
      SurvivingOneMore(byPath, nodes, gone - rest, id);
      assert gone - (rest - {id}) == gone - rest + {id};
    }
  }

  lemma NoNewRows(callees: Lists, callers: Lists, rows: set<Id>, slots: map<Path, Id>, f: File, kept: map<Name, Id>)
    requires callees.Keys == callers.Keys == rows
    ensures callees == WithRows(callees, rows) && callers == WithRows(callers, rows)
    ensures slots == WithNewModule(slots, f, kept, kept, 0)
  {
  }

  lemma NextIsNew(mid: Nodes, f: File, kept: map<Name, Id>, first: Id, i: nat, now: Nodes, ids: map<Name, Id>,
                  next: Id, ix: Index)
    requires DistinctNames(f) && i < |f.nodes| && f.nodes[i].qn !in kept
    requires MidInsert(mid, f, kept, first, i, now, ids, next, ix)
    ensures f.nodes[i].qn !in ids && NamesUpTo(f, i) <= ids.Keys && next !in mid && next !in now
  {
    NamesGrow(f, i);
  }

  lemma SlotsStaySound(before: Nodes, f: File, kept: map<Name, Id>, keptRows: Nodes, ix: Index)
    requires Matching(before, f, kept) && MidKeep(before, f, kept, |f.nodes|, keptRows, ix)
    ensures SoundPaths(ix.byPath, before) ==> SoundPaths(ix.byPath, keptRows)
  {
    hide SoundPaths, MidNames, RowsKept;
    if SoundPaths(ix.byPath, before) {
      KeptSlotsSound(before, f, kept, keptRows, ix.byPath);
    }
  }

  /** The node table between the drop and the insertions. */
  ghost predicate KeptAndDropped(db: Db, f: File, kept: map<Name, Id>, keptRows: Nodes, db': Db) {
    var doomed := Doomed(db.nodes, f, kept);
    && RowsKept(db.nodes, f, kept, |f.nodes|, keptRows) && db'.nodes == keptRows - doomed
    && db'.edges == Cut(db.edges, doomed)
    && db'.callees == Minus(db.callees, doomed) && db'.callers == Minus(db.callers, doomed)
  }

  /** The rows are replaced, what hung on doomed rows is cut, and the cache indexes the new table. */
  ghost predicate RowsSwapped(db: Db, f: File, kept: map<Name, Id>, ids: map<Name, Id>, db': Db, next: Id, ix: Index) {
    && RowsReplaced(db.nodes, db.edges, f, kept, ids, db'.nodes)
    && db'.edges == Cut(db.edges, Doomed(db.nodes, f, kept))
    && db'.callees == WithRows(db.callees, db'.nodes.Keys) && db'.callers == WithRows(db.callers, db'.nodes.Keys)
    && ix.ids == db'.nodes.Keys && MirrorsNames(ix.byQn, db'.nodes)
    && forall id :: id in db'.nodes ==> id < next
  }

  // ---- Counting edges one by one ----

  ghost predicate MidEdges(before: Edges, nodes: Nodes, edges: Edges, seen: set<EdgeKey>, resolved: nat,
                           unresolved: nat) {
    && edges == WithNewEdges(before, nodes, seen)
    && resolved == |OwnBound(edges, seen)| && unresolved == |OwnDangling(edges, seen)|
  }

  ghost predicate MidRebind(before: Edges, nodes: Nodes, edges: Edges, done: set<EdgeKey>, targets: set<Id>,
                            rebound: nat) {
    && edges == ReboundSome(before, nodes, done)
    && targets == Targets(edges, CallsOnly(done)) && rebound == |NewlyBound(edges, done)|
  }

  lemma NoEdgesYet(edges: Edges, nodes: Nodes)
    ensures MidEdges(edges, nodes, edges, {}, 0, 0)
  {
    assert OwnBound(edges, {}) == {} && OwnDangling(edges, {}) == {};
  }

  lemma NothingRebound(edges: Edges, nodes: Nodes, candidates: set<EdgeKey>)
    ensures MidRebind(edges, nodes, edges, candidates - candidates, {}, 0)
  {
    assert candidates - candidates == {};
    assert NewlyBound(edges, {}) == {} && CallsOnly({}) == {};
  }

  lemma OnlyElement(s: set<Id>, id: Id)
    requires |s| == 1 && id in s
    ensures s == {id}
  {
    assert |s - {id}| == 0;
  }

  lemma KeysGrow(es: seq<XEdge>, ids: map<Name, Id>, i: nat)
    requires i < |es|
    ensures es[i].source !in ids ==> KeysOf(es[..i + 1], ids) == KeysOf(es[..i], ids)
    ensures es[i].source in ids ==>
              var k := EdgeKey(ids[es[i].source], es[i].etype, es[i].target);
              KeysOf(es[..i + 1], ids)
              == if k in KeysOf(es[..i], ids) then KeysOf(es[..i], ids) else KeysOf(es[..i], ids) + {k}
  {
    assert es[..i + 1] == es[..i] + [es[i]];
  }

  lemma EdgeAdded(edges: Edges, nodes: Nodes, keys: set<EdgeKey>, k: EdgeKey)
    requires k !in keys
    ensures WithNewEdges(edges, nodes, keys + {k}) == WithNewEdges(edges, nodes, keys)[k := Resolve(nodes, k)]
  {
  }

  lemma OneElementMore<T>(s: set<T>, t: set<T>, x: T)
    requires x !in s && t == s + {x}
    ensures |t| == |s| + 1
  {
  }

  lemma OwnBoundAfter(edges: Edges, own: set<EdgeKey>, k: EdgeKey, target: Option<Id>)
    requires k !in own
    ensures k !in OwnBound(edges, own)
    ensures OwnBound(edges[k := target], own + {k})
            == if k.etype.Calls? && target.Some? then OwnBound(edges, own) + {k} else OwnBound(edges, own)
  {
  }

  lemma OwnDanglingAfter(edges: Edges, own: set<EdgeKey>, k: EdgeKey, target: Option<Id>)
    requires k !in own
    ensures k !in OwnDangling(edges, own)
    ensures OwnDangling(edges[k := target], own + {k})
            == if k.etype.Calls? && target.None? then OwnDangling(edges, own) + {k} else OwnDangling(edges, own)
  {
  }

  lemma OwnBoundGrows(edges: Edges, own: set<EdgeKey>, k: EdgeKey, target: Option<Id>)
    requires k !in own
    ensures |OwnBound(edges[k := target], own + {k})|
            == |OwnBound(edges, own)| + (if k.etype.Calls? && target.Some? then 1 else 0)
  {
    OwnBoundAfter(edges, own, k, target);
    OneElementMore(OwnBound(edges, own), OwnBound(edges, own) + {k}, k);
  }

  lemma OwnDanglingGrows(edges: Edges, own: set<EdgeKey>, k: EdgeKey, target: Option<Id>)
    requires k !in own
    ensures |OwnDangling(edges[k := target], own + {k})|
            == |OwnDangling(edges, own)| + (if k.etype.Calls? && target.None? then 1 else 0)
  {
    OwnDanglingAfter(edges, own, k, target);
    OneElementMore(OwnDangling(edges, own), OwnDangling(edges, own) + {k}, k);
  }

  lemma NewlyBoundGrows(edges: Edges, done: set<EdgeKey>, k: EdgeKey, target: Option<Id>)
    requires k !in done
    ensures |NewlyBound(edges[k := target], done + {k})|
            == |NewlyBound(edges, done)| + (if k.etype.Calls? && target.Some? then 1 else 0)
  {
    OwnBoundGrows(edges, done, k, target);
  }

  lemma TargetsGrow(edges: Edges, done: set<EdgeKey>, k: EdgeKey, target: Option<Id>)
    requires k !in done
    ensures Targets(edges[k := target], CallsOnly(done + {k}))
            == Targets(edges, CallsOnly(done)) + (if k.etype.Calls? && target.Some? then {target.value} else {})
  {
    var edges', done' := edges[k := target], done + {k};
    var extra := if k.etype.Calls? && target.Some? then {target.value} else {};
    forall t | t in Targets(edges, CallsOnly(done))
      ensures t in Targets(edges', CallsOnly(done'))
    {
      var j :| j in CallsOnly(done) && j in edges && edges[j].Some? && edges[j].value == t;
      assert edges'[j] == edges[j] && j in CallsOnly(done');
    }
    if extra != {} {
      assert k in CallsOnly(done') && edges'[k] == target;
    }
  }

  ghost function ReboundSome(edges: Edges, nodes: Nodes, keys: set<EdgeKey>): Edges {
    map k | k in edges :: if k in keys then Resolve(nodes, k) else edges[k]
  }

  lemma OneMoreDone(candidates: set<EdgeKey>, rest: set<EdgeKey>, k: EdgeKey)
    requires rest <= candidates && k in rest
    ensures candidates - (rest - {k}) == candidates - rest + {k} && k !in candidates - rest
  {
  }

  lemma RebindStep(before: Edges, nodes: Nodes, edges: Edges, done: set<EdgeKey>, targets: set<Id>, rebound: nat,
                   k: EdgeKey, target: Option<Id>)
    requires k in before && k !in done && target == Resolve(nodes, k)
             && MidRebind(before, nodes, edges, done, targets, rebound)
    ensures if target.Some? && k.etype.Calls?
            then MidRebind(before, nodes, edges[k := target], done + {k}, targets + {target.value}, rebound + 1)
            else MidRebind(before, nodes, edges[k := target], done + {k}, targets, rebound)
  {
    ReboundOneMore(before, nodes, done, k);
    NewlyBoundGrows(edges, done, k, target);
    TargetsGrow(edges, done, k, target);
  }

  /** After the kept rows: what the drop and the insertions need. */
  lemma KeptRowsToDrop(before: Nodes, f: File, kept: map<Name, Id>, keptRows: Nodes, next: Id, ix: Index)
    requires Matching(before, f, kept) && NamesFree(before, f) && MidKeep(before, f, kept, |f.nodes|, keptRows, ix)
    requires forall id :: id in before ==> id < next
    ensures keptRows.Keys == before.Keys == ix.ids && RowsKept(before, f, kept, |f.nodes|, keptRows)
    ensures MidNames(ix.byQn, keptRows, Doomed(before, f, kept))
    ensures var mid := keptRows - Doomed(before, f, kept);
            OnlyKeptNames(mid, f, kept) && kept.Values <= mid.Keys && forall id :: id in mid ==> id < next
  {
    TakenAll(f, kept);
    OnlyKeptLeft(before, f, kept, keptRows);
  }

  lemma AllSwapped(db: Db, f: File, kept: map<Name, Id>, keptRows: Nodes, mid: Db, first: Id,
                   db': Db, ids: map<Name, Id>, next: Id, ix: Index)
    requires DistinctNames(f) && References(db.nodes, db.edges) && Matching(db.nodes, f, kept)
    requires forall id :: id in db.nodes ==> id < first
    requires KeptAndDropped(db, f, kept, keptRows, mid) && db'.edges == mid.edges
    requires MidInsert(mid.nodes, f, kept, first, |f.nodes|, db'.nodes, ids, next, ix)
    requires db'.callees == WithRows(mid.callees, db'.nodes.Keys)
             && db'.callers == WithRows(mid.callers, db'.nodes.Keys)
    ensures RowsSwapped(db, f, kept, ids, db', next, ix)
  {
    RowsRewritten(db.nodes, f, kept, keptRows, mid.nodes, first, db'.nodes, ids, next, ix);
    KeptRowsSurvive(db.nodes, db.edges, f, kept, ids, db'.nodes);
    ListedAfterAll(db.callees, Doomed(db.nodes, f, kept), db'.nodes.Keys);
    ListedAfterAll(db.callers, Doomed(db.nodes, f, kept), db'.nodes.Keys);
  }

  lemma DroppedListed(db: Db, keptRows: Nodes, middle: Db, doomed: set<Id>)
    requires db.callees.Keys == db.callers.Keys == db.nodes.Keys == keptRows.Keys
    requires middle == db.(nodes := keptRows)
    ensures Deleted(middle, doomed) == Db(keptRows - doomed, Cut(db.edges, doomed), Minus(db.callees, doomed),
                                          Minus(db.callers, doomed))
    ensures Minus(db.callees, doomed).Keys == Minus(db.callers, doomed).Keys == (keptRows - doomed).Keys
  {
  }

  lemma ListedAfterAll(lists: Lists, doomed: set<Id>, rows: set<Id>)
    requires rows !! doomed
    ensures WithRows(Minus(lists, doomed), rows) == WithRows(lists, rows)
  {
  }

  lemma OnlyKeptLeft(before: Nodes, f: File, kept: map<Name, Id>, keptRows: Nodes)
    requires Matching(before, f, kept) && NamesFree(before, f) && RowsKept(before, f, kept, |f.nodes|, keptRows)
    ensures OnlyKeptNames(keptRows - Doomed(before, f, kept), f, kept)
    ensures kept.Values <= (keptRows - Doomed(before, f, kept)).Keys
  {
    var mid := keptRows - Doomed(before, f, kept);
    forall o | o in mid && mid[o].qn in Names(f)
      ensures mid[o].qn in kept
    {
      OnlyKeptNamesLeft(before, f, kept, keptRows, o);
    }
  }

  lemma IdsInNodes(before: Nodes, f: File, kept: map<Name, Id>, ids: map<Name, Id>, nodes: Nodes)
    requires NodesRewritten(before, f, kept, ids, nodes)
    ensures ids.Values <= nodes.Keys
  {
  }

  lemma AllRebound(edges: Edges, nodes: Nodes, names: set<Name>, rest: set<EdgeKey>)
    requires rest == {}
    ensures var candidates := Candidates(edges, names);
            candidates - rest == candidates && ReboundSome(edges, nodes, candidates) == Rebound(edges, nodes, names)
  {
  }

  lemma ReboundOneMore(edges: Edges, nodes: Nodes, done: set<EdgeKey>, k: EdgeKey)
    requires k in edges
    ensures ReboundSome(edges, nodes, done + {k}) == ReboundSome(edges, nodes, done)[k := Resolve(nodes, k)]
  {
  }

  lemma OneLess(nodes: Nodes, gone: set<Id>, rest: set<Id>, id: Id)
    requires rest <= gone && id in rest
    ensures nodes - (gone - (rest - {id})) == (nodes - (gone - rest)) - {id}
  {
  }

  lemma NewRowListed(lists: Lists, rows: set<Id>, id: Id)
    requires id !in lists
    ensures WithRows(lists, rows + {id}) == WithRows(lists, rows)[id := []]
  {
  }

  lemma MirroredLookup(byQn: map<Name, Id>, nodes: Nodes, q: Name, r: Option<Id>)
    requires MirrorsNames(byQn, nodes) && r == if q in byQn then Some(byQn[q]) else None
    ensures r == Lookup(nodes, q)
  {
    var found := Lookup(nodes, q);
    if found.Some? {
      assert Holds(byQn, nodes[found.value].qn, found.value);
    }
    if q in byQn {
      assert Named(nodes, q, byQn[q]);
    }
  }
}
