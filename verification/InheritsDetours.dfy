/**
 * Histories that bind an INHERITS edge otherwise than a walk does, for every edge whose file leaves
 * room for it: by a file that comes and goes, or by one that comes in two steps.
 */
module InheritsDetours {
  import opened Wrappers
  import opened CodeGraph
  import opened FileRewrite
  import opened CallScope
  import opened GraphStates
  import opened StoreRuns
  import opened CallCounts
  import opened WalkOrders
  import opened InheritsOrder
  import opened InheritsWalk
  import opened InheritsHistory
  import Sources = SourceTree

  lemma WalkIsHistoryLeft(files: map<Path, File>, r: Reading, s: Store)
    requires WalkLeaves(files, r, s)
    ensures HistoryLeaves(files, r, s)
  {
    hide StepTo, MisleadsNone;
    var states, ops := WalkLeaving(files, r, s);
    forall i | 0 <= i < |ops|
      ensures KeepsNames(states[i], ops[i])
    {
      InsertKeepsNames(states, ops, r, i);
    }
  }

  lemma InsertKeepsNames(states: seq<Store>, ops: seq<Op>, r: Reading, i: nat)
    requires FreshWalk(states, ops, r) && i < |ops|
    ensures KeepsNames(states[i], ops[i])
  {
    hide FreshWalk, KeepsNames, Inserts;
    WalkBegins(states, ops, r);
    WalkStep(states, ops, r, i);
    if ops[i].Persist? {
      InsertMatching(states[i], ops[i], states[i + 1], r);
      NothingKept(states[i], ops[i]);
    } else {
      SkipKeepsNames(states[i]);
    }
  }

  lemma SkipKeepsNames(s: Store)
    ensures KeepsNames(s, SkipFile)
  {
  }

  lemma InsertMatching(s: Store, op: Op, t: Store, r: Reading)
    requires op.Persist? && Inserts(s, op.f, op.kept, op.ids, t, r)
    ensures FileRows(s.db.nodes, op.f.path) == {} && Matching(s.db.nodes, op.f, op.kept)
  {
  }

  lemma NothingKept(s: Store, op: Op)
    requires op.Persist? && FileRows(s.db.nodes, op.f.path) == {} && Matching(s.db.nodes, op.f, op.kept)
    ensures KeepsNames(s, op)
  {
    assert forall q :: q in op.kept ==> op.kept[q] in op.kept.Values;
  }

  lemma OneMoreStep(files: map<Path, File>, r: Reading, s: Store, op: Op, t: Store)
    requires HistoryLeaves(files, r, s) && StepTo(s, op, t, r) && MisleadsNone(s, op) && KeepsNames(s, op)
    ensures HistoryLeaves(t.files, r, t)
  {
    hide StepTo, MisleadsNone, KeepsNames;
    var states: seq<Store>, ops: seq<Op> :|
      && History(states, ops, r) && states[|ops|] == s && s.files == files
      && forall i :: 0 <= i < |ops| ==> KeepsNames(states[i], ops[i]);
    var states', ops' := states + [t], ops + [op];
    forall i | 0 <= i < |ops'|
      ensures StepTo(states'[i], ops'[i], states'[i + 1], r) && MisleadsNone(states'[i], ops'[i])
      ensures KeepsNames(states'[i], ops'[i])
    {
      if i < |ops| {
        assert states'[i + 1] == states[i + 1] && states'[i] == states[i] && ops'[i] == ops[i];
      }
    }
    assert History(states', ops', r);
  }

  // ---- A file that comes and goes ----

  lemma LongerThanAll(names: set<string>) returns (n: nat)
    ensures forall q :: q in names ==> |q| < n
  {
    if names == {} {
      n := 0;
    } else {
      var q :| q in names;
      var rest := LongerThanAll(names - {q});
      assert forall o :: o in names ==> o == q || o in names - {q};
      n := if |q| < rest then rest else |q| + 1;
    }
  }

  function Filler(n: nat): string {
    seq(n, _ => 'x')
  }

  /** A file of one module, whose short name is the target. */
  function Visitor(path: Path, q: Name): File {
    File(path, [XNode("key", q, Module, "", None)], [])
  }

  lemma VisitorNames(path: Path, q: Name)
    ensures Names(Visitor(path, q)) == {q} && HasModule(Visitor(path, q)) && DistinctNames(Visitor(path, q))
  {
    assert Visitor(path, q).nodes[0] in Visitor(path, q).nodes;
  }

  function AllNames(files: map<Path, File>): set<Name> {
    set p, q | p in files && q in Names(files[p]) :: q
  }

  lemma FillerIsPython(n: nat)
    requires n > 0
    ensures Sources.IsPython("" + Filler(n) + ".py")
  {
    hide Sources.Suffix;
    assert Filler(n) != "" && forall c :: c in Filler(n) + ".py" ==> c == 'x' || c == '.' || c == 'p' || c == 'y';
    Sources.SuffixAfterStem("", Filler(n), ".py");
    assert Sources.Lower(".py") == ".py";
  }

  lemma FreshVisitor(files: map<Path, File>, target: Name) returns (path: Path, q: Name)
    ensures path !in files && q !in AllNames(files) && q != target && EndsWith(q, "." + target)
    ensures Sources.IsPython(path)
  {
    var n := LongerThanAll(files.Keys);
    var m := LongerThanAll(AllNames(files));
    path := "" + Filler(n + 1) + ".py";
    assert |path| > n;
    FillerIsPython(n + 1);
    q := Filler(m) + ("." + target);
    assert q[m..] == "." + target;
    assert |q| > |target| && |q| >= m;
  }

  lemma ExtractedWith(files: map<Path, File>, path: Path, q: Name)
    requires Extracted(files) && path !in files && q !in AllNames(files)
    ensures Extracted(files[path := Visitor(path, q)])
  {
    hide HasModule, DistinctNames;
    VisitorNames(path, q);
    var files' := files[path := Visitor(path, q)];
    forall a, b | a in files' && b in files' && a != b
      ensures Names(files'[a]) !! Names(files'[b])
    {
      assert a in files ==> Names(files[a]) <= AllNames(files);
      assert b in files ==> Names(files[b]) <= AllNames(files);
    }
  }

  lemma VisitorFits(files: map<Path, File>, path: Path, q: Name, target: Name)
    requires EndsWith(q, "." + target) && q != target
    ensures One(FitsIn(files[path := Visitor(path, q)], path, target)) && target !in Names(Visitor(path, q))
    ensures forall v :: v in FitsIn(files[path := Visitor(path, q)], path, target) ==> v.path == path
  {
    VisitorNames(path, q);
    var f := Visitor(path, q);
    assert f.nodes[0] in f.nodes;
    assert FitsIn(files[path := f], path, target) == {RowOf(f, f.nodes[0])};
  }

  /** The visitor leaves again: what was bound to its row is unbound, and nothing else has changed. */
  lemma VisitorLeaves(s: Store, path: Path, r: Reading, p: Path, e: XEdge) returns (t: Store)
    requires Good(s) && InheritsEdge(s.files, p, e) && p != path
    ensures StepTo(s, DeleteFile(path), t, r) && MisleadsNone(s, DeleteFile(path)) && KeepsNames(s, DeleteFile(path))
    ensures t.files == s.files - {path} && Good(t)
    ensures BoundFor(t, e) == var found := BoundFor(s, e);
                              if found.Some? && found.value.path == path then None else found
  {
    hide Good, BoundFor;
    var gone := FileRows(s.db.nodes, path);
    t := Store(Deleted(s.db, gone), s.due + DeletePeers(s.db.edges, gone),
               s.owed + DeletePeers(s.db.edges, gone), s.files - {path});
    DeleteKeepsGood(s, path, t, r);
    var k := EdgeIsThere(s, p, e);
    var k' := EdgeIsThere(t, p, e);
    StoreTables(s);
    assert k' == k;
  }

  lemma StoreTables(s: Store)
    requires Good(s)
    ensures References(s.db.nodes, s.db.edges) && NamesUnique(s.db.nodes)
  {
  }

  /** A history over the same files, in which a Python file whose short name fits comes just before `p`. */
  lemma Visited(files: map<Path, File>, r: Reading, p: Path, e: XEdge)
    returns (with: map<Path, File>, path: Path, s: Store, t: Store)
    requires Extracted(files) && InheritsEdge(files, p, e)
    ensures path !in files && with.Keys == files.Keys + {path} && with - {path} == files && Extracted(with)
    ensures Sources.IsPython(path)
    ensures One(FitsIn(with, path, e.target)) && e.target !in Names(with[path])
    ensures forall v :: v in FitsIn(with, path, e.target) ==> v.path == path
    ensures WalkLeaves(with, r, s) && BoundFor(s, e) == FinalBinding(with, {path}, p, e.target)
    ensures HistoryLeaves(files, r, t)
    ensures BoundFor(t, e) == var found := BoundFor(s, e);
                              if found.Some? && found.value.path == path then None else found
  {
    hide Extracted, WalkLeaves, BoundFor, FinalBinding, HistoryLeaves, Good, MisleadsNone;
    hide Sources.IsPython, FitsIn, Names;
    var q;
    path, q := FreshVisitor(files, e.target);
    with := files[path := Visitor(path, q)];
    ExtractedWith(files, path, q);
    VisitorFits(files, path, q, e.target);
    s := EveryChoiceOccurs(with, r, p, e, {path});
    WalkIsHistoryLeft(with, r, s);
    HistoryLeft(with, r, s);
    t := VisitorLeaves(s, path, r, p, e);
    OneMoreStep(with, r, s, DeleteFile(path), t);
    assert t.files == files;
  }

  /** Two histories over the same files that bind the edge differently. */
  ghost predicate Disagree(files: map<Path, File>, r: Reading, e: XEdge, s: Store, t: Store) {
    HistoryLeaves(files, r, s) && HistoryLeaves(files, r, t) && BoundFor(s, e) != BoundFor(t, e)
  }

  /** The subclass's file has no row that fits: the edge is taken by the visitor, and lost with it. */
  lemma TakenByVisitor(files: map<Path, File>, r: Reading, p: Path, e: XEdge) returns (s: Store, t: Store)
    requires Extracted(files) && InheritsEdge(files, p, e)
    requires e.target !in Names(files[p]) && FitsIn(files, p, e.target) == {} && Defined(files, e.target)
    ensures Disagree(files, r, e, s, t)
  {
    hide Extracted, WalkLeaves, BoundFor, FinalBinding, HistoryLeaves, Keyed, DistinctRowNames;
    var with, path, mid;
    with, path, mid, t := Visited(files, r, p, e);
    ExtractedRows(with);
    var v :| FitsIn(with, path, e.target) == {v};
    SameFits(files, with, path, p, e.target);
    assert v in FitsIn(with, path, e.target);
    TakenAtOnce(with, {path}, p, e.target, v);
    FoundEarly(with, {path}, p, e.target, v);
    s := EveryChoiceOccurs(files, r, p, e, files.Keys - {p});
    WalkIsHistoryLeft(files, r, s);
    ExtractedRows(files);
    LastSeesAll(files, p, e.target);
    WholeIsDefined(files, e.target);
  }

  lemma SameFits(files: map<Path, File>, with: map<Path, File>, path: Path, p: Path, target: Name)
    requires p in files && path !in files && with.Keys == files.Keys + {path} && with - {path} == files
    ensures FitsIn(with, p, target) == FitsIn(files, p, target) && Names(with[p]) == Names(files[p])
  {
    assert (with - {path})[p] == with[p];
  }

  lemma WholeIsDefined(files: map<Path, File>, target: Name)
    requires Keyed(files) && DistinctRowNames(AllRows(files)) && Defined(files, target)
    ensures Whole(files, target).Some?
  {
    var d :| d in files && target in Names(files[d]);
    var v := DefiningRow(files, d, target);
    AnswerIsNamed(AllRows(files), target, v);
  }

  /** The subclass's file has one row that fits: with the visitor there are two, and it is not taken. */
  lemma SpoiltByVisitor(files: map<Path, File>, r: Reading, p: Path, e: XEdge) returns (s: Store, t: Store)
    requires Extracted(files) && InheritsEdge(files, p, e)
    requires e.target !in Names(files[p]) && One(FitsIn(files, p, e.target))
    ensures Disagree(files, r, e, s, t)
  {
    hide Extracted, WalkLeaves, BoundFor, HistoryLeaves, Keyed, DistinctRowNames;
    var with, path, mid;
    with, path, mid, t := Visited(files, r, p, e);
    var v :| FitsIn(files, p, e.target) == {v};
    var u :| FitsIn(with, path, e.target) == {u};
    ExtractedRows(with);
    ExtractedRows(files);
    SameFits(files, with, path, p, e.target);
    NotTakenAmongTwo(with, {path}, p, e.target, u, v);
    assert v in FitsIn(files, p, e.target);
    FitIsRow(files, p, e.target, v);
    FittingRow(files, v, e.target);
    TakenAtOnce(files, {}, p, e.target, v);
    FoundEarly(files, {}, p, e.target, v);
    s := EveryChoiceOccurs(files, r, p, e, {});
    WalkIsHistoryLeft(files, r, s);
  }

  lemma NotTakenAmongTwo(files: map<Path, File>, before: set<Path>, p: Path, target: Name, u: Node, v: Node)
    requires Keyed(files) && p in files && before <= files.Keys - {p}
    requires target !in Names(files[p]) && forall d :: d in before ==> target !in Names(files[d])
    requires exists g :: g in before && u in FitsIn(files, g, target)
    requires v in FitsIn(files, p, target)
    ensures FinalBinding(files, before, p, target) == NamedRow(AllRows(files), target)
  {
    var g :| g in before && u in FitsIn(files, g, target);
    FitIsRow(files, g, target, u);
    FitIsRow(files, p, target, v);
    PartRow(files, before + {p}, u);
    PartRow(files, before + {p}, v);
    UnnamedEarly(files, before, p, target);
  }

  // ---- A file that comes in two steps ----

  /** A first version of the file, with its module and one node that fits. */
  function Half(f: File, m: XNode, x: XNode): File {
    File(f.path, if m == x then [x] else [m, x], [])
  }

  /** A module and a node that fits, such that no other node of the two does. */
  ghost predicate Halves(f: File, m: XNode, x: XNode, target: Name) {
    && m in f.nodes && m.kind.Module? && x in f.nodes && Fits(RowOf(f, x), target)
    && (Fits(RowOf(f, m), target) ==> m == x)
  }

  lemma HalvesExist(files: map<Path, File>, g: Path, target: Name) returns (m: XNode, x: XNode)
    requires g in files && HasModule(files[g]) && FitsIn(files, g, target) != {}
    ensures Halves(files[g], m, x, target)
  {
    m :| m in files[g].nodes && m.kind.Module?;
    var v :| v in FitsIn(files, g, target);
    x :| x in files[g].nodes && Fits(RowOf(files[g], x), target) && v == RowOf(files[g], x);
    if Fits(RowOf(files[g], m), target) {
      x := m;
    }
  }

  lemma SameNode(f: File, x: XNode, y: XNode)
    requires DistinctNames(f) && x in f.nodes && y in f.nodes && x.qn == y.qn
    ensures x == y
  {
  }

  lemma HalfIsFile(f: File, m: XNode, x: XNode, target: Name)
    requires DistinctNames(f) && Halves(f, m, x, target)
    ensures HasModule(Half(f, m, x)) && DistinctNames(Half(f, m, x)) && Names(Half(f, m, x)) <= Names(f)
    ensures forall y :: y in Half(f, m, x).nodes <==> y == m || y == x
  {
    var h := Half(f, m, x);
    if m != x && m.qn == x.qn {
      SameNode(f, m, x);
    }
    assert m == h.nodes[0] && x == h.nodes[|h.nodes| - 1];
    assert m in h.nodes && x in h.nodes;
  }

  lemma HalfFits(files: map<Path, File>, g: Path, m: XNode, x: XNode, target: Name)
    requires g in files && DistinctNames(files[g]) && Halves(files[g], m, x, target)
    ensures FitsIn(files[g := Half(files[g], m, x)], g, target) == {RowOf(files[g], x)}
  {
    HalfIsFile(files[g], m, x, target);
    var h := Half(files[g], m, x);
    assert x in h.nodes && RowOf(h, x) == RowOf(files[g], x) && RowOf(h, m) == RowOf(files[g], m);
  }

  lemma ExtractedHalf(files: map<Path, File>, g: Path, m: XNode, x: XNode, target: Name)
    requires Extracted(files) && g in files && Halves(files[g], m, x, target)
    ensures Extracted(files[g := Half(files[g], m, x)])
  {
    hide HasModule, DistinctNames, Names;
    HalfIsFile(files[g], m, x, target);
  }

  /** With the first version of the file before it, the edge is bound to the one row that fits. */
  lemma TakenFromHalf(files: map<Path, File>, r: Reading, p: Path, e: XEdge, g: Path, m: XNode, x: XNode)
    returns (s: Store)
    requires Extracted(files) && InheritsEdge(files, p, e) && g in files && g != p
    requires FitsIn(files, p, e.target) == {} && !Defined(files, e.target) && Halves(files[g], m, x, e.target)
    ensures HistoryLeaves(files[g := Half(files[g], m, x)], r, s) && BoundFor(s, e).Some?
  {
    hide WalkLeaves, BoundFor, FinalBinding, HistoryLeaves, Keyed, DistinctRowNames, HasModule;
    var early, v := files[g := Half(files[g], m, x)], RowOf(files[g], x);
    HalfIsFile(files[g], m, x, e.target);
    HalfFits(files, g, m, x, e.target);
    ExtractedHalf(files, g, m, x, e.target);
    ExtractedRows(early);
    assert FitsIn(early, p, e.target) == FitsIn(files, p, e.target);
    assert v.path == g by { ExtractedRows(files); KeyedPath(files, g); }
    TakenAtOnce(early, {g}, p, e.target, v);
    FoundEarly(early, {g}, p, e.target, v);
    s := EveryChoiceOccurs(early, r, p, e, {g});
    WalkIsHistoryLeft(early, r, s);
  }

  lemma KeyedPath(files: map<Path, File>, g: Path)
    requires Keyed(files) && g in files
    ensures files[g].path == g
  {
  }

  /** Every row of the file, by its name. */
  ghost function RowsByName(nodes: Nodes, names: set<Name>): map<Name, Id> {
    map q | q in names && Lookup(nodes, q).Some? :: Lookup(nodes, q).value
  }

  lemma AllRowsKept(s: Store, f: File)
    requires Good(s) && f.path in s.files && Names(s.files[f.path]) <= Names(f)
    ensures var kept := RowsByName(s.db.nodes, Names(s.files[f.path]));
            Matching(s.db.nodes, f, kept) && Doomed(s.db.nodes, f, kept) == {}
  {
    hide NamesBoundRight, EdgesRepresent, ListsExactOutside, FilesHaveModules, References;
    var nodes, names := s.db.nodes, Names(s.files[f.path]);
    var kept := RowsByName(nodes, names);
    forall q | q in kept
      ensures kept[q] in FileRows(nodes, f.path)
    {
      var id := NameHasRow(nodes, s.files, f.path, q);
      assert id == kept[q];
    }
    forall id | id in FileRows(nodes, f.path)
      ensures id in kept.Values
    {
      RowHasName(nodes, s.files, id);
      assert Named(nodes, nodes[id].qn, id);
      assert kept[nodes[id].qn] == id;
    }
  }

  /** The whole file can replace a first version of it, each row keeping its name. */
  lemma Completed(s: Store, f: File, r: Reading) returns (op: Op, t: Store)
    requires Good(s) && f.path in s.files && HasModule(f) && DistinctNames(f)
    requires forall x :: x in s.files[f.path].nodes ==> x in f.nodes
    requires forall q :: q in s.files && q != f.path ==> Names(s.files[q]) !! Names(f)
    ensures op.Persist? && op.f == f && Doomed(s.db.nodes, f, op.kept) == {}
    ensures StepTo(s, op, t, r) && MisleadsNone(s, op) && KeepsNames(s, op) && t.files == s.files[f.path := f]
  {
    hide Good, StepTo, MisleadsNone, HasModule, DistinctNames, RowsByName, KeepsNames, Matching;
    var kept := RowsByName(s.db.nodes, Names(s.files[f.path]));
    AllRowsKept(s, f);
    OthersApart(s, f);
    var ids, t' := CanPersist(s, f, kept, r);
    op, t := Persist(f, kept, ids), t';
    RowsKeptByName(s, f, kept);
    KeepingMisleadsNone(s, f, kept, ids);
    KeptNodes(s, f, op);
  }

  lemma OthersApart(s: Store, f: File)
    requires Good(s) && forall q :: q in s.files && q != f.path ==> Names(s.files[q]) !! Names(f)
    ensures forall id :: id in s.db.nodes && s.db.nodes[id].path != f.path ==> s.db.nodes[id].qn !in Names(f)
  {
    hide Consistent, EdgesRepresent, FilesHaveModules;
    forall id | id in s.db.nodes && s.db.nodes[id].path != f.path
      ensures s.db.nodes[id].qn !in Names(f)
    {
      RowHasName(s.db.nodes, s.files, id);
    }
  }

  lemma RowsKeptByName(s: Store, f: File, kept: map<Name, Id>)
    requires f.path in s.files && kept == RowsByName(s.db.nodes, Names(s.files[f.path]))
    ensures forall q :: q in kept ==> Named(s.db.nodes, q, kept[q])
  {
  }

  lemma KeptNodes(s: Store, f: File, op: Op)
    requires Good(s) && f.path in s.files && DistinctNames(f) && op.Persist? && op.f == f
    requires op.kept == RowsByName(s.db.nodes, Names(s.files[f.path])) && Matching(s.db.nodes, f, op.kept)
    requires forall x :: x in s.files[f.path].nodes ==> x in f.nodes
    ensures KeepsNames(s, op)
  {
    hide Consistent, EdgesRepresent, FilesHaveModules, RowsByName, DistinctNames;
    RowsKeptByName(s, f, op.kept);
    forall x | x in f.nodes && x.qn in op.kept
      ensures Named(s.db.nodes, x.qn, op.kept[x.qn]) && s.db.nodes[op.kept[x.qn]].name == x.name
    {
      var id := op.kept[x.qn];
      assert id in op.kept.Values;
      assert s.db.nodes[id] in s.db.nodes.Values;
      var y := DeclaredRow(s.files, s.db.nodes[id]);
      SameNode(f, x, y);
    }
  }

  /** Once bound, the edge stays bound when another file is replaced and loses no row. */
  lemma StaysBound(s: Store, op: Op, t: Store, r: Reading, p: Path, e: XEdge)
    requires Good(s) && Good(t) && StepTo(s, op, t, r) && op.Persist? && Doomed(s.db.nodes, op.f, op.kept) == {}
    requires InheritsEdge(s.files, p, e) && InheritsEdge(t.files, p, e) && p != op.f.path && BoundFor(s, e).Some?
    ensures BoundFor(t, e).Some?
  {
    hide Good, StepTo, BoundFor, InheritsEdge;
    var k := EdgeIsThere(s, p, e);
    var k' := EdgeIsThere(t, p, e);
    PersistRewrites(s, op.f, op.kept, op.ids, t, r);
    OutsideRowStays(s.db.nodes, s.db.edges, op.f, op.kept, op.ids, t.db.nodes, k.source);
    StoreTables(s);
    StoreTables(t);
    assert k' == k;
    FinalEdge(s.db.nodes, s.db.edges, op.f, op.kept, op.ids, t.db.nodes, k);
  }

  /** Without the rest of the file, a row fits alone, is taken, and stays taken when the rest comes. */
  lemma TakenEarly(files: map<Path, File>, r: Reading, p: Path, e: XEdge, g: Path) returns (s: Store, t: Store)
    requires Extracted(files) && InheritsEdge(files, p, e) && g in files && g != p
    requires FitsIn(files, p, e.target) == {} && !Defined(files, e.target) && FitsIn(files, g, e.target) != {}
    ensures Disagree(files, r, e, s, t)
  {
    hide WalkLeaves, BoundFor, HistoryLeaves, Good, StepTo, MisleadsNone, KeepsNames, FitsIn, DistinctNames, HasModule;
    var m, x := HalvesExist(files, g, e.target);
    HalfIsFile(files[g], m, x, e.target);
    var early := files[g := Half(files[g], m, x)];
    var mid := TakenFromHalf(files, r, p, e, g, m, x);
    HistoryLeft(early, r, mid);
    var op;
    op, t := Completed(mid, files[g], r);
    OneMoreStep(early, r, mid, op, t);
    assert t.files == files;
    HistoryLeft(files, r, t);
    StaysBound(mid, op, t, r, p, e);
    s := EveryChoiceOccurs(files, r, p, e, {});
    WalkIsHistoryLeft(files, r, s);
    NothingAtOnce(files, p, e.target);
    NothingNamed(files, e.target);
  }

  /**
   * All histories that end with the same files bind an INHERITS edge alike exactly when its own file
   * decides it, or nothing fits anywhere.
   */
  lemma HistoriesAgreeOnInheritsIff(files: map<Path, File>, r: Reading, p: Path, e: XEdge)
    requires Extracted(files) && InheritsEdge(files, p, e)
    ensures (forall s, t ::
              HistoryLeaves(files, r, s) && HistoryLeaves(files, r, t) ==> BoundFor(s, e) == BoundFor(t, e))
            <==> HistoryIrrelevant(files, p, e.target)
  {
    hide Extracted, HistoryLeaves, BoundFor, FitsIn;
    if HistoryIrrelevant(files, p, e.target) {
      forall s, t | HistoryLeaves(files, r, s) && HistoryLeaves(files, r, t)
        ensures BoundFor(s, e) == BoundFor(t, e)
      {
        HistoryBindsAsWhole(files, r, s, p, e);
        HistoryBindsAsWhole(files, r, t, p, e);
      }
    } else {
      EmptyOneOrMany(FitsIn(files, p, e.target));
      var s, t;
      if One(FitsIn(files, p, e.target)) {
        s, t := SpoiltByVisitor(files, r, p, e);
      } else if Defined(files, e.target) {
        s, t := TakenByVisitor(files, r, p, e);
      } else {
        var g :| g in files && FitsIn(files, g, e.target) != {};
        s, t := TakenEarly(files, r, p, e, g);
      }
      assert Disagree(files, r, e, s, t);
    }
  }
}
