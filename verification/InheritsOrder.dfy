/**
 * What INHERITS edges are bound to after a walk into an empty repository, and when that depends on
 * the order of the files (backend/app/graph/builder.py:356-449, 892-912).
 *
 * An INHERITS target may be met by its last segment, but only an edge whose full target a file
 * defines is asked again later.  So what matters is which files came before the subclass's.
 */
module InheritsOrder {
  import opened Wrappers
  import opened CodeGraph
  import opened FileRewrite
  import opened CallScope
  import opened StoreRuns

  // ---- Resolving among rows ----

  ghost predicate NamedIn(rows: set<Node>, target: Name, v: Node) {
    v in rows && v.qn == target
  }

  ghost predicate OnlyFitIn(rows: set<Node>, target: Name, v: Node) {
    v in rows && Fits(v, target) && forall u :: u in rows && Fits(u, target) ==> u == v
  }

  /** What a lookup among `rows` finds: the row so named, or else the only one whose short name fits. */
  ghost function Answer(rows: set<Node>, target: Name): (r: Option<Node>)
    ensures r.Some? ==> NamedIn(rows, target, r.value)
                        || ((forall v :: !NamedIn(rows, target, v)) && OnlyFitIn(rows, target, r.value))
    ensures r.None? ==> forall v :: !NamedIn(rows, target, v) && !OnlyFitIn(rows, target, v)
  {
    if exists v :: NamedIn(rows, target, v) then
      var v :| NamedIn(rows, target, v);
      Some(v)
    else if exists v :: OnlyFitIn(rows, target, v) then
      var v :| OnlyFitIn(rows, target, v);
      Some(v)
    else None
  }

  ghost function NamedRow(rows: set<Node>, target: Name): (r: Option<Node>)
    ensures r.Some? ==> NamedIn(rows, target, r.value)
    ensures r.None? ==> forall v :: !NamedIn(rows, target, v)
  {
    if exists v :: NamedIn(rows, target, v) then
      var v :| NamedIn(rows, target, v);
      Some(v)
    else None
  }

  ghost predicate DistinctRowNames(rows: set<Node>) {
    forall u, v :: u in rows && v in rows && u.qn == v.qn ==> u == v
  }

  lemma AnswerIsNamed(rows: set<Node>, target: Name, v: Node)
    requires DistinctRowNames(rows) && NamedIn(rows, target, v)
    ensures Answer(rows, target) == Some(v) && NamedRow(rows, target) == Some(v)
  {
  }

  lemma AnswerIsOnlyFit(rows: set<Node>, target: Name, v: Node)
    requires OnlyFitIn(rows, target, v) && forall u :: !NamedIn(rows, target, u)
    ensures Answer(rows, target) == Some(v)
  {
  }

  lemma ValueOf(nodes: Nodes, v: Node) returns (id: Id)
    requires v in nodes.Values
    ensures id in nodes && nodes[id] == v
  {
    id :| id in nodes && nodes[id] == v;
  }

  lemma RowsDistinct(nodes: Nodes)
    requires NamesUnique(nodes)
    ensures DistinctRowNames(nodes.Values)
    ensures forall a, b :: a in nodes && b in nodes && nodes[a] == nodes[b] ==> a == b
  {
    forall u, v | u in nodes.Values && v in nodes.Values && u.qn == v.qn
      ensures u == v
    {
      var a := ValueOf(nodes, u);
      var b := ValueOf(nodes, v);
    }
  }

  /** `_resolve_edge_target` in terms of rows. */
  lemma ResolveIsAnswer(nodes: Nodes, k: EdgeKey)
    requires NamesUnique(nodes) && k.etype.Inherits?
    ensures Answer(nodes.Values, k.target)
            == if Resolve(nodes, k).Some? then Some(nodes[Resolve(nodes, k).value]) else None
  {
    var rows, found := nodes.Values, Resolve(nodes, k);
    RowsDistinct(nodes);
    var direct := Lookup(nodes, k.target);
    if direct.Some? {
      assert NamedIn(rows, k.target, nodes[direct.value]);
      AnswerIsNamed(rows, k.target, nodes[direct.value]);
    } else {
      forall v | v in rows
        ensures v.qn != k.target
      {
        var id := ValueOf(nodes, v);
        assert !Named(nodes, k.target, id);
      }
      ShortIsOnlyFit(nodes, k.target);
      if found.Some? {
        AnswerIsOnlyFit(rows, k.target, nodes[found.value]);
      }
    }
  }

  lemma ShortIsOnlyFit(nodes: Nodes, target: Name)
    requires NamesUnique(nodes)
    ensures forall id :: id in ShortNameMatches(nodes, target) && |ShortNameMatches(nodes, target)| == 1 ==>
              OnlyFitIn(nodes.Values, target, nodes[id])
    ensures (exists v :: OnlyFitIn(nodes.Values, target, v)) ==> |ShortNameMatches(nodes, target)| == 1
  {
    var matches := ShortNameMatches(nodes, target);
    RowsDistinct(nodes);
    forall id | id in matches && |matches| == 1
      ensures OnlyFitIn(nodes.Values, target, nodes[id])
    {
      OneMatch(matches, id);
      forall u | u in nodes.Values && Fits(u, target)
        ensures u == nodes[id]
      {
        var o := ValueOf(nodes, u);
        assert o in matches;
      }
    }
    if v :| OnlyFitIn(nodes.Values, target, v) {
      var id := ValueOf(nodes, v);
      assert forall o :: o in matches ==> nodes[o] in nodes.Values && nodes[o] == v;
      assert matches == {id};
    }
  }

  // ---- The condition on the files ----

  function Part(files: map<Path, File>, paths: set<Path>): map<Path, File> {
    map p | p in files && p in paths :: files[p]
  }

  /** The rows of one file whose short name fits. */
  function FitsIn(files: map<Path, File>, p: Path, target: Name): set<Node>
    requires p in files
  {
    set x | x in files[p].nodes && Fits(RowOf(files[p], x), target) :: RowOf(files[p], x)
  }

  ghost predicate One(s: set<Node>) {
    exists v :: s == {v}
  }

  ghost predicate Many(s: set<Node>) {
    exists u, v :: u in s && v in s && u != v
  }

  lemma EmptyOneOrMany(s: set<Node>)
    ensures s == {} || One(s) || Many(s)
    ensures One(s) ==> s != {} && !Many(s)
    ensures Many(s) ==> s != {}
  {
    if s != {} {
      var v :| v in s;
      if forall u :: u in s ==> u == v {
        assert s == {v};
      }
    }
  }

  /** The binding once all files are there, when those of `before` preceded the file `p` of the subclass. */
  ghost function FinalBinding(files: map<Path, File>, before: set<Path>, p: Path, target: Name): Option<Node> {
    var early := Answer(AllRows(Part(files, before + {p})), target);
    if early.Some? then early else NamedRow(AllRows(files), target)
  }

  /**
   * The subclass's own file defines the target, or has several rows that fit; or it has none, and no
   * other file, the target's apart, has exactly one; or it has the only one there is, and no file
   * defines the target.
   */
  ghost predicate OrderIrrelevant(files: map<Path, File>, p: Path, target: Name)
    requires p in files
  {
    var own := FitsIn(files, p, target);
    || target in Names(files[p])
    || Many(own)
    || (own == {} && forall g :: g in files && g != p && target !in Names(files[g]) ==> !One(FitsIn(files, g, target)))
    || (One(own) && !Defined(files, target) && forall g :: g in files && g != p ==> FitsIn(files, g, target) == {})
  }

  lemma PartRow(files: map<Path, File>, paths: set<Path>, v: Node)
    requires Keyed(files)
    ensures v in AllRows(Part(files, paths)) <==> v in AllRows(files) && v.path in paths
    ensures v in AllRows(files) ==> v.path in files
  {
    var part := Part(files, paths);
    if v in AllRows(part) {
      var x := DeclaredRow(part, v);
      assert v == RowOf(files[v.path], x);
    }
    if v in AllRows(files) {
      var x := DeclaredRow(files, v);
      if v.path in paths {
        assert part[v.path] == files[v.path];
      }
    }
  }

  lemma FittingRow(files: map<Path, File>, v: Node, target: Name)
    requires Keyed(files) && v in AllRows(files)
    ensures v.path in files && (Fits(v, target) <==> v in FitsIn(files, v.path, target))
    ensures v.qn == target ==> target in Names(files[v.path])
  {
    var x := DeclaredRow(files, v);
  }

  lemma FitIsRow(files: map<Path, File>, p: Path, target: Name, v: Node)
    requires Keyed(files) && p in files && v in FitsIn(files, p, target)
    ensures v in AllRows(files) && v.path == p && Fits(v, target)
  {
  }

  lemma DefiningRow(files: map<Path, File>, p: Path, target: Name) returns (v: Node)
    requires Keyed(files) && p in files && target in Names(files[p])
    ensures v in AllRows(files) && v.path == p && v.qn == target
  {
    var x :| x in files[p].nodes && x.qn == target;
    v := RowOf(files[p], x);
  }

  /** What a lookup in the whole repository would say: what the order should not matter to. */
  ghost function Whole(files: map<Path, File>, target: Name): Option<Node> {
    Answer(AllRows(files), target)
  }

  ghost predicate Settled(files: map<Path, File>, before: set<Path>, p: Path, target: Name) {
    FinalBinding(files, before, p, target) == Whole(files, target)
  }

  lemma PartDistinct(files: map<Path, File>, paths: set<Path>)
    requires Keyed(files) && DistinctRowNames(AllRows(files))
    ensures DistinctRowNames(AllRows(Part(files, paths)))
  {
    forall v | v in AllRows(Part(files, paths))
      ensures v in AllRows(files)
    {
      PartRow(files, paths, v);
    }
  }

  /** Once a file that defines the target is there, the edge is bound to it. */
  lemma NamedEarly(files: map<Path, File>, before: set<Path>, p: Path, target: Name, d: Path)
    requires Keyed(files) && DistinctRowNames(AllRows(files)) && d in files && target in Names(files[d])
    requires d == p || d in before
    ensures Settled(files, before, p, target)
  {
    var v := DefiningRow(files, d, target);
    PartRow(files, before + {p}, v);
    PartDistinct(files, before + {p});
    AnswerIsNamed(AllRows(Part(files, before + {p})), target, v);
    AnswerIsNamed(AllRows(files), target, v);
  }

  /** If nothing is found early, the edge ends up where the name says, or unbound. */
  lemma FoundLate(files: map<Path, File>, before: set<Path>, p: Path, target: Name)
    requires Keyed(files) && DistinctRowNames(AllRows(files))
    requires Answer(AllRows(Part(files, before + {p})), target).None?
    ensures Settled(files, before, p, target)
            <==> Defined(files, target) || forall v :: !OnlyFitIn(AllRows(files), target, v)
  {
    if Defined(files, target) {
      var d :| d in files && target in Names(files[d]);
      var v := DefiningRow(files, d, target);
      AnswerIsNamed(AllRows(files), target, v);
    } else {
      NothingNamed(files, target);
    }
  }

  lemma NothingNamed(files: map<Path, File>, target: Name)
    requires Keyed(files) && !Defined(files, target)
    ensures forall v :: !NamedIn(AllRows(files), target, v)
  {
    forall v | v in AllRows(files)
      ensures v.qn != target
    {
      FittingRow(files, v, target);
    }
  }

  /** If one short name fits early, the edge stays there; that is right only if nothing better ever comes. */
  lemma FoundEarly(files: map<Path, File>, before: set<Path>, p: Path, target: Name, v: Node)
    requires Keyed(files) && DistinctRowNames(AllRows(files))
    requires OnlyFitIn(AllRows(Part(files, before + {p})), target, v)
    requires forall u :: !NamedIn(AllRows(Part(files, before + {p})), target, u)
    ensures FinalBinding(files, before, p, target) == Some(v)
    ensures Settled(files, before, p, target) <==> !Defined(files, target) && OnlyFitIn(AllRows(files), target, v)
  {
    AnswerIsOnlyFit(AllRows(Part(files, before + {p})), target, v);
    PartRow(files, before + {p}, v);
    if Defined(files, target) {
      var d :| d in files && target in Names(files[d]);
      var w := DefiningRow(files, d, target);
      AnswerIsNamed(AllRows(files), target, w);
      assert !NamedIn(AllRows(Part(files, before + {p})), target, v);
    } else {
      NothingNamed(files, target);
      if OnlyFitIn(AllRows(files), target, v) {
        AnswerIsOnlyFit(AllRows(files), target, v);
      }
    }
  }

  lemma UnnamedEarly(files: map<Path, File>, before: set<Path>, p: Path, target: Name)
    requires Keyed(files) && p in files && before <= files.Keys
    requires target !in Names(files[p]) && forall d :: d in before ==> target !in Names(files[d])
    ensures forall u :: !NamedIn(AllRows(Part(files, before + {p})), target, u)
  {
    forall u | u in AllRows(Part(files, before + {p}))
      ensures u.qn != target
    {
      PartRow(files, before + {p}, u);
      FittingRow(files, u, target);
    }
  }

  lemma OnlyFitOfFile(files: map<Path, File>, rows: set<Node>, g: Path, target: Name, v: Node)
    requires Keyed(files) && g in files && OnlyFitIn(rows, target, v)
    requires forall u :: u in FitsIn(files, g, target) ==> u in rows
    ensures v.path == g && v in AllRows(files) ==> FitsIn(files, g, target) == {v} && One(FitsIn(files, g, target))
    ensures v.path != g ==> FitsIn(files, g, target) == {}
  {
    forall u | u in FitsIn(files, g, target)
      ensures u == v && u.path == g
    {
      FitIsRow(files, g, target, u);
    }
    if v.path == g && v in AllRows(files) {
      FittingRow(files, v, target);
    }
  }

  lemma FitsEarly(files: map<Path, File>, paths: set<Path>, g: Path, target: Name)
    requires Keyed(files) && g in files && g in paths
    ensures forall u :: u in FitsIn(files, g, target) ==> u in AllRows(Part(files, paths))
  {
    forall u | u in FitsIn(files, g, target)
      ensures u in AllRows(Part(files, paths))
    {
      FitIsRow(files, g, target, u);
      PartRow(files, paths, u);
    }
  }

  lemma OnlyOwnFound(files: map<Path, File>, before: set<Path>, p: Path, target: Name, v: Node)
    requires Keyed(files) && p in files && before <= files.Keys - {p} && OrderIrrelevant(files, p, target)
    requires target !in Names(files[p]) && forall d :: d in before ==> target !in Names(files[d])
    requires OnlyFitIn(AllRows(Part(files, before + {p})), target, v)
    ensures !Defined(files, target) && OnlyFitIn(AllRows(files), target, v)
  {
    hide Defined;
    var rows := AllRows(Part(files, before + {p}));
    PartRow(files, before + {p}, v);
    FitsEarly(files, before + {p}, p, target);
    OnlyFitOfFile(files, rows, p, target, v);
    EmptyOneOrMany(FitsIn(files, p, target));
    if v.path != p {
      FitsEarly(files, before + {p}, v.path, target);
      OnlyFitOfFile(files, rows, v.path, target, v);
    }
    forall u | u in AllRows(files) && Fits(u, target)
      ensures u == v
    {
      FittingRow(files, u, target);
    }
  }

  lemma NoOnlyFit(files: map<Path, File>, before: set<Path>, p: Path, target: Name)
    requires Keyed(files) && p in files && OrderIrrelevant(files, p, target) && target !in Names(files[p])
    requires forall v :: !OnlyFitIn(AllRows(Part(files, before + {p})), target, v)
    ensures Defined(files, target) || forall v :: !OnlyFitIn(AllRows(files), target, v)
  {
    EmptyOneOrMany(FitsIn(files, p, target));
    forall v | OnlyFitIn(AllRows(files), target, v) && !Defined(files, target)
      ensures false
    {
      WholeFit(files, before, p, target, v);
    }
  }

  /** The only fit of the whole repository, if it is not found early, is the only one of another file. */
  lemma WholeFit(files: map<Path, File>, before: set<Path>, p: Path, target: Name, v: Node)
    requires Keyed(files) && p in files && OnlyFitIn(AllRows(files), target, v)
    requires forall u :: !OnlyFitIn(AllRows(Part(files, before + {p})), target, u)
    ensures v.path in files && v.path != p && One(FitsIn(files, v.path, target)) && FitsIn(files, p, target) == {}
  {
    FittingRow(files, v, target);
    forall g, u | g in files && u in FitsIn(files, g, target)
      ensures u in AllRows(files)
    {
      FitIsRow(files, g, target, u);
    }
    OnlyFitOfFile(files, AllRows(files), p, target, v);
    OnlyFitOfFile(files, AllRows(files), v.path, target, v);
    if v.path == p {
      PartRow(files, before + {p}, v);
      forall u | u in AllRows(Part(files, before + {p})) && Fits(u, target)
        ensures u == v
      {
        PartRow(files, before + {p}, u);
      }
      assert OnlyFitIn(AllRows(Part(files, before + {p})), target, v);
    }
  }

  /** Under the condition, every choice of preceding files gives what the whole repository says. */
  lemma IrrelevantSettles(files: map<Path, File>, before: set<Path>, p: Path, target: Name)
    requires Keyed(files) && DistinctRowNames(AllRows(files)) && p in files && before <= files.Keys - {p}
    requires OrderIrrelevant(files, p, target)
    ensures Settled(files, before, p, target)
  {
    if target in Names(files[p]) {
      NamedEarly(files, before, p, target, p);
    } else if d :| d in before && target in Names(files[d]) {
      NamedEarly(files, before, p, target, d);
    } else {
      UnnamedEarly(files, before, p, target);
      var early := Answer(AllRows(Part(files, before + {p})), target);
      if early.Some? {
        OnlyOwnFound(files, before, p, target, early.value);
        FoundEarly(files, before, p, target, early.value);
      } else {
        NoOnlyFit(files, before, p, target);
        FoundLate(files, before, p, target);
      }
    }
  }

  /** One short name that fits, in the subclass's file or in one before it, is taken at once. */
  lemma TakenAtOnce(files: map<Path, File>, before: set<Path>, p: Path, target: Name, v: Node)
    requires Keyed(files) && p in files && before <= files.Keys - {p}
    requires target !in Names(files[p]) && forall d :: d in before ==> target !in Names(files[d])
    requires v.path in before + {p} && FitsIn(files, v.path, target) == {v}
    requires forall g :: g in before + {p} && g != v.path ==> FitsIn(files, g, target) == {}
    ensures OnlyFitIn(AllRows(Part(files, before + {p})), target, v)
    ensures forall u :: !NamedIn(AllRows(Part(files, before + {p})), target, u)
  {
    assert v in FitsIn(files, v.path, target);
    FitIsRow(files, v.path, target, v);
    PartRow(files, before + {p}, v);
    UnnamedEarly(files, before, p, target);
    forall u | u in AllRows(Part(files, before + {p})) && Fits(u, target)
      ensures u == v
    {
      PartRow(files, before + {p}, u);
      FittingRow(files, u, target);
    }
  }

  /** With nothing before it, a subclass whose file has no row that fits starts unbound. */
  lemma NothingAtOnce(files: map<Path, File>, p: Path, target: Name)
    requires Keyed(files) && p in files && target !in Names(files[p]) && FitsIn(files, p, target) == {}
    ensures Answer(AllRows(Part(files, {} + {p})), target).None?
  {
    UnnamedEarly(files, {}, p, target);
    forall u | u in AllRows(Part(files, {} + {p}))
      ensures !Fits(u, target)
    {
      PartRow(files, {} + {p}, u);
      FittingRow(files, u, target);
    }
  }

  lemma TwoFits(files: map<Path, File>, v: Node, g: Path, target: Name)
    requires Keyed(files) && g in files && g != v.path && FitsIn(files, g, target) != {}
    ensures !OnlyFitIn(AllRows(files), target, v)
  {
    var u :| u in FitsIn(files, g, target);
    FitIsRow(files, g, target, u);
  }

  /** Without the condition, some choice of preceding files gives something else. */
  lemma RelevantUnsettles(files: map<Path, File>, p: Path, target: Name) returns (before: set<Path>)
    requires Keyed(files) && DistinctRowNames(AllRows(files)) && p in files && !OrderIrrelevant(files, p, target)
    ensures before <= files.Keys - {p} && !Settled(files, before, p, target)
  {
    hide Settled, DistinctRowNames, Keyed;
    var own := FitsIn(files, p, target);
    EmptyOneOrMany(own);
    if One(own) {
      before := {};
      var v :| own == {v};
      FitIsRow(files, p, target, v);
      TakenAtOnce(files, {}, p, target, v);
      FoundEarly(files, {}, p, target, v);
      if !Defined(files, target) {
        var g :| g in files && g != p && FitsIn(files, g, target) != {};
        TwoFits(files, v, g, target);
      }
    } else {
      var g :| g in files && g != p && target !in Names(files[g]) && One(FitsIn(files, g, target));
      var v :| FitsIn(files, g, target) == {v};
      FitIsRow(files, g, target, v);
      TakenAtOnce(files, {g}, p, target, v);
      FoundEarly(files, {g}, p, target, v);
      NothingAtOnce(files, p, target);
      FoundLate(files, {}, p, target);
      before := if Settled(files, {g}, p, target) then {} else {g};
    }
  }

  /**
   * An INHERITS edge ends up bound as a lookup in the whole repository would bind it, whichever files
   * came before its own, exactly when the files meet the condition.
   */
  lemma InheritsSettledIff(files: map<Path, File>, p: Path, target: Name)
    requires Keyed(files) && DistinctRowNames(AllRows(files)) && p in files
    ensures (forall before :: before <= files.Keys - {p} ==> Settled(files, before, p, target))
            <==> OrderIrrelevant(files, p, target)
  {
    hide Settled, DistinctRowNames, Keyed, OrderIrrelevant;
    if OrderIrrelevant(files, p, target) {
      forall before | before <= files.Keys - {p}
        ensures Settled(files, before, p, target)
      {
        IrrelevantSettles(files, before, p, target);
      }
    } else {
      var before := RelevantUnsettles(files, p, target);
    }
  }
}
