/**
 * What an incremental run makes of a git change list, and when that is what a full walk of the
 * new tree would make of it (backend/app/graph/ingest.py:456-716, 1092-1126).
 */
module ChangeLists {
  import opened Wrappers
  import opened CodeGraph
  import opened SourceTree

  datatype Change =
    | Added(path: Path)
    | Modified(path: Path)
    | Deleted(path: Path)
    | Renamed(path: Path, old_path: Path)

  // ---- What a run does to each path ----

  /** A JS or TS location that discovery passes over. */
  predicate Pruned(tree: Tree, path: Path) {
    IsJsTs(path) && (IsJsTsNoise(path) || (path in tree && |tree[path]| > MAX_FILE_BYTES))
  }

  predicate Mentions(c: Change, p: Path) {
    c.path == p || (c.Renamed? && c.old_path == p)
  }

  /** The packages that are selected afresh. */
  function TouchedPackages(changes: set<Change>): set<string> {
    (set c | c in changes && IsGo(c.path) :: PackageKey(c.path))
    + set c | c in changes && c.Renamed? && IsGo(c.old_path) :: PackageKey(c.old_path)
  }

  /** `c` makes the run delete the rows of the non-Go file `p`. */
  predicate Dooms(tree: Tree, c: Change, p: Path) {
    !IsGo(p) &&
    match c
    case Added(_) => false
    case Modified(q) => p == q && Pruned(tree, q) && !IsJsTsNoise(p)
    case Deleted(q) => p == q && (IsJsTs(p) ==> !IsJsTsNoise(p))
    case Renamed(q, o) => p == o && (Pruned(tree, q) ==> !IsJsTsNoise(p))
  }

  /** `c` makes the run parse the non-Go file `p`. */
  predicate Parses(tree: Tree, c: Change, p: Path) {
    !c.Deleted? && c.path == p && DetectLanguage(p).Some? && !IsGo(p) && !Pruned(tree, p)
  }

  predicate Selected(w: Settings, tree: Tree, p: Path) {
    p in tree && IsGo(p) && w.selects(p, tree[p])
  }

  /** Rows of `p` go in one of the two delete phases. */
  predicate Dropped(w: Settings, tree: Tree, changes: set<Change>, p: Path) {
    || (exists c :: c in changes && Dooms(tree, c, p))
    || (Suffix(p) == ".go" && PackageKey(p) in TouchedPackages(changes) && !Selected(w, tree, p))
  }

  /** Rows of `p` are written in one of the two insert phases. */
  predicate Written(w: Settings, index: Index, tree: Tree, changes: set<Change>, p: Path) {
    p in tree &&
    ((exists c :: c in changes && Parses(tree, c, p))
     || (Selected(w, tree, p) && PackageKey(p) in TouchedPackages(changes)
         && (p in index ==> index[p].hash != w.hash(tree[p]))))
  }

  function AfterDeletes(w: Settings, index: Index, tree: Tree, changes: set<Change>): Index {
    map p | p in index && !Dropped(w, tree, changes, p) :: index[p]
  }

  function Outcome(w: Settings, index: Index, tree: Tree, changes: set<Change>): Index {
    AfterDeletes(w, index, tree, changes)
    + map p | p in tree && Written(w, index, tree, changes, p) :: EntryOf(w, p, tree[p])
  }

  // ---- Correct change lists ----

  function RemovedBy(c: Change): Option<Path> {
    match c
    case Deleted(p) => Some(p)
    case Renamed(_, o) => Some(o)
    case _ => None
  }

  /** The list accounts for the step from one tree to the other; paths may be renamed in chains and swaps. */
  ghost predicate Describes(changes: set<Change>, before: Tree, after: Tree) {
    && (forall c :: c in changes && !c.Deleted? ==> c.path in after)
    && (forall c :: c in changes && c.Deleted? ==> c.path in before && c.path !in after)
    && (forall c :: c in changes && c.Added? ==> c.path !in before)
    && (forall c :: c in changes && c.Modified? ==> c.path in before)
    && (forall c :: c in changes && c.Renamed? ==> c.old_path in before)
    && (forall p :: p in after && (p in before ==> before[p] != after[p]) ==>
          exists c :: c in changes && WritesPath(c, p))
    && (forall p :: p in before && p !in after ==> exists c :: c in changes && RemovedBy(c) == Some(p))
    // what is renamed away is gone, unless something else took its place
    && (forall c :: c in changes && c.Renamed? && c.old_path in after ==>
          exists d :: d in changes && WritesPath(d, c.old_path))
    // what a rename lands on was itself renamed away
    && (forall c :: c in changes && c.Renamed? && c.path in before ==>
          exists d :: d in changes && RemovedBy(d) == Some(c.path))
    && (forall c, d :: c in changes && d in changes && RemovedBy(c).Some? && RemovedBy(c) == RemovedBy(d) ==> c == d)
  }

  predicate WritesPath(c: Change, p: Path) {
    !c.Deleted? && c.path == p
  }

  // ---- The two ways a path is stranded ----

  /** A Python file in a JS noise directory is renamed to a JS file that is passed over. */
  predicate RenamedIntoNoise(after: Tree, c: Change) {
    c.Renamed? && IsPython(c.old_path) && IsJsTsNoise(c.old_path) && Pruned(after, c.path) && c.old_path !in after
  }

  /** A Go file whose suffix is not written ".go" is no longer indexed. */
  predicate OddSuffixLeft(w: Settings, before: Tree, after: Tree, p: Path) {
    p in Present(w, before) && IsGo(p) && Suffix(p) != ".go" && !Selected(w, after, p)
  }

  predicate Strands(w: Settings, before: Tree, after: Tree, changes: set<Change>) {
    || (exists c :: c in changes && RenamedIntoNoise(after, c))
    || (exists p :: p in before && OddSuffixLeft(w, before, after, p))
  }

  lemma GoPathMentioned(changes: set<Change>, c: Change, p: Path)
    requires c in changes && IsGo(p) && (c.path == p || (c.Renamed? && c.old_path == p))
    ensures PackageKey(p) in TouchedPackages(changes)
  {
  }

  lemma PresentMeans(w: Settings, tree: Tree, p: Path)
    ensures p in Present(w, tree) && IsGo(p) ==> Selected(w, tree, p)
    ensures p in Present(w, tree) && !IsGo(p) ==> DetectLanguage(p).Some? && !Pruned(tree, p)
    ensures Selected(w, tree, p) ==> p in Present(w, tree)
    ensures p in tree && !IsGo(p) && DetectLanguage(p).Some? && !Pruned(tree, p) ==> p in Present(w, tree)
  {
    hide DetectLanguage, IsJsTsNoise;
  }

  lemma SuffixMeansGo(p: Path)
    requires Suffix(p) == ".go"
    ensures IsGo(p)
  {
    assert Lower(".go") == ".go";
  }

  /** A file of the new index is never dropped and left out. */
  lemma KeptIfUnwritten(w: Settings, before: Tree, after: Tree, changes: set<Change>, p: Path)
    requires Describes(changes, before, after) && p in Present(w, after)
    requires Dropped(w, after, changes, p)
    ensures exists c :: c in changes && WritesPath(c, p) && !IsGo(p)
  {
    hide DetectLanguage, IsJsTsNoise, Suffix, PackageKey, TouchedPackages;
    PresentMeans(w, after, p);
    if Suffix(p) == ".go" && !Selected(w, after, p) {
      SuffixMeansGo(p);
    }
    var c :| c in changes && Dooms(after, c, p);
    assert c.Modified? ==> WritesPath(c, p);
  }

  lemma WrittenIfNamed(w: Settings, index: Index, after: Tree, changes: set<Change>, c: Change, p: Path)
    requires c in changes && WritesPath(c, p) && p in Present(w, after) && !IsGo(p)
    ensures Written(w, index, after, changes, p)
  {
    hide DetectLanguage, IsJsTsNoise;
    PresentMeans(w, after, p);
    assert Parses(after, c, p);
  }

  /** A file of the new index that no insert writes is there already, as it should be. */
  lemma UnwrittenIsCurrent(w: Settings, before: Tree, after: Tree, changes: set<Change>, p: Path)
    requires Describes(changes, before, after) && p in Present(w, after)
    requires !Written(w, IndexOf(w, before), after, changes, p)
    ensures p in IndexOf(w, before) && IndexOf(w, before)[p] == EntryOf(w, p, after[p])
    ensures !Dropped(w, after, changes, p)
  {
    hide DetectLanguage, IsJsTsNoise, Suffix, PackageKey, TouchedPackages, Dropped;
    PresentMeans(w, after, p);
    if c :| c in changes && WritesPath(c, p) {
      if IsGo(p) {
        GoPathMentioned(changes, c, p);
      } else {
        WrittenIfNamed(w, IndexOf(w, before), after, changes, c, p);
      }
    } else {
      assert p in before && before[p] == after[p];
    }
    if Dropped(w, after, changes, p) {
      KeptIfUnwritten(w, before, after, changes, p);
    }
  }

  /** Only files of the new index are written. */
  lemma WrittenIsPresent(w: Settings, index: Index, after: Tree, changes: set<Change>, p: Path)
    requires Written(w, index, after, changes, p)
    ensures p in Present(w, after)
  {
    hide DetectLanguage, IsJsTsNoise, TouchedPackages, PackageKey;
    PresentMeans(w, after, p);
  }

  // ---- Which files are left behind ----

  /** Rows of a file that is not indexed any more, and that no delete phase reaches. */
  ghost predicate LeftBehind(w: Settings, before: Tree, after: Tree, changes: set<Change>, p: Path) {
    p in Present(w, before) && p !in Present(w, after) && !Dropped(w, after, changes, p)
  }

  lemma GoLeftBehindIff(w: Settings, before: Tree, after: Tree, changes: set<Change>, p: Path)
    requires Describes(changes, before, after) && p in Present(w, before) && p !in Present(w, after) && IsGo(p)
    ensures !Dropped(w, after, changes, p) <==> Suffix(p) != ".go"
    ensures !Selected(w, after, p)
  {
    hide DetectLanguage, IsJsTsNoise, Suffix, PackageKey, TouchedPackages;
    PresentMeans(w, before, p);
    PresentMeans(w, after, p);
    if p in after && before[p] != after[p] {
      var c :| c in changes && WritesPath(c, p);
      GoPathMentioned(changes, c, p);
    } else if p !in after {
      var c :| c in changes && RemovedBy(c) == Some(p);
      GoPathMentioned(changes, c, p);
    }
  }

  /** A JS, TS or Python file that is no longer indexed was removed, or outgrew the size limit. */
  lemma RemovedOrGrown(w: Settings, before: Tree, after: Tree, changes: set<Change>, p: Path) returns (c: Change)
    requires Describes(changes, before, after) && p in Present(w, before) && p !in Present(w, after) && !IsGo(p)
    ensures c in changes && (RemovedBy(c) == Some(p) || (c == Modified(p) && Pruned(after, p)))
    ensures IsJsTs(p) ==> !IsJsTsNoise(p)
    ensures p !in after || !IsPython(p)
  {
    hide DetectLanguage, IsJsTsNoise;
    PresentMeans(w, before, p);
    PresentMeans(w, after, p);
    if p !in after {
      c :| c in changes && RemovedBy(c) == Some(p);
    } else {
      c :| c in changes && WritesPath(c, p);
      if c.Renamed? {
        c :| c in changes && RemovedBy(c) == Some(p);
      }
    }
  }

  lemma LanguagesApart(p: Path)
    requires DetectLanguage(p).Some? && !IsGo(p)
    ensures IsPython(p) <==> !IsJsTs(p)
  {
  }

  lemma OtherLeftBehindIff(w: Settings, before: Tree, after: Tree, changes: set<Change>, p: Path)
    requires Describes(changes, before, after) && p in Present(w, before) && p !in Present(w, after) && !IsGo(p)
    ensures !Dropped(w, after, changes, p)
            <==> exists c :: c in changes && RenamedIntoNoise(after, c) && RemovedBy(c) == Some(p)
  {
    hide DetectLanguage, IsJsTsNoise, Suffix, PackageKey, TouchedPackages, Pruned;
    var c := RemovedOrGrown(w, before, after, changes, p);
    PresentMeans(w, before, p);
    LanguagesApart(p);
    if Suffix(p) == ".go" {
      SuffixMeansGo(p);
    }
    if RemovedBy(c) == Some(p) {
      assert forall d :: d in changes && Dooms(after, d, p) && d != c ==> d.Modified?;
    }
  }

  /** Some file is left behind exactly when the list strands one. */
  lemma SomeLeftBehindIff(w: Settings, before: Tree, after: Tree, changes: set<Change>)
    requires Describes(changes, before, after)
    ensures (exists p :: p in before && LeftBehind(w, before, after, changes, p))
             <==> Strands(w, before, after, changes)
  {
    hide LeftBehind, OddSuffixLeft, RenamedIntoNoise;
    forall p | p in before && LeftBehind(w, before, after, changes, p)
      ensures OddSuffixLeft(w, before, after, p) || exists c :: c in changes && RenamedIntoNoise(after, c)
    {
      LeftBehindWhy(w, before, after, changes, p);
    }
    forall p | p in before && OddSuffixLeft(w, before, after, p)
      ensures LeftBehind(w, before, after, changes, p)
    {
      OddSuffixLeavesBehind(w, before, after, changes, p);
    }
    forall c | c in changes && RenamedIntoNoise(after, c)
      ensures c.Renamed? && c.old_path in before && LeftBehind(w, before, after, changes, c.old_path)
    {
      RenameLeavesBehind(w, before, after, changes, c);
    }
  }

  lemma LeftBehindWhy(w: Settings, before: Tree, after: Tree, changes: set<Change>, p: Path)
    requires Describes(changes, before, after) && LeftBehind(w, before, after, changes, p)
    ensures OddSuffixLeft(w, before, after, p) || exists c :: c in changes && RenamedIntoNoise(after, c)
  {
    hide Present, Dropped, IsGo, Suffix, RenamedIntoNoise, Selected, Describes;
    if IsGo(p) {
      GoLeftBehindIff(w, before, after, changes, p);
    } else {
      OtherLeftBehindIff(w, before, after, changes, p);
    }
  }

  lemma OddSuffixLeavesBehind(w: Settings, before: Tree, after: Tree, changes: set<Change>, p: Path)
    requires Describes(changes, before, after) && OddSuffixLeft(w, before, after, p)
    ensures LeftBehind(w, before, after, changes, p)
  {
    hide Present, Dropped, IsGo, Suffix, Selected, Describes;
    OddSuffixNotPresent(w, after, p);
    GoLeftBehindIff(w, before, after, changes, p);
  }

  lemma RenameLeavesBehind(w: Settings, before: Tree, after: Tree, changes: set<Change>, c: Change)
    requires Describes(changes, before, after) && c in changes && RenamedIntoNoise(after, c)
    ensures c.Renamed? && c.old_path in before && LeftBehind(w, before, after, changes, c.old_path)
  {
    hide Present, Dropped, IsGo, IsPython, IsJsTsNoise, Pruned;
    var p := c.old_path;
    PythonPresentIff(w, before, p);
    PythonPresentIff(w, after, p);
    assert RemovedBy(c) == Some(p);
    OtherLeftBehindIff(w, before, after, changes, p);
  }

  lemma OddSuffixNotPresent(w: Settings, tree: Tree, p: Path)
    requires IsGo(p) && !Selected(w, tree, p)
    ensures p !in Present(w, tree)
  {
  }

  lemma PythonPresentIff(w: Settings, tree: Tree, p: Path)
    requires IsPython(p)
    ensures p in Present(w, tree) <==> p in tree
    ensures !IsGo(p)
  {
  }

  /**
   * From the exact index of the old tree, an incremental run ends with the exact index of the new
   * one if and only if the change list strands no file; the order of the list plays no part.
   */
  lemma OutcomeExactIff(w: Settings, before: Tree, after: Tree, changes: set<Change>)
    requires Describes(changes, before, after)
    ensures Outcome(w, IndexOf(w, before), after, changes) == IndexOf(w, after) <==> !Strands(w, before, after, changes)
  {
    hide Present, Dropped, Written, Strands, Describes;
    var index, outcome := IndexOf(w, before), Outcome(w, IndexOf(w, before), after, changes);
    forall p
      ensures p in Present(w, after) ==> p in after && p in outcome && outcome[p] == EntryOf(w, p, after[p])
      ensures p in outcome && p !in Present(w, after) <==> LeftBehind(w, before, after, changes, p)
    {
      if Written(w, index, after, changes, p) {
        WrittenIsPresent(w, index, after, changes, p);
        PresentInTree(w, after, p);
      } else if p in Present(w, after) {
        PresentInTree(w, after, p);
        UnwrittenIsCurrent(w, before, after, changes, p);
      }
    }
    forall p | LeftBehind(w, before, after, changes, p)
      ensures p in before
    {
      PresentInTree(w, before, p);
    }
    SomeLeftBehindIff(w, before, after, changes);
    if outcome == IndexOf(w, after) {
      assert forall p :: p in outcome ==> p in Present(w, after);
    }
  }

  lemma PresentInTree(w: Settings, tree: Tree, p: Path)
    requires p in Present(w, tree)
    ensures p in tree
  {
  }

  /**
   * When the first insert runs, only files that the new tree indexes are left, again exactly when no
   * file is stranded.
   */
  lemma InsertsStartCleanIff(w: Settings, before: Tree, after: Tree, changes: set<Change>)
    requires Describes(changes, before, after)
    ensures AfterDeletes(w, IndexOf(w, before), after, changes).Keys <= Present(w, after)
            <==> !Strands(w, before, after, changes)
  {
    hide Present, Dropped, Strands, Describes;
    var left := AfterDeletes(w, IndexOf(w, before), after, changes);
    forall p
      ensures p in left && p !in Present(w, after) <==> LeftBehind(w, before, after, changes, p)
      ensures LeftBehind(w, before, after, changes, p) ==> p in before
    {
      if LeftBehind(w, before, after, changes, p) {
        PresentInTree(w, before, p);
      }
    }
    SomeLeftBehindIff(w, before, after, changes);
  }

  // ---- The two cases happen ----

  lemma BuildLanguages()
    ensures IsPython("build/x.py") && IsJsTs("build/x.js")
  {
    hide Suffix;
    SuffixAfterStem("build/", "x", ".py");
    SuffixAfterStem("build/", "x", ".js");
    assert "build/" + "x" + ".py" == "build/x.py" && "build/" + "x" + ".js" == "build/x.js";
    assert Lower(".py") == ".py" && Lower(".js") == ".js";
  }

  lemma InBuild(name: string)
    requires '/' !in name
    ensures IsJsTsNoise("build/" + name)
  {
    var path := "build/" + name;
    assert path[5] == '/' && forall j :: 5 < j < |path| ==> path[j] in name;
    assert LastIndexOf(path, '/') == 5;
    assert path[..5] == "build" && LastIndexOf("build", '/') == -1;
    assert "build" in Directories(path);
  }

  /** `build/x.py` becomes `build/x.js`: the Python rows stay. */
  lemma RenameIntoNoiseStrands(w: Settings, text: Text)
    ensures var before: Tree := map["build/x.py" := text];
            var after: Tree := map["build/x.js" := text];
            var changes := {Renamed("build/x.js", "build/x.py")};
            Describes(changes, before, after) && Strands(w, before, after, changes)
  {
    hide IsPython, IsJsTs, IsJsTsNoise, OddSuffixLeft;
    var c := Renamed("build/x.js", "build/x.py");
    assert c in {c} && WritesPath(c, "build/x.js") && RemovedBy(c) == Some("build/x.py");
    BuildLanguages();
    InBuild("x.py");
    InBuild("x.js");
    assert "build/" + "x.py" == "build/x.py" && "build/" + "x.js" == "build/x.js";
    assert RenamedIntoNoise(map["build/x.js" := text], c);
  }

  /** `a.GO` is deleted: its rows stay. */
  lemma UpperCaseSuffixStrands(w: Settings, text: Text)
    requires w.selects("a.GO", text)
    ensures var before: Tree := map["a.GO" := text];
            Describes({Deleted("a.GO")}, before, map[]) && Strands(w, before, map[], {Deleted("a.GO")})
  {
    hide Suffix, RenamedIntoNoise;
    var c := Deleted("a.GO");
    assert c in {c} && RemovedBy(c) == Some("a.GO");
    SuffixAfterStem("", "a", ".GO");
    assert "" + "a" + ".GO" == "a.GO" && Lower(".GO") == ".go";
    assert OddSuffixLeft(w, map["a.GO" := text], map[], "a.GO");
  }
}
