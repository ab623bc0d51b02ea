/**
 * An incremental run over the graph itself (backend/app/graph/ingest.py:456-716, 834-909): the
 * deletes that a change list asks for, the inserts, each in its savepoint, and the refresh, against a
 * full walk of the new tree.
 */
module IncrementalRuns {
  import opened CodeGraph
  import opened SourceTree
  import opened CallArrays
  import opened FileRewrite
  import opened RowReplacement
  import opened GraphStates
  import opened StoreRuns
  import opened InheritsWalk
  import opened InheritsHistory
  import Bindings = InheritsOrder
  import Changes = ChangeLists
  import Orders = WalkOrders

  type Extraction = (Path, Text) -> File

  /** What a run is given: the settings, the two trees and the list of changes between them. */
  datatype Job = Job(w: Settings, extract: Extraction, before: Tree, after: Tree, changes: set<Changes.Change>)

  /** A file is extracted under its path, and content of the same hash alike. */
  ghost predicate HashDecides(w: Settings, extract: Extraction) {
    && (forall p: Path, t: Text :: extract(p, t).path == p)
    && (forall p: Path, t: Text, u: Text :: w.hash(t) == w.hash(u) ==> extract(p, t) == extract(p, u))
  }

  /** What a full walk of the tree stores. */
  function FilesOf(w: Settings, extract: Extraction, tree: Tree): map<Path, File> {
    map p | p in Present(w, tree) && p in tree :: extract(p, tree[p])
  }

  function OldFiles(j: Job): map<Path, File> {
    FilesOf(j.w, j.extract, j.before)
  }

  function NewFiles(j: Job): map<Path, File> {
    FilesOf(j.w, j.extract, j.after)
  }

  /** The list is correct, and no two files of the new tree define the same name. */
  ghost predicate Sound(j: Job) {
    HashDecides(j.w, j.extract) && Changes.Describes(j.changes, j.before, j.after) && Orders.Extracted(NewFiles(j))
  }

  ghost predicate Dropped(j: Job, p: Path) {
    Changes.Dropped(j.w, j.after, j.changes, p)
  }

  ghost predicate Written(j: Job, p: Path) {
    Changes.Written(j.w, IndexOf(j.w, j.before), j.after, j.changes, p)
  }

  ghost predicate Strands(j: Job) {
    Changes.Strands(j.w, j.before, j.after, j.changes)
  }

  /** The files that the deletes leave, in their old versions. */
  ghost function Left(j: Job): map<Path, File> {
    map p | p in OldFiles(j) && !Dropped(j, p) :: OldFiles(j)[p]
  }

  // ---- What the change list means for one file ----

  lemma InPresent(w: Settings, tree: Tree, p: Path)
    ensures p in Present(w, tree) ==> p in tree
  {
  }

  lemma FilesOfIs(w: Settings, extract: Extraction, tree: Tree, p: Path)
    ensures p in FilesOf(w, extract, tree) <==> p in Present(w, tree)
    ensures p in Present(w, tree) ==> p in tree && FilesOf(w, extract, tree)[p] == extract(p, tree[p])
  {
    hide Present;
    InPresent(w, tree, p);
  }

  /** Only files of the new tree are written. */
  lemma WrittenIsNew(j: Job, p: Path)
    requires Written(j, p)
    ensures p in NewFiles(j)
  {
    hide Present, Changes.Written;
    Changes.WrittenIsPresent(j.w, IndexOf(j.w, j.before), j.after, j.changes, p);
    FilesOfIs(j.w, j.extract, j.after, p);
  }

  /** A file of the new tree that is not written is left by the deletes, and is as it should be. */
  lemma UnwrittenIsCurrent(j: Job, p: Path)
    requires Sound(j) && p in NewFiles(j) && !Written(j, p)
    ensures p in Left(j) && Left(j)[p] == NewFiles(j)[p]
  {
    hide Present, Changes.Written, Changes.Dropped, Changes.Describes, Orders.Extracted;
    FilesOfIs(j.w, j.extract, j.after, p);
    Changes.UnwrittenIsCurrent(j.w, j.before, j.after, j.changes, p);
    FilesOfIs(j.w, j.extract, j.before, p);
    InPresent(j.w, j.before, p);
    var t, u := j.before[p], j.after[p];
    assert j.w.hash(t) == j.w.hash(u);
  }

  /** The deletes leave only files of the new tree exactly when the list strands none. */
  lemma LeftAreNewIff(j: Job)
    requires Changes.Describes(j.changes, j.before, j.after)
    ensures Left(j).Keys <= NewFiles(j).Keys <==> !Strands(j)
  {
    hide Present, Changes.Dropped, Changes.Describes, Changes.Strands, FilesOf;
    forall p
      ensures p in Left(j) && p !in NewFiles(j) <==> Changes.LeftBehind(j.w, j.before, j.after, j.changes, p)
      ensures Changes.LeftBehind(j.w, j.before, j.after, j.changes, p) ==> p in j.before
    {
      FilesOfIs(j.w, j.extract, j.before, p);
      FilesOfIs(j.w, j.extract, j.after, p);
    }
    Changes.SomeLeftBehindIff(j.w, j.before, j.after, j.changes);
  }

  // ---- A run ----

  /** The deletes, the files to write in the order the run takes them, what it makes of each, and the refresh. */
  datatype Run = Run(deletes: seq<Op>, first: seq<Store>, paths: seq<Path>, inserts: seq<Op>, tries: seq<Store>,
                     end: Store)

  ghost predicate Steps(states: seq<Store>, ops: seq<Op>, r: Reading) {
    && |states| == |ops| + 1
    && forall i :: 0 <= i < |ops| ==> StepTo(states[i], ops[i], states[i + 1], r) && MisleadsNone(states[i], ops[i])
  }

  ghost predicate Deletes(j: Job, ops: seq<Op>) {
    && (forall o :: o in ops ==> o.DeleteFile? && Dropped(j, o.path))
    && (forall p :: p in OldFiles(j) && Dropped(j, p) ==> DeleteFile(p) in ops)
  }

  /** Every file to write, once, in any order. */
  ghost predicate Order(j: Job, paths: seq<Path>) {
    NoDuplicates(paths) && forall p :: p in paths <==> Written(j, p)
  }

  /** An insert in its savepoint: skipped when a row of another file bears one of the names. */
  ghost predicate Tried(s: Store, f: File, op: Op) {
    if NamesFree(s.db.nodes, f) then op.Persist? && op.f == f else op.SkipFile?
  }

  ghost predicate Inserts(j: Job, run: Run, r: Reading) {
    && Order(j, run.paths) && |run.inserts| == |run.paths| && Steps(run.tries, run.inserts, r)
    && forall i :: 0 <= i < |run.paths| ==>
         run.paths[i] in NewFiles(j) && Tried(run.tries[i], NewFiles(j)[run.paths[i]], run.inserts[i])
  }

  /** From the graph of the old tree. */
  ghost predicate RunOf(j: Job, run: Run, r: Reading) {
    && Deletes(j, run.deletes) && Steps(run.first, run.deletes, r)
    && Good(run.first[0]) && run.first[0].due == {} && run.first[0].files == OldFiles(j)
    && Inserts(j, run, r) && run.tries[0] == run.first[|run.deletes|]
    && StepTo(run.tries[|run.inserts|], Refresh, run.end, r)
  }

  lemma StepFiles(s: Store, op: Op, t: Store, r: Reading)
    requires StepTo(s, op, t, r)
    ensures op.DeleteFile? ==> t.files == s.files - {op.path}
    ensures op.Persist? ==> t.files == s.files[op.f.path := op.f]
    ensures op.SkipFile? || op.Refresh? ==> t.files == s.files
    ensures op.Refresh? ==> t.due == {}
  {
    hide Persisted;
  }

  // ---- The deletes ----

  lemma {:induction false} DeletesInARow(states: seq<Store>, ops: seq<Op>, r: Reading, n: nat, p: Path)
    requires Steps(states, ops, r) && Good(states[0]) && n <= |ops| && forall o :: o in ops ==> o.DeleteFile?
    ensures Good(states[n])
    ensures p in states[n].files <==> p in states[0].files && DeleteFile(p) !in ops[..n]
    ensures p in states[n].files ==> states[n].files[p] == states[0].files[p]
  {
    hide Good, MisleadsNone, StepTo;
    if n > 0 {
      DeletesInARow(states, ops, r, n - 1, p);
      StepKeepsGood(states[n - 1], ops[n - 1], states[n], r);
      StepFiles(states[n - 1], ops[n - 1], states[n], r);
      assert ops[..n] == ops[..n - 1] + [ops[n - 1]];
      assert ops[n - 1] in ops;
    }
  }

  lemma FirstHalf(j: Job, run: Run, r: Reading)
    requires RunOf(j, run, r)
    ensures |run.tries| == |run.paths| + 1 && Good(run.tries[0]) && run.tries[0].files == Left(j)
  {
    hide Good, Order, Tried, Written, Dropped, OldFiles, StepTo, MisleadsNone, Deletes;
    forall p
      ensures p in run.tries[0].files <==> p in Left(j)
      ensures p in Left(j) ==> run.tries[0].files[p] == Left(j)[p]
    {
      FirstHalfAt(j, run.deletes, run.first, r, p);
    }
    FirstHalfAt(j, run.deletes, run.first, r, "");
  }

  lemma FirstHalfAt(j: Job, deletes: seq<Op>, states: seq<Store>, r: Reading, p: Path)
    requires Deletes(j, deletes) && Steps(states, deletes, r) && Good(states[0]) && states[0].files == OldFiles(j)
    ensures var s := states[|deletes|];
            Good(s) && (p in s.files <==> p in Left(j)) && (p in Left(j) ==> s.files[p] == Left(j)[p])
  {
    hide Good, Dropped, OldFiles, StepTo, MisleadsNone;
    DeletesInARow(states, deletes, r, |deletes|, p);
    assert deletes[..|deletes|] == deletes;
  }

  /**
   * When the inserts begin, every row left is of a file of the new tree, so that only an old version of
   * such a file can bear a name that an insert needs: exactly when the list strands no file.
   */
  lemma RowsLeftAreNewIff(j: Job, run: Run, r: Reading)
    requires RunOf(j, run, r) && Changes.Describes(j.changes, j.before, j.after)
    ensures (forall id :: id in run.tries[0].db.nodes ==> run.tries[0].db.nodes[id].path in NewFiles(j))
            <==> !Strands(j)
  {
    hide Deletes, Order, Tried, StepTo, MisleadsNone, Strands, Left, NewFiles, Consistent, EdgesRepresent;
    FirstHalf(j, run, r);
    LeftAreNewIff(j);
    var s := run.tries[0];
    RowsKnownPaths(s.db.nodes, s.files);
    forall p | p in Left(j)
      ensures exists id :: id in s.db.nodes && s.db.nodes[id].path == p
    {
      var x :| x in s.files[p].nodes && x.kind.Module?;
      var id := NameHasRow(s.db.nodes, s.files, p, x.qn);
    }
  }

  // ---- The inserts ----

  function Stored(run: Run, n: nat): set<Path>
    requires n <= |run.inserts| && n <= |run.paths|
  {
    set i | 0 <= i < n && run.inserts[i].Persist? :: run.paths[i]
  }

  lemma NoneStored(run: Run)
    ensures Stored(run, 0) == {}
  {
  }

  lemma StoredMore(run: Run, n: nat)
    requires n < |run.inserts| && n < |run.paths|
    ensures Stored(run, n + 1) == Stored(run, n) + if run.inserts[n].Persist? then {run.paths[n]} else {}
  {
  }

  lemma {:induction false} Halfway(j: Job, run: Run, r: Reading, n: nat, p: Path)
    requires Inserts(j, run, r) && Good(run.tries[0]) && Keyed(NewFiles(j)) && n <= |run.paths|
    ensures Good(run.tries[n])
    ensures p in run.tries[n].files <==> p in run.tries[0].files || p in Stored(run, n)
    ensures p in Stored(run, n) ==>
              p in NewFiles(j) && p in run.tries[n].files && run.tries[n].files[p] == NewFiles(j)[p]
    ensures p !in Stored(run, n) && p in run.tries[n].files ==> run.tries[n].files[p] == run.tries[0].files[p]
  {
    hide Good, StepTo, MisleadsNone, Order, NewFiles, NamesFree, Stored;
    if n == 0 {
      NoneStored(run);
    } else {
      Halfway(j, run, r, n - 1, p);
      StepKeepsGood(run.tries[n - 1], run.inserts[n - 1], run.tries[n], r);
      StepFiles(run.tries[n - 1], run.inserts[n - 1], run.tries[n], r);
      StoredMore(run, n - 1);
    }
  }

  ghost predicate ShareName(f: File, g: File) {
    exists name :: name in Names(f) && name in Names(g)
  }

  /** The old version of `q`, which the run has yet to rewrite, has a name that the new version of `p` needs. */
  ghost predicate HoldsName(j: Job, q: Path, p: Path) {
    q != p && q in Left(j) && Written(j, q) && p in NewFiles(j) && ShareName(Left(j)[q], NewFiles(j)[p])
  }

  lemma RowsOfFiles(s: Store, f: File)
    requires Good(s)
    ensures NamesFree(s.db.nodes, f)
            <==> forall q :: q in s.files && q != f.path ==> !ShareName(s.files[q], f)
  {
    hide Consistent, EdgesRepresent, FilesHaveModules;
    forall id | id in s.db.nodes
      ensures s.db.nodes[id].path in s.files && s.db.nodes[id].qn in Names(s.files[s.db.nodes[id].path])
    {
      RowHasName(s.db.nodes, s.files, id);
    }
    forall q, name | q in s.files && name in Names(s.files[q])
      ensures exists id :: id in s.db.nodes && s.db.nodes[id].path == q && s.db.nodes[id].qn == name
    {
      var id := NameHasRow(s.db.nodes, s.files, q, name);
    }
  }

  lemma NewFilesApart(j: Job, p: Path)
    requires Sound(j) && p in NewFiles(j)
    ensures Keyed(NewFiles(j)) && NewFiles(j)[p].path == p
    ensures forall q :: q in NewFiles(j) && q != p ==> !ShareName(NewFiles(j)[q], NewFiles(j)[p])
  {
    hide NewFiles, HashDecides, Changes.Describes;
  }

  /** What is stored at another path when an insert is tried can only be in its way as an old version. */
  lemma InTheWayIff(j: Job, run: Run, r: Reading, i: nat, q: Path)
    requires Sound(j) && !Strands(j) && RunOf(j, run, r) && i < |run.paths| && q != run.paths[i]
    requires run.paths[i] in NewFiles(j)
    ensures q in run.tries[i].files && ShareName(run.tries[i].files[q], NewFiles(j)[run.paths[i]])
            <==> HoldsName(j, q, run.paths[i]) && q !in Stored(run, i)
  {
    hide Good, Tried, Order, NewFiles, Left, Written, Strands, Sound, Steps, Deletes, Stored, StepTo;
    var p := run.paths[i];
    FirstHalf(j, run, r);
    LeftAreNew(j);
    NewFilesApart(j, p);
    Halfway(j, run, r, i, q);
    if q in NewFiles(j) && !Written(j, q) {
      UnwrittenIsCurrent(j, q);
    }
  }

  lemma LeftAreNew(j: Job)
    requires Sound(j)
    ensures Left(j).Keys <= NewFiles(j).Keys <==> !Strands(j)
  {
    LeftAreNewIff(j);
  }

  /**
   * When no file is stranded, an insert is skipped exactly when one of its names is still held by the
   * old version of another file of the new tree, which the run has yet to rewrite.
   */
  lemma SkippedIff(j: Job, run: Run, r: Reading, i: nat)
    requires Sound(j) && !Strands(j) && RunOf(j, run, r) && i < |run.paths|
    ensures run.inserts[i].SkipFile? <==> exists q :: HoldsName(j, q, run.paths[i]) && q !in Stored(run, i)
  {
    hide Good, Order, NewFiles, Left, Written, Strands, Sound, MisleadsNone, Deletes, Stored, StepTo, HoldsName,
         NamesFree, ShareName;
    var p := run.paths[i];
    var s, f := run.tries[i], NewFiles(j)[p];
    FirstHalf(j, run, r);
    NewFilesApart(j, p);
    Halfway(j, run, r, i, p);
    RowsOfFiles(s, f);
    forall q | q != p
      ensures q in s.files && ShareName(s.files[q], f) <==> HoldsName(j, q, p) && q !in Stored(run, i)
    {
      InTheWayIff(j, run, r, i, q);
    }
    NotInOwnWay(j, p);
    assert Tried(s, f, run.inserts[i]);
  }

  lemma NotInOwnWay(j: Job, p: Path)
    ensures !HoldsName(j, p, p)
  {
  }

  // ---- When nothing is skipped ----

  /** No file needs a name of the old version of a file that comes later. */
  ghost predicate Unblocked(j: Job, paths: seq<Path>) {
    forall i, k :: 0 <= i < k < |paths| ==> !HoldsName(j, paths[k], paths[i])
  }

  /** The first insert that is skipped is in the way of a later one, or none is skipped. */
  lemma {:induction false} NoneSkipped(j: Job, run: Run, r: Reading, n: nat)
    requires Sound(j) && !Strands(j) && RunOf(j, run, r) && Unblocked(j, run.paths) && n <= |run.paths|
    ensures forall i :: 0 <= i < n ==> run.inserts[i].Persist?
  {
    hide Good, Order, NewFiles, Written, Strands, Sound, MisleadsNone, Deletes, StepTo, HoldsName, NamesFree, Left;
    if n > 0 {
      var m := n - 1;
      var p := run.paths[m];
      NoneSkipped(j, run, r, m);
      SkippedIff(j, run, r, m);
      assert Tried(run.tries[m], NewFiles(j)[p], run.inserts[m]);
      if q :| HoldsName(j, q, p) && q !in Stored(run, m) {
        HolderIsOrdered(j, run.paths, q, p);
        var k :| 0 <= k < |run.paths| && run.paths[k] == q;
        NotInOwnWay(j, q);
      }
    }
  }

  lemma HolderIsOrdered(j: Job, paths: seq<Path>, q: Path, p: Path)
    requires HoldsName(j, q, p) && Order(j, paths)
    ensures q in paths
  {
    hide Written, NewFiles, Left;
  }

  lemma RunEnds(j: Job, run: Run, r: Reading)
    requires Sound(j) && RunOf(j, run, r)
    ensures Good(run.end) && run.end.due == {} && run.end.files == run.tries[|run.paths|].files
  {
    hide Good, Order, NewFiles, Left, Written, Tried, MisleadsNone, StepTo, Sound;
    var n := |run.paths|;
    FirstHalf(j, run, r);
    NewKeyed(j);
    Halfway(j, run, r, n, "");
    RefreshMisleads(run.tries[n]);
    StepKeepsGood(run.tries[n], Refresh, run.end, r);
    StepFiles(run.tries[n], Refresh, run.end, r);
  }

  lemma NewKeyed(j: Job)
    requires Sound(j)
    ensures Keyed(NewFiles(j))
  {
    hide NewFiles;
  }

  lemma RefreshMisleads(s: Store)
    ensures MisleadsNone(s, Refresh)
  {
  }

  lemma EndFile(j: Job, run: Run, r: Reading, p: Path)
    requires Sound(j) && RunOf(j, run, r)
    ensures p in run.end.files <==> p in Left(j) || p in Stored(run, |run.paths|)
    ensures p in Stored(run, |run.paths|) ==>
              p in NewFiles(j) && p in run.end.files && run.end.files[p] == NewFiles(j)[p]
    ensures p !in Stored(run, |run.paths|) && p in run.end.files ==> run.end.files[p] == Left(j)[p]
  {
    hide Good, Order, NewFiles, Left, Written, Tried, MisleadsNone, StepTo, Sound, Steps, Stored;
    FirstHalf(j, run, r);
    NewKeyed(j);
    RunEnds(j, run, r);
    Halfway(j, run, r, |run.paths|, p);
  }

  /** If no insert is blocked, the run ends with the files that a full walk stores. */
  lemma UnblockedIsExact(j: Job, run: Run, r: Reading)
    requires Sound(j) && !Strands(j) && RunOf(j, run, r) && Unblocked(j, run.paths)
    ensures run.end.files == NewFiles(j)
  {
    hide Good, NewFiles, Left, Written, Tried, MisleadsNone, StepTo, Sound, Steps, Deletes, HoldsName;
    NoneSkipped(j, run, r, |run.paths|);
    LeftAreNew(j);
    forall p
      ensures p in run.end.files <==> p in NewFiles(j)
      ensures p in NewFiles(j) ==> run.end.files[p] == NewFiles(j)[p]
    {
      EndFile(j, run, r, p);
      if Written(j, p) {
        var i :| 0 <= i < |run.paths| && run.paths[i] == p;
        assert p in Stored(run, |run.paths|);
      } else if p in NewFiles(j) {
        UnwrittenIsCurrent(j, p);
      }
    }
  }

  /** A blocked insert is skipped for good. */
  lemma BlockedIsSkipped(j: Job, run: Run, r: Reading, i: nat, k: nat)
    requires Sound(j) && !Strands(j) && RunOf(j, run, r) && i < k < |run.paths|
    requires HoldsName(j, run.paths[k], run.paths[i])
    ensures run.paths[i] !in Stored(run, |run.paths|)
  {
    hide Good, NewFiles, Left, Written, Strands, MisleadsNone, StepTo, Sound, Steps, Deletes, HoldsName, NamesFree;
    assert run.paths[k] !in Stored(run, i);
    SkippedIff(j, run, r, i);
  }

  // ---- Against a full walk ----

  /** Every row of `s` has its like in `t`. */
  ghost predicate RowsAgree(s: Store, t: Store) {
    forall a :: a in s.db.nodes ==> exists b :: SameByName(s, a, t, b)
  }

  lemma SameFilesRowsAgree(s: Store, t: Store)
    requires Good(s) && Good(t) && s.files == t.files
    ensures RowsAgree(s, t)
  {
    hide Good, SameByName;
    forall a | a in s.db.nodes
      ensures exists b :: SameByName(s, a, t, b)
    {
      var b := SameFilesAgree(s, t, a);
    }
  }

  /** Then the names of each file of `s` are names of the same file of `t`. */
  lemma RowsAgreeMeansNames(s: Store, t: Store, p: Path)
    requires Good(s) && Good(t) && RowsAgree(s, t) && p in s.files
    ensures p in t.files && Names(s.files[p]) <= Names(t.files[p])
  {
    hide Consistent, EdgesRepresent, SameEdgesByName, SameListsByName;
    forall q | q in Names(s.files[p])
      ensures p in t.files && q in Names(t.files[p])
    {
      var a := NameHasRow(s.db.nodes, s.files, p, q);
      var b :| SameByName(s, a, t, b);
      RowHasName(t.db.nodes, t.files, b);
    }
    var x :| x in s.files[p].nodes && x.kind.Module?;
    assert x.qn in Names(s.files[p]);
  }

  /** An old version that shares a name with another old version cannot be. */
  lemma OldFilesApart(j: Job, run: Run, r: Reading, p: Path, q: Path, name: Name)
    requires RunOf(j, run, r) && p in Left(j) && q in Left(j) && name in Names(Left(j)[p]) && name in Names(Left(j)[q])
    ensures p == q
  {
    hide Left, Deletes, Inserts, Steps, EdgesRepresent, FilesHaveModules;
    FirstHalf(j, run, r);
    var s := run.tries[0];
    var a := NameHasRow(s.db.nodes, s.files, p, name);
    var b := NameHasRow(s.db.nodes, s.files, q, name);
  }

  lemma StrandsDisagree(j: Job, run: Run, r: Reading, walked: Store)
    requires Sound(j) && RunOf(j, run, r) && Strands(j) && Good(walked) && walked.files == NewFiles(j)
    ensures !RowsAgree(run.end, walked)
  {
    hide Good, NewFiles, Left, Written, Strands, Sound, RunOf, Stored, RowsAgree;
    RunEnds(j, run, r);
    LeftAreNew(j);
    var p :| p in Left(j) && p !in NewFiles(j);
    EndFile(j, run, r, p);
    if RowsAgree(run.end, walked) {
      RowsAgreeMeansNames(run.end, walked, p);
    }
  }

  lemma BlockedDisagree(j: Job, run: Run, r: Reading, walked: Store, i: nat, k: nat)
    requires Sound(j) && !Strands(j) && RunOf(j, run, r) && Good(walked) && walked.files == NewFiles(j)
    requires i < k < |run.paths| && HoldsName(j, run.paths[k], run.paths[i])
    ensures !RowsAgree(walked, run.end)
  {
    hide Good, NewFiles, Left, Written, Strands, Sound, RunOf, Stored, RowsAgree;
    var q, p := run.paths[k], run.paths[i];
    RunEnds(j, run, r);
    BlockedIsSkipped(j, run, r, i, k);
    EndFile(j, run, r, p);
    if RowsAgree(walked, run.end) {
      RowsAgreeMeansNames(walked, run.end, p);
      var name :| name in Names(Left(j)[q]) && name in Names(NewFiles(j)[p]);
      OldFilesApart(j, run, r, p, q, name);
    }
  }

  /**
   * An incremental run leaves a consistent graph, and that graph is by name the one that a full walk of
   * the new tree leaves, exactly when the change list strands no file and no file is written before
   * another whose old version has a name that it needs.
   */
  lemma IncrementalAgreesIff(j: Job, run: Run, r: Reading, walked: Store)
    requires Sound(j) && RunOf(j, run, r) && Good(walked) && walked.files == NewFiles(j)
    ensures Good(run.end) && run.end.due == {}
    ensures RowsAgree(run.end, walked) && RowsAgree(walked, run.end) <==> !Strands(j) && Unblocked(j, run.paths)
  {
    hide Good, NewFiles, Left, Written, Strands, Sound, RunOf, RowsAgree, HoldsName;
    RunEnds(j, run, r);
    if Strands(j) {
      StrandsDisagree(j, run, r, walked);
    } else if Unblocked(j, run.paths) {
      UnblockedIsExact(j, run, r);
      SameFilesRowsAgree(run.end, walked);
      SameFilesRowsAgree(walked, run.end);
    } else {
      var i, k :| 0 <= i < k < |run.paths| && HoldsName(j, run.paths[k], run.paths[i]);
      BlockedDisagree(j, run, r, walked, i, k);
    }
  }

  /** If two files exchange names, whichever order they come in, one is skipped. */
  lemma ExchangeIsBlocked(j: Job, paths: seq<Path>, p: Path, q: Path)
    requires Order(j, paths) && HoldsName(j, p, q) && HoldsName(j, q, p)
    ensures !Unblocked(j, paths)
  {
    hide NewFiles, Left, Written;
    HolderIsOrdered(j, paths, p, q);
    HolderIsOrdered(j, paths, q, p);
    var i :| 0 <= i < |paths| && paths[i] == p;
    var k :| 0 <= k < |paths| && paths[k] == q;
    NotInOwnWay(j, p);
  }

  // ---- INHERITS edges ----

  ghost predicate NamesKept(states: seq<Store>, ops: seq<Op>) {
    |states| == |ops| + 1 && forall i :: 0 <= i < |ops| ==> KeepsNames(states[i], ops[i])
  }

  lemma {:induction false} StepsKeepFine(states: seq<Store>, ops: seq<Op>, r: Reading, n: nat)
    requires Steps(states, ops, r) && NamesKept(states, ops) && n <= |ops|
    requires Good(states[0]) && InheritsFine(states[0])
    ensures Good(states[n]) && InheritsFine(states[n])
  {
    hide Good, StepTo, MisleadsNone, KeepsNames, EdgeFine;
    if n > 0 {
      StepsKeepFine(states, ops, r, n - 1);
      StepKeepsGood(states[n - 1], ops[n - 1], states[n], r);
      StepKeepsFine(states[n - 1], ops[n - 1], states[n], r);
    }
  }

  lemma RefreshKeepsFine(s: Store, t: Store, r: Reading)
    requires Good(s) && StepTo(s, Refresh, t, r) && InheritsFine(s)
    ensures Good(t) && InheritsFine(t)
  {
    hide Good, StepTo, InheritsFine;
    RefreshMisleads(s);
    StepKeepsGood(s, Refresh, t, r);
    RefreshKeepsNames(s);
    StepKeepsFine(s, Refresh, t, r);
  }

  lemma RefreshKeepsNames(s: Store)
    ensures KeepsNames(s, Refresh)
  {
  }

  lemma EndIsFine(j: Job, run: Run, r: Reading)
    requires Sound(j) && RunOf(j, run, r) && InheritsFine(run.first[0])
    requires NamesKept(run.first, run.deletes) && NamesKept(run.tries, run.inserts)
    ensures Good(run.end) && InheritsFine(run.end)
  {
    hide Good, StepTo, InheritsFine, Deletes, Order, Tried, KeepsNames, MisleadsNone, Sound;
    StepsKeepFine(run.first, run.deletes, r, |run.deletes|);
    StepsKeepFine(run.tries, run.inserts, r, |run.inserts|);
    RefreshKeepsFine(run.tries[|run.inserts|], run.end, r);
  }

  lemma FineBindsAsWhole(s: Store, p: Path, e: XEdge)
    requires Good(s) && InheritsFine(s) && InheritsEdge(s.files, p, e) && HistoryIrrelevant(s.files, p, e.target)
    ensures BoundFor(s, e) == Bindings.Whole(s.files, e.target)
  {
    hide Good, HistoryIrrelevant, BoundFor, BoundRow;
    var k := EdgeIsThere(s, p, e);
    assert EdgeFine(s, k);
    FineIsWhole(s, k);
  }

  /** An exact run also binds the INHERITS edges that no history can unsettle as a full walk does. */
  lemma InheritsAgree(j: Job, run: Run, r: Reading, walked: Store, p: Path, e: XEdge)
    requires Sound(j) && RunOf(j, run, r) && InheritsFine(run.first[0]) && !Strands(j) && Unblocked(j, run.paths)
    requires NamesKept(run.first, run.deletes) && NamesKept(run.tries, run.inserts)
    requires Good(walked) && InheritsFine(walked) && walked.files == NewFiles(j)
    requires InheritsEdge(NewFiles(j), p, e) && HistoryIrrelevant(NewFiles(j), p, e.target)
    ensures BoundFor(run.end, e) == BoundFor(walked, e) == Bindings.Whole(NewFiles(j), e.target)
  {
    hide Good, InheritsFine, NewFiles, Strands, Unblocked, RunOf, NamesKept, BoundFor, HistoryIrrelevant, InheritsEdge;
    EndIsFine(j, run, r);
    UnblockedIsExact(j, run, r);
    FineBindsAsWhole(run.end, p, e);
    FineBindsAsWhole(walked, p, e);
  }

  // ---- A run there always is ----

  /** The rows of the file that keep their names. */
  ghost function SameNames(nodes: Nodes, f: File): map<Name, Id> {
    map q | q in Names(f) && Lookup(nodes, q).Some? && nodes[Lookup(nodes, q).value].path == f.path ::
      Lookup(nodes, q).value
  }

  lemma SameNamesMatch(nodes: Nodes, f: File)
    ensures Matching(nodes, f, SameNames(nodes, f))
    ensures forall q :: q in SameNames(nodes, f) ==> Named(nodes, q, SameNames(nodes, f)[q])
  {
  }

  /** Whatever the store, an insert can be tried. */
  lemma CanTry(s: Store, f: File, r: Reading) returns (op: Op, t: Store)
    requires Good(s) && HasModule(f) && DistinctNames(f)
    ensures Tried(s, f, op) && StepTo(s, op, t, r) && MisleadsNone(s, op)
  {
    hide Good, StepTo, MisleadsNone, HasModule, DistinctNames, SameNames, Matching;
    if NamesFree(s.db.nodes, f) {
      var kept := SameNames(s.db.nodes, f);
      SameNamesMatch(s.db.nodes, f);
      var ids, t' := Orders.CanPersist(s, f, kept, r);
      op, t := Persist(f, kept, ids), t';
      Orders.KeepingMisleadsNone(s, f, kept, ids);
    } else {
      op, t := SkipFile, s;
      SkipSteps(s, r);
    }
  }

  lemma SkipSteps(s: Store, r: Reading)
    ensures StepTo(s, SkipFile, s, r) && MisleadsNone(s, SkipFile)
  {
  }

  lemma CanDelete(s: Store, path: Path, r: Reading) returns (t: Store)
    ensures StepTo(s, DeleteFile(path), t, r) && MisleadsNone(s, DeleteFile(path))
  {
    var gone := FileRows(s.db.nodes, path);
    t := Store(Deleted(s.db, gone), s.due + DeletePeers(s.db.edges, gone), s.owed + DeletePeers(s.db.edges, gone),
               s.files - {path});
  }

  lemma CanRefresh(s: Store, r: Reading) returns (t: Store)
    ensures StepTo(s, Refresh, t, r)
  {
    hide Rebuilt;
    var db, owed := s.db, OwedAfterRefresh(s.db, s.due, r.refreshLoadsAll, s.owed);
    if s.due == {} {
      t := s.(due := {}, owed := owed);
    } else {
      var given := if r.refreshLoadsAll then db.nodes.Keys else s.due * db.nodes.Keys;
      var callees', callers' :=
        Orders.RebuildExists(db.callees, db.callers, CallPairs(db.edges), given, s.due, {}, {});
      t := Store(db.(callees := callees', callers := callers'), {}, owed, s.files);
    }
  }

  lemma StepsExtend(states: seq<Store>, ops: seq<Op>, r: Reading, op: Op, t: Store)
    requires Steps(states, ops, r) && StepTo(states[|ops|], op, t, r) && MisleadsNone(states[|ops|], op)
    ensures Steps(states + [t], ops + [op], r)
  {
    hide StepTo, MisleadsNone;
  }

  lemma {:induction false} DeletesExist(s: Store, ops: seq<Op>, r: Reading) returns (states: seq<Store>)
    requires Good(s) && forall o :: o in ops ==> o.DeleteFile?
    ensures Steps(states, ops, r) && states[0] == s && Good(states[|ops|])
  {
    hide Good, StepTo, MisleadsNone;
    if ops == [] {
      states := [s];
    } else {
      var init, op := ops[..|ops| - 1], ops[|ops| - 1];
      states := DeletesExist(s, init, r);
      var t := CanDelete(states[|init|], op.path, r);
      StepKeepsGood(states[|init|], op, t, r);
      StepsExtend(states, init, r, op, t);
      states := states + [t];
      assert ops == init + [op];
    }
  }

  ghost predicate TriedInOrder(j: Job, paths: seq<Path>, tries: seq<Store>, inserts: seq<Op>, r: Reading) {
    && |inserts| <= |paths| && Steps(tries, inserts, r)
    && forall i :: 0 <= i < |inserts| ==>
         paths[i] in NewFiles(j) && Tried(tries[i], NewFiles(j)[paths[i]], inserts[i])
  }

  lemma TriedExtends(j: Job, paths: seq<Path>, tries: seq<Store>, inserts: seq<Op>, r: Reading, op: Op, t: Store)
    requires TriedInOrder(j, paths, tries, inserts, r) && |inserts| < |paths| && paths[|inserts|] in NewFiles(j)
    requires Tried(tries[|inserts|], NewFiles(j)[paths[|inserts|]], op)
    requires StepTo(tries[|inserts|], op, t, r) && MisleadsNone(tries[|inserts|], op)
    ensures TriedInOrder(j, paths, tries + [t], inserts + [op], r)
  {
    hide StepTo, MisleadsNone, Tried, NewFiles;
    StepsExtend(tries, inserts, r, op, t);
  }

  lemma {:induction false} TriesExist(j: Job, s: Store, paths: seq<Path>, n: nat, r: Reading)
    returns (tries: seq<Store>, inserts: seq<Op>)
    requires Good(s) && Orders.Extracted(NewFiles(j)) && n <= |paths| && forall p :: p in paths ==> p in NewFiles(j)
    ensures TriedInOrder(j, paths, tries, inserts, r) && |inserts| == n && tries[0] == s && Good(tries[n])
  {
    hide Good, StepTo, MisleadsNone, NewFiles, Tried, HasModule, DistinctNames;
    if n == 0 {
      tries, inserts := [s], [];
    } else {
      tries, inserts := TriesExist(j, s, paths, n - 1, r);
      var op, t := CanTry(tries[n - 1], NewFiles(j)[paths[n - 1]], r);
      StepKeepsGood(tries[n - 1], op, t, r);
      TriedExtends(j, paths, tries, inserts, r, op, t);
      tries, inserts := tries + [t], inserts + [op];
    }
  }

  /** From any good graph of the old tree there is a run, whatever the order of its inserts. */
  lemma RunExists(j: Job, s: Store, deletes: seq<Op>, paths: seq<Path>, r: Reading) returns (run: Run)
    requires Sound(j) && Good(s) && s.due == {} && s.files == OldFiles(j) && Deletes(j, deletes) && Order(j, paths)
    ensures RunOf(j, run, r) && run.first[0] == s && run.deletes == deletes && run.paths == paths
  {
    hide Good, NewFiles, OldFiles, Written, Dropped, Tried, StepTo, MisleadsNone, HashDecides, Changes.Describes;
    forall p | p in paths
      ensures p in NewFiles(j)
    {
      WrittenIsNew(j, p);
    }
    var first := DeletesExist(s, deletes, r);
    var tries, inserts := TriesExist(j, first[|deletes|], paths, |paths|, r);
    var end := CanRefresh(tries[|paths|], r);
    run := Run(deletes, first, paths, inserts, tries, end);
  }
}
