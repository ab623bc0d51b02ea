/**
 * The two ways a checkout is ingested: a full walk that skips what is current and commits as it
 * goes, and an incremental run over a git change list (backend/app/graph/ingest.py:261-716).
 *
 * The state is what the module rows record, path by path.  A persist may fail: its savepoint is
 * rolled back, the file keeps its old entry if it has one, and the run goes on.
 */
module Ingest {
  import opened Wrappers
  import opened CodeGraph
  import opened SourceTree
  import opened ChangeLists

  const PARSE_COMMIT_EVERY := 200

  /** The files that a walk has to parse: new ones, and those whose hash or stamp is not current. */
  function Outdated(w: Settings, tree: Tree, index: Index): set<Path> {
    set p | p in Present(w, tree) && (p in index ==> index[p] != EntryOf(w, p, tree[p]))
  }

  /** The two indexes agree outside `s`. */
  ghost predicate DifferWithin(a: Index, b: Index, s: set<Path>) {
    forall p :: p !in s ==> (p in a <==> p in b) && (p in a && p in b ==> a[p] == b[p])
  }

  /** The files of `done` are current, the other files present are as they were, and there are no others. */
  ghost predicate WalkedTo(w: Settings, tree: Tree, existing: Index, done: set<Path>, index: Index) {
    && done <= Present(w, tree)
    && (forall p :: p in index <==> p in done || (p in existing && p in Present(w, tree)))
    && (forall p :: p in index ==> index[p] == if p in done then EntryOf(w, p, tree[p]) else existing[p])
  }

  /** Nothing but the files persisted since the last commit would be lost. */
  ghost predicate Recent(committed: Index, index: Index, sinceCommit: set<Path>, processed: nat) {
    DifferWithin(committed, index, sinceCommit) && |sinceCommit| == processed % PARSE_COMMIT_EVERY
  }

  class GraphIngest {
    var index: Index
    var committed: Index

    // ---- One file ----

    /** Whether the database takes the file is not for this model to say. */
    method Persist(w: Settings, tree: Tree, p: Path) returns (ok: bool)
      requires p in tree
      modifies this`index
      ensures index == if ok then old(index)[p := EntryOf(w, p, tree[p])] else old(index)
    {
      ok := *;
      if ok {
        index := index[p := EntryOf(w, p, tree[p])];
      }
    }

    method DeleteSourceFile(p: Path)
      modifies this`index
      ensures index == old(index) - {p}
    {
      index := index - {p};
    }

    /** Persist the next file of a walk, and commit after every 200th, stored or not. */
    method PersistNext(w: Settings, tree: Tree, p: Path, processed: nat, ghost existing: Index,
                       ghost done: set<Path>, ghost failed: set<Path>, ghost sinceCommit: set<Path>)
      returns (processed': nat, ghost failed': set<Path>, ghost sinceCommit': set<Path>)
      requires Walked(w, tree, existing, done, failed, index, committed, sinceCommit, processed)
      requires p in tree && p in Outdated(w, tree, existing) && p !in done
      modifies this
      ensures Walked(w, tree, existing, done + {p}, failed', index, committed, sinceCommit', processed')
    {
      hide WalkedTo, Recent, Present, Outdated;
      ghost var before := index;
      var ok := Persist(w, tree, p);
      failed' := if ok then failed else failed + {p};
      AttemptIsDone(w, tree, existing, done, failed, before, p, ok);
      RecentAfterPersist(committed, before, sinceCommit, processed, p, EntryOf(w, p, tree[p]));
      processed' := processed + 1;
      if processed' % PARSE_COMMIT_EVERY == 0 {
        committed := index;
        sinceCommit' := {};
        RecentAfterCommit(index, processed');
      } else {
        sinceCommit' := sinceCommit + {p};
      }
    }

    /** Files that are not Go, one by one: skip a file whose hash and stamp are current. */
    method WalkFiles(w: Settings, tree: Tree, files: set<Path>, existing: Index)
      returns (processed: nat, ghost failed: set<Path>, ghost sinceCommit: set<Path>)
      requires files <= Present(w, tree) && WalkedTo(w, tree, existing, {}, index) && committed == index
      modifies this
      ensures Walked(w, tree, existing, files, failed, index, committed, sinceCommit, processed)
    {
      hide Walked, WalkedTo, Present, Outdated;
      var rest := files;
      ghost var done: set<Path> := {};
      processed, failed, sinceCommit := 0, {}, {};
      WalkBegins(w, tree, existing, index);
      while rest != {}
        invariant rest <= files && done == files - rest
        invariant Walked(w, tree, existing, done, failed, index, committed, sinceCommit, processed)
        decreases rest
      {
        var p :| p in rest;
        NextFile(w, tree, existing, files, p);
        if p in existing && existing[p] == EntryOf(w, p, tree[p]) {
          SkippedIsWalked(w, tree, existing, done, failed, index, committed, sinceCommit, processed, p);
        } else {
          processed, failed, sinceCommit := PersistNext(w, tree, p, processed, existing, done, failed, sinceCommit);
        }
        rest, done := rest - {p}, done + {p};
      }
      assert done == files;
    }

    /** A Go package: its outdated files, parsed together; the others stay. */
    method WalkPackage(w: Settings, tree: Tree, files: set<Path>, existing: Index, processed: nat,
                       ghost done: set<Path>, ghost failed: set<Path>, ghost sinceCommit: set<Path>)
      returns (processed': nat, ghost failed': set<Path>, ghost sinceCommit': set<Path>)
      requires files <= Present(w, tree) && files !! done
      requires Walked(w, tree, existing, done, failed, index, committed, sinceCommit, processed)
      modifies this
      ensures Walked(w, tree, existing, done + files, failed', index, committed, sinceCommit', processed')
    {
      hide Walked, Present, Outdated;
      var changed := files * Outdated(w, tree, existing);
      var rest := changed;
      ghost var done' := done;
      processed', failed', sinceCommit' := processed, failed, sinceCommit;
      while rest != {}
        invariant rest <= changed && done' == done + (changed - rest)
        invariant Walked(w, tree, existing, done', failed', index, committed, sinceCommit', processed')
        decreases rest
      {
        var p :| p in rest;
        NextFile(w, tree, existing, files, p);
        processed', failed', sinceCommit' :=
          PersistNext(w, tree, p, processed', existing, done', failed', sinceCommit');
        rest, done' := rest - {p}, done' + {p};
      }
      assert done' == done + changed;
      UnchangedAreWalked(w, tree, existing, done, failed', files, changed, index, committed, sinceCommit', processed');
    }

    method WalkPackages(w: Settings, tree: Tree, goFiles: set<Path>, existing: Index, processed: nat,
                        ghost done: set<Path>, ghost failed: set<Path>, ghost sinceCommit: set<Path>)
      returns (processed': nat, ghost failed': set<Path>, ghost sinceCommit': set<Path>)
      requires goFiles <= Present(w, tree) && goFiles !! done
      requires Walked(w, tree, existing, done, failed, index, committed, sinceCommit, processed)
      modifies this
      ensures Walked(w, tree, existing, done + goFiles, failed', index, committed, sinceCommit', processed')
    {
      hide Walked, Present, PackageKey;
      var keys := set p | p in goFiles :: PackageKey(p);
      var rest := keys;
      processed', failed', sinceCommit' := processed, failed, sinceCommit;
      assert InPackages(goFiles, keys - rest) == {} && done + {} == done;
      while rest != {}
        invariant rest <= keys
        invariant Walked(w, tree, existing, done + InPackages(goFiles, keys - rest), failed', index, committed,
                         sinceCommit', processed')
        decreases rest
      {
        var key :| key in rest;
        NextPackage(goFiles, done, keys, rest, key);
        processed', failed', sinceCommit' :=
          WalkPackage(w, tree, InPackages(goFiles, {key}), existing, processed',
                      done + InPackages(goFiles, keys - rest), failed', sinceCommit');
        rest := rest - {key};
      }
      assert InPackages(goFiles, keys - rest) == goFiles;
    }

    /**
     * From whatever index, the walk ends with the exact index of the tree, but for the files that
     * failed, which are as they were and are what the next walk has to parse.  It parses exactly the
     * outdated files, and at its end fewer than 200 of them are not yet committed.
     */
    method IngestFullWalk(w: Settings, tree: Tree)
      returns (processed: nat, ghost failed: set<Path>, ghost sinceCommit: set<Path>)
      modifies this
      ensures failed <= Outdated(w, tree, old(index)) && index == IndexWithout(w, tree, old(index), failed)
      ensures index == IndexOf(w, tree) <==> failed == {}
      ensures Outdated(w, tree, index) == failed
      ensures processed == |Outdated(w, tree, old(index))|
      ensures DifferWithin(committed, index, sinceCommit) && |sinceCommit| < 200
    {
      hide WalkedTo, Present, Outdated, IsGo;
      var existing, present := index, Present(w, tree);
      index := map p | p in index && p in present :: index[p];
      committed := index;
      PruneBegins(w, tree, existing);
      var goFiles := set p | p in present && IsGo(p);
      processed, failed, sinceCommit := WalkFiles(w, tree, present - goFiles, existing);
      processed, failed, sinceCommit := WalkPackages(w, tree, goFiles, existing, processed, present - goFiles, failed,
                                                     sinceCommit);
      assert present - goFiles + goFiles == present;
      WalkEnds(w, tree, existing, failed, index);
    }

    // ---- An incremental run ----

    method DeleteAll(files: set<Path>)
      modifies this`index
      ensures index == old(index) - files
    {
      ghost var before := index;
      var rest := files;
      assert before - {} == before;
      while rest != {}
        invariant rest <= files && index == before - (files - rest)
        decreases rest
      {
        var p :| p in rest;
        DeleteSourceFile(p);
        rest := rest - {p};
      }
      assert files - rest == files;
    }

    method PersistAll(w: Settings, tree: Tree, files: set<Path>) returns (ghost stored: set<Path>)
      requires files <= tree.Keys
      modifies this`index
      ensures stored <= files && index == WithFiles(w, tree, old(index), stored)
    {
      hide WithFiles;
      ghost var before := index;
      var rest := files;
      stored := {};
      NoFiles(w, tree, index, stored);
      while rest != {}
        invariant rest <= files && stored <= files && index == WithFiles(w, tree, before, stored)
        decreases rest
      {
        var p :| p in rest;
        OneMoreFile(w, tree, before, stored, p);
        var ok := Persist(w, tree, p);
        rest, stored := rest - {p}, if ok then stored + {p} else stored;
      }
    }

    /** Non-Go files that were removed, renamed away, or are passed over now. */
    method DeleteRemoved(nonGo: seq<Change>)
      modifies this`index
      ensures index == old(index) - RemovedFiles(nonGo)
    {
      ghost var before := index;
      for i := 0 to |nonGo|
        invariant index == before - RemovedFiles(nonGo[..i])
      {
        OneMoreChange(nonGo, i);
        var doomed := RemovedBy(nonGo[i]);
        if doomed.Some? {
          DeleteSourceFile(doomed.value);
        }
      }
      assert nonGo[..|nonGo|] == nonGo;
    }

    /** The remaining changes, in their order; a file that is not there is passed over. */
    method InsertOthers(w: Settings, tree: Tree, nonGo: seq<Change>) returns (ghost stored: set<Path>)
      modifies this`index
      ensures stored <= NamedFiles(nonGo, tree) && stored <= tree.Keys
      ensures index == WithFiles(w, tree, old(index), stored)
    {
      hide NamedFiles, WithFiles;
      ghost var before := index;
      NothingNamed(tree);
      stored := {};
      NoFiles(w, tree, index, stored);
      for i := 0 to |nonGo|
        invariant stored <= NamedFiles(nonGo[..i], tree) && stored <= tree.Keys
        invariant index == WithFiles(w, tree, before, stored)
      {
        OneMoreNamed(nonGo, tree, i);
        if !nonGo[i].Deleted? && nonGo[i].path in tree {
          OneMoreFile(w, tree, before, stored, nonGo[i].path);
          var ok := Persist(w, tree, nonGo[i].path);
          stored := if ok then stored + {nonGo[i].path} else stored;
        }
      }
      assert nonGo[..|nonGo|] == nonGo;
    }

    /**
     * All deletes, then all inserts; `left` is what the first insert finds, `failed` the files that
     * were to be written and were not.  If the run starts from the exact index of some tree and the
     * changes describe the step from it to this one, it ends with the exact index of this tree
     * exactly when no file is stranded and what failed was in the index already, as it should be.
     */
    method IngestIncrementalFromGit(w: Settings, tree: Tree, changes: seq<Change>, ghost before: Tree)
      returns (ghost left: Index, ghost failed: set<Path>)
      modifies this
      // the root go.mod is touched: as a full walk
      ensures forall c :: c in changes && (c.path == "go.mod" || (c.Renamed? && c.old_path == "go.mod")) ==>
                && failed <= Outdated(w, tree, old(index)) && index == IndexWithout(w, tree, old(index), failed)
                && (index == IndexOf(w, tree) <==> failed == {})
      // a row of another extractor is left: as a full walk
      ensures forall p :: p in old(index) && old(index)[p].stamp != w.stamp(p) ==>
                && failed <= Outdated(w, tree, old(index)) && index == IndexWithout(w, tree, old(index), failed)
                && (index == IndexOf(w, tree) <==> failed == {})
      // so whatever the stamps were, hashes that are right suffice
      ensures old(index).Keys == Present(w, before) && Describes((set c | c in changes), before, tree)
              && (forall p :: p in old(index) && p in before ==> old(index)[p].hash == w.hash(before[p]))
              && !Strands(w, before, tree, set c | c in changes) && failed == {} ==>
                index == IndexOf(w, tree)
      // otherwise only what the changes ask for is touched
      ensures (forall c :: c in changes ==> c.path != "go.mod" && (c.Renamed? ==> c.old_path != "go.mod"))
              && (forall p :: p in old(index) ==> old(index)[p].stamp == w.stamp(p)) && HaveLanguages(old(index)) ==>
                var all := set c | c in changes;
                && left == AfterDeletes(w, old(index), tree, all)
                && failed <= WrittenFiles(w, old(index), tree, all)
                && index == OutcomeWithout(w, old(index), tree, all, failed)
      ensures (forall c :: c in changes ==> c.path != "go.mod" && (c.Renamed? ==> c.old_path != "go.mod"))
              && old(index) == IndexOf(w, before) && Describes((set c | c in changes), before, tree) ==>
                && (index == IndexOf(w, tree)
                    <==> !Strands(w, before, tree, set c | c in changes) && AllCurrent(w, tree, left, failed))
                && (left.Keys <= Present(w, tree) <==> !Strands(w, before, tree, set c | c in changes))
    {
      hide Outcome, OutcomeWithout, SomeRemoves, SomeWrites, StaleFiles, ChangedGo, NamedFiles, RemovedFiles, WithFiles,
           IndexOf, IndexWithout, HaveLanguages, WrittenFiles, AllCurrent, Outdated;
      hide Describes, Strands, AfterDeletes, Present, TouchedPackages;
      left := index;
      CurrentIndex(w, index, before);
      if Escalates(w, index, changes) {
        var processed: nat;
        ghost var sinceCommit: set<Path>;
        processed, failed, sinceCommit := IngestFullWalk(w, tree);
        return;
      }
      var existing := index;
      var nonGo, packages := Classify(tree, changes);
      DeleteRemoved(nonGo);
      DeleteAll(StaleFiles(w, tree, existing, packages));
      left := index;
      FilesInTree(w, tree, existing, packages, nonGo);
      ghost var storedGo := PersistAll(w, tree, ChangedGo(w, tree, existing, packages));
      ghost var storedOthers := InsertOthers(w, tree, nonGo);
      failed := WrittenFiles(w, existing, tree, set c | c in changes) - storedGo - storedOthers;
      if HaveLanguages(existing) {
        PhasesAddUp(w, existing, tree, changes, nonGo, packages, storedGo, storedOthers);
      }
      ExactRunIff(w, existing, before, tree, (set c | c in changes), failed);
      NothingFailed(w, tree, left);
    }
  }

  /** Right hashes and current stamps make an exact index, and an exact index has current stamps. */
  lemma CurrentIndex(w: Settings, index: Index, tree: Tree)
    ensures index.Keys == Present(w, tree) && (forall p :: p in index ==> index[p].stamp == w.stamp(p))
            && (forall p :: p in index && p in tree ==> index[p].hash == w.hash(tree[p])) ==>
              index == IndexOf(w, tree)
    ensures index == IndexOf(w, tree) ==> forall p :: p in index ==> index[p].stamp == w.stamp(p)
  {
    hide Present;
    forall p | p in Present(w, tree)
      ensures p in tree
    {
      PresentInTree(w, tree, p);
    }
  }

  lemma NothingFailed(w: Settings, tree: Tree, index: Index)
    ensures AllCurrent(w, tree, index, {})
  {
  }

  /** The exact index, but for files that failed: those are as they were, if they were there. */
  function IndexWithout(w: Settings, tree: Tree, existing: Index, failed: set<Path>): Index {
    map p | p in Present(w, tree) && (p in failed ==> p in existing) ::
      if p in failed then existing[p] else EntryOf(w, p, tree[p])
  }

  function WrittenFiles(w: Settings, index: Index, tree: Tree, changes: set<Change>): set<Path> {
    set p | p in tree && Written(w, index, tree, changes, p)
  }

  function OutcomeWithout(w: Settings, index: Index, tree: Tree, changes: set<Change>, failed: set<Path>): Index {
    AfterDeletes(w, index, tree, changes)
    + map p | p in tree && p in WrittenFiles(w, index, tree, changes) && p !in failed :: EntryOf(w, p, tree[p])
  }

  predicate AllCurrent(w: Settings, tree: Tree, index: Index, files: set<Path>) {
    forall p :: p in files ==> p in tree && p in index && index[p] == EntryOf(w, p, tree[p])
  }

  lemma FailuresShow(w: Settings, index: Index, tree: Tree, changes: set<Change>, failed: set<Path>)
    requires failed <= WrittenFiles(w, index, tree, changes)
    ensures OutcomeWithout(w, index, tree, changes, failed) == Outcome(w, index, tree, changes)
            <==> AllCurrent(w, tree, AfterDeletes(w, index, tree, changes), failed)
  {
    hide AfterDeletes, Written;
    var with, without := Outcome(w, index, tree, changes), OutcomeWithout(w, index, tree, changes, failed);
    forall p | p in failed
      ensures p in with && with[p] == EntryOf(w, p, tree[p])
    {
      assert Written(w, index, tree, changes, p);
    }
  }

  /** A file that was to be written is one of the new tree's: failing never makes up for a stranded one. */
  lemma ExactRunIff(w: Settings, index: Index, before: Tree, after: Tree, changes: set<Change>, failed: set<Path>)
    requires failed <= WrittenFiles(w, index, after, changes)
    ensures index == IndexOf(w, before) ==> HaveLanguages(index)
    ensures index == IndexOf(w, before) && Describes(changes, before, after) ==>
              && (OutcomeWithout(w, index, after, changes, failed) == IndexOf(w, after)
                  <==> !Strands(w, before, after, changes)
                       && AllCurrent(w, after, AfterDeletes(w, index, after, changes), failed))
              && (AfterDeletes(w, index, after, changes).Keys <= Present(w, after)
                  <==> !Strands(w, before, after, changes))
  {
    hide Outcome, OutcomeWithout, AfterDeletes, Strands, Describes, DetectLanguage, AllCurrent, WrittenFiles;
    forall p | p in IndexOf(w, before)
      ensures DetectLanguage(p).Some?
    {
      PresentMeans(w, before, p);
    }
    if index == IndexOf(w, before) && Describes(changes, before, after) {
      OutcomeExactIff(w, before, after, changes);
      InsertsStartCleanIff(w, before, after, changes);
      FailuresShow(w, index, after, changes, failed);
      if OutcomeWithout(w, index, after, changes, failed) == IndexOf(w, after) {
        NothingMadeUp(w, index, after, changes, failed);
      }
    }
  }

  /** If the index is exact in spite of failures, it would be without them. */
  lemma NothingMadeUp(w: Settings, index: Index, after: Tree, changes: set<Change>, failed: set<Path>)
    requires OutcomeWithout(w, index, after, changes, failed) == IndexOf(w, after)
    ensures Outcome(w, index, after, changes) == IndexOf(w, after)
  {
    hide AfterDeletes, Written, Present;
    forall p | p in after && Written(w, index, after, changes, p)
      ensures p in Present(w, after)
    {
      WrittenIsPresent(w, index, after, changes, p);
    }
    var outcome, without := Outcome(w, index, after, changes), OutcomeWithout(w, index, after, changes, failed);
    forall p
      ensures p in outcome <==> p in IndexOf(w, after)
      ensures p in outcome ==> outcome[p] == IndexOf(w, after)[p]
    {
      assert p in without <==> p in IndexOf(w, after);
      if p in after && Written(w, index, after, changes, p) {
        assert p in IndexOf(w, after);
      }
    }
  }

  ghost predicate HaveLanguages(index: Index) {
    forall p :: p in index ==> DetectLanguage(p).Some?
  }

  /** A root go.mod change, or rows left by another extractor: only a full walk will do. */
  predicate Escalates(w: Settings, index: Index, changes: seq<Change>) {
    || (exists c :: c in changes && Mentions(c, "go.mod"))
    || (exists p :: p in index && index[p].stamp != w.stamp(p))
  }

  predicate SomeRemoves(changes: seq<Change>, p: Path) {
    exists c :: c in changes && RemovedBy(c) == Some(p)
  }

  predicate SomeWrites(changes: seq<Change>, p: Path) {
    exists c :: c in changes && WritesPath(c, p)
  }

  function RemovedFiles(changes: seq<Change>): set<Path> {
    set c | c in changes && RemovedBy(c).Some? :: RemovedBy(c).value
  }

  function NamedFiles(changes: seq<Change>, tree: Tree): set<Path> {
    set c | c in changes && !c.Deleted? && c.path in tree :: c.path
  }

  /** Go files of the touched packages, by the suffix ".go" as written, that are no longer selected. */
  function StaleFiles(w: Settings, tree: Tree, existing: Index, packages: set<string>): set<Path> {
    set p | p in existing && Suffix(p) == ".go" && PackageKey(p) in packages && !Selected(w, tree, p)
  }

  /** Selected Go files of the touched packages whose hash has changed. */
  function ChangedGo(w: Settings, tree: Tree, existing: Index, packages: set<string>): set<Path> {
    set p | p in tree && Selected(w, tree, p) && PackageKey(p) in packages
            && (p in existing ==> existing[p].hash != w.hash(tree[p]))
  }

  function WithFiles(w: Settings, tree: Tree, index: Index, files: set<Path>): Index
    requires files <= tree.Keys
  {
    index + map p | p in files :: EntryOf(w, p, tree[p])
  }

  lemma NoFiles(w: Settings, tree: Tree, index: Index, files: set<Path>)
    requires files == {}
    ensures WithFiles(w, tree, index, files) == index
  {
  }

  lemma OneMoreFile(w: Settings, tree: Tree, index: Index, files: set<Path>, p: Path)
    requires files <= tree.Keys && p in tree
    ensures files + {p} <= tree.Keys
    ensures WithFiles(w, tree, index, files + {p}) == WithFiles(w, tree, index, files)[p := EntryOf(w, p, tree[p])]
  {
  }

  lemma OneMoreChange(changes: seq<Change>, i: nat)
    requires i < |changes|
    ensures RemovedFiles(changes[..i + 1])
            == RemovedFiles(changes[..i]) + if RemovedBy(changes[i]).Some? then {RemovedBy(changes[i]).value} else {}
  {
    assert changes[..i + 1] == changes[..i] + [changes[i]];
  }

  lemma OneMoreNamed(changes: seq<Change>, tree: Tree, i: nat)
    requires i < |changes|
    ensures var c := changes[i];
            NamedFiles(changes[..i + 1], tree)
            == if !c.Deleted? && c.path in tree then NamedFiles(changes[..i], tree) + {c.path}
               else NamedFiles(changes[..i], tree)
  {
    assert changes[..i + 1] == changes[..i] + [changes[i]];
  }

  lemma NothingNamed(tree: Tree)
    ensures NamedFiles([], tree) == {}
  {
  }

  lemma FilesInTree(w: Settings, tree: Tree, existing: Index, packages: set<string>, nonGo: seq<Change>)
    ensures ChangedGo(w, tree, existing, packages) <= tree.Keys && NamedFiles(nonGo, tree) <= tree.Keys
  {
    hide Selected, PackageKey;
  }

  // ---- Sorting the changes ----

  predicate TouchesGo(c: Change) {
    IsGo(c.path) || (c.Renamed? && IsGo(c.old_path))
  }

  predicate ChangePruned(tree: Tree, c: Change) {
    IsJsTsNoise(c.path) || (!c.Deleted? && c.path in tree && |tree[c.path]| > MAX_FILE_BYTES)
  }

  /** What one change means for files that are not Go, branch by branch. */
  method ClassifyOne(tree: Tree, c: Change) returns (out: seq<Change>)
    ensures forall p :: DetectLanguage(p).Some? ==> (SomeRemoves(out, p) <==> Dooms(tree, c, p))
    ensures forall p :: SomeWrites(out, p) <==> Parses(tree, c, p)
  {
    hide DetectLanguage, IsJsTsNoise, SomeRemoves, SomeWrites;
    out := [];
    NoChanges();
    if TouchesGo(c) {
      if c.Renamed? && DetectLanguage(c.old_path) !in {None, Some(Go)} {
        OneChange(Deleted(c.old_path));
        out := [Deleted(c.old_path)];
      }
      if DetectLanguage(c.path) !in {None, Some(Go)} {
        if !(IsJsTs(c.path) && ChangePruned(tree, Added(c.path))) {
          OneChange(Added(c.path));
          BothLists(out, [Added(c.path)]);
          out := out + [Added(c.path)];
        }
      }
    } else if DetectLanguage(c.path).None? {
      if c.Renamed? && DetectLanguage(c.old_path).Some? {
        OneChange(Deleted(c.old_path));
        out := [Deleted(c.old_path)];
      }
    } else if IsJsTs(c.path) && ChangePruned(tree, c) {
      var oldPath := if c.Renamed? then c.old_path else c.path;
      if !c.Added? && DetectLanguage(oldPath).Some? && !IsJsTsNoise(oldPath) {
        OneChange(Deleted(oldPath));
        out := [Deleted(oldPath)];
      }
    } else {
      OneChange(c);
      out := [c];
    }
  }

  method Classify(tree: Tree, changes: seq<Change>) returns (nonGo: seq<Change>, packages: set<string>)
    ensures forall p :: DetectLanguage(p).Some? ==>
              (SomeRemoves(nonGo, p) <==> exists c :: c in changes && Dooms(tree, c, p))
    ensures forall p :: SomeWrites(nonGo, p) <==> exists c :: c in changes && Parses(tree, c, p)
    ensures packages == TouchedPackages(set c | c in changes)
  {
    hide SomeRemoves, SomeWrites, Dooms, Parses, DetectLanguage, TouchedPackages;
    nonGo := [];
    NoChanges();
    for i := 0 to |changes|
      invariant forall p :: DetectLanguage(p).Some? ==>
                  (SomeRemoves(nonGo, p) <==> exists c :: c in changes[..i] && Dooms(tree, c, p))
      invariant forall p :: SomeWrites(nonGo, p) <==> exists c :: c in changes[..i] && Parses(tree, c, p)
    {
      var out := ClassifyOne(tree, changes[i]);
      BothLists(nonGo, out);
      assert changes[..i + 1] == changes[..i] + [changes[i]];
      nonGo := nonGo + out;
    }
    assert changes[..|changes|] == changes;
    packages := TouchedPackages(set c | c in changes);
  }

  lemma NoChanges()
    ensures forall p :: !SomeRemoves([], p) && !SomeWrites([], p)
  {
  }

  lemma OneChange(c: Change)
    ensures forall p :: SomeRemoves([c], p) <==> RemovedBy(c) == Some(p)
    ensures forall p :: SomeWrites([c], p) <==> WritesPath(c, p)
  {
    assert c in [c];
  }

  lemma BothLists(a: seq<Change>, b: seq<Change>)
    ensures forall p :: SomeRemoves(a + b, p) <==> SomeRemoves(a, p) || SomeRemoves(b, p)
    ensures forall p :: SomeWrites(a + b, p) <==> SomeWrites(a, p) || SomeWrites(b, p)
  {
  }

  /** The four phases together do what `OutcomeWithout` says, whatever the order of the list. */
  lemma PhasesAddUp(w: Settings, existing: Index, tree: Tree, changes: seq<Change>, nonGo: seq<Change>,
                    packages: set<string>, storedGo: set<Path>, storedOthers: set<Path>)
    requires HaveLanguages(existing)
    requires forall p :: DetectLanguage(p).Some? ==>
               (SomeRemoves(nonGo, p) <==> exists c :: c in changes && Dooms(tree, c, p))
    requires forall p :: SomeWrites(nonGo, p) <==> exists c :: c in changes && Parses(tree, c, p)
    requires packages == TouchedPackages(set c | c in changes)
    requires storedGo <= ChangedGo(w, tree, existing, packages) <= tree.Keys
    requires storedOthers <= NamedFiles(nonGo, tree) <= tree.Keys
    ensures var left := existing - RemovedFiles(nonGo) - StaleFiles(w, tree, existing, packages);
            var all := set c | c in changes;
            && AfterDeletes(w, existing, tree, all) == left
            && OutcomeWithout(w, existing, tree, all, WrittenFiles(w, existing, tree, all) - storedGo - storedOthers)
               == WithFiles(w, tree, WithFiles(w, tree, left, storedGo), storedOthers)
  {
    hide DetectLanguage, Dropped, Written, SomeRemoves, SomeWrites, Selected, ChangedGo, StaleFiles, Dooms, Parses,
         RemovedFiles, NamedFiles, TouchedPackages, OutcomeWithout, WithFiles, AfterDeletes;
    var all := set c | c in changes;
    forall p
      ensures p in existing ==>
                (Dropped(w, tree, all, p) <==> p in RemovedFiles(nonGo) || p in StaleFiles(w, tree, existing, packages))
      ensures p in tree ==> (Written(w, existing, tree, all, p)
                             <==> p in ChangedGo(w, tree, existing, packages) || p in NamedFiles(nonGo, tree))
    {
      DroppedBy(w, existing, tree, changes, nonGo, packages, p);
      WrittenBy(w, existing, tree, changes, nonGo, packages, p);
    }
    SameDeletes(w, existing, tree, all, RemovedFiles(nonGo), StaleFiles(w, tree, existing, packages));
    var left := AfterDeletes(w, existing, tree, all);
    InsertsMerge(w, tree, left, storedGo, storedOthers);
    SameInserts(w, existing, tree, all, storedGo + storedOthers);
    assert WrittenFiles(w, existing, tree, all) - storedGo - storedOthers
        == WrittenFiles(w, existing, tree, all) - (storedGo + storedOthers);
  }

  lemma SameDeletes(w: Settings, existing: Index, tree: Tree, changes: set<Change>, removed: set<Path>,
                    stale: set<Path>)
    requires forall p :: p in existing ==> (Dropped(w, tree, changes, p) <==> p in removed || p in stale)
    ensures AfterDeletes(w, existing, tree, changes) == existing - removed - stale
  {
    hide Dropped;
  }

  lemma SameInserts(w: Settings, existing: Index, tree: Tree, changes: set<Change>, stored: set<Path>)
    requires stored <= WrittenFiles(w, existing, tree, changes) && stored <= tree.Keys
    ensures OutcomeWithout(w, existing, tree, changes, WrittenFiles(w, existing, tree, changes) - stored)
            == WithFiles(w, tree, AfterDeletes(w, existing, tree, changes), stored)
  {
    hide WrittenFiles, AfterDeletes;
    var written := WrittenFiles(w, existing, tree, changes);
    assert (map p | p in tree && p in written && p !in written - stored :: EntryOf(w, p, tree[p]))
        == (map p | p in stored :: EntryOf(w, p, tree[p]));
  }

  lemma InsertsMerge(w: Settings, tree: Tree, index: Index, a: set<Path>, b: set<Path>)
    requires a <= tree.Keys && b <= tree.Keys
    ensures WithFiles(w, tree, WithFiles(w, tree, index, a), b) == WithFiles(w, tree, index, a + b)
  {
  }

  lemma DroppedBy(w: Settings, existing: Index, tree: Tree, changes: seq<Change>, nonGo: seq<Change>,
                  packages: set<string>, p: Path)
    requires p in existing ==> (SomeRemoves(nonGo, p) <==> exists c :: c in changes && Dooms(tree, c, p))
    requires packages == TouchedPackages(set c | c in changes)
    ensures p in existing ==>
              (Dropped(w, tree, (set c | c in changes), p)
               <==> p in RemovedFiles(nonGo) || p in StaleFiles(w, tree, existing, packages))
  {
    hide Dooms, TouchedPackages, Selected, Suffix, PackageKey;
    assert forall c :: c in (set c | c in changes) <==> c in changes;
    assert p in RemovedFiles(nonGo) <==> SomeRemoves(nonGo, p);
  }

  lemma WrittenBy(w: Settings, existing: Index, tree: Tree, changes: seq<Change>, nonGo: seq<Change>,
                  packages: set<string>, p: Path)
    requires SomeWrites(nonGo, p) <==> exists c :: c in changes && Parses(tree, c, p)
    requires packages == TouchedPackages(set c | c in changes)
    ensures p in tree ==> (Written(w, existing, tree, (set c | c in changes), p)
                           <==> p in ChangedGo(w, tree, existing, packages) || p in NamedFiles(nonGo, tree))
  {
    hide Parses, TouchedPackages, Selected, PackageKey;
    assert forall c :: c in (set c | c in changes) <==> c in changes;
    assert p in tree ==> (p in NamedFiles(nonGo, tree) <==> SomeWrites(nonGo, p));
  }

  /**
   * A walk over `done`: how far it got, what failed, what it has not committed, and how many files it
   * parsed.
   */
  ghost predicate Walked(w: Settings, tree: Tree, existing: Index, done: set<Path>, failed: set<Path>, index: Index,
                         committed: Index, sinceCommit: set<Path>, processed: nat) {
    && WalkedTo(w, tree, existing, done - failed, index) && done <= Present(w, tree)
    && failed <= done && failed <= Outdated(w, tree, existing)
    && Recent(committed, index, sinceCommit, processed)
    && sinceCommit <= done && processed == |Outdated(w, tree, existing) * done|
  }

  function InPackages(files: set<Path>, keys: set<string>): set<Path> {
    set p | p in files && PackageKey(p) in keys
  }

  lemma NextPackage(files: set<Path>, done: set<Path>, keys: set<string>, rest: set<string>, key: string)
    requires rest <= keys && key in rest && files !! done
    ensures done + InPackages(files, keys - (rest - {key}))
            == done + InPackages(files, keys - rest) + InPackages(files, {key})
    ensures InPackages(files, {key}) !! done + InPackages(files, keys - rest)
  {
    hide PackageKey;
  }

  lemma NextFile(w: Settings, tree: Tree, existing: Index, files: set<Path>, p: Path)
    requires files <= Present(w, tree) && p in files
    ensures p in tree && p in Present(w, tree)
    ensures p in Outdated(w, tree, existing) <==> !(p in existing && existing[p] == EntryOf(w, p, tree[p]))
  {
    hide Present;
    PresentInTree(w, tree, p);
  }

  lemma UnchangedAreWalked(w: Settings, tree: Tree, existing: Index, done: set<Path>, failed: set<Path>,
                           files: set<Path>, changed: set<Path>,
                           index: Index, committed: Index, sinceCommit: set<Path>, processed: nat)
    requires files <= Present(w, tree) && files !! done && changed == files * Outdated(w, tree, existing)
    requires Walked(w, tree, existing, done + changed, failed, index, committed, sinceCommit, processed)
    ensures Walked(w, tree, existing, done + files, failed, index, committed, sinceCommit, processed)
  {
    hide Present, Recent, Outdated, WalkedTo;
    UnchangedAreDone(w, tree, existing, done, failed, files, changed, index);
    SameOutside(Outdated(w, tree, existing), done, files);
  }

  lemma UnchangedAreDone(w: Settings, tree: Tree, existing: Index, done: set<Path>, failed: set<Path>,
                         files: set<Path>, changed: set<Path>, index: Index)
    requires files <= Present(w, tree) && changed == files * Outdated(w, tree, existing)
    requires WalkedTo(w, tree, existing, done + changed - failed, index)
    ensures WalkedTo(w, tree, existing, done + files - failed, index)
  {
    hide Present, Outdated, WalkedTo;
    forall p | p in files
      ensures p in tree && (p !in changed ==> p in existing && existing[p] == EntryOf(w, p, tree[p]))
    {
      NextFile(w, tree, existing, files, p);
    }
    assert done + changed - failed == (done - failed) + (changed - failed);
    assert done + files - failed == (done - failed) + (files - failed);
    CurrentAreDone(w, tree, existing, done - failed, files - failed, changed - failed, index);
  }

  lemma CurrentAreDone(w: Settings, tree: Tree, existing: Index, done: set<Path>, files: set<Path>,
                       changed: set<Path>, index: Index)
    requires changed <= files <= Present(w, tree) && WalkedTo(w, tree, existing, done + changed, index)
    requires forall p :: p in files ==>
               p in tree && (p !in changed ==> p in existing && existing[p] == EntryOf(w, p, tree[p]))
    ensures WalkedTo(w, tree, existing, done + files, index)
  {
    hide Present;
  }

  lemma SameOutside(s: set<Path>, done: set<Path>, files: set<Path>)
    ensures s * (done + files) == s * (done + files * s)
  {
  }

  lemma SkippedIsWalked(w: Settings, tree: Tree, existing: Index, done: set<Path>, failed: set<Path>, index: Index,
                        committed: Index, sinceCommit: set<Path>, processed: nat, p: Path)
    requires Walked(w, tree, existing, done, failed, index, committed, sinceCommit, processed)
    requires p in Present(w, tree) && p in tree && p !in Outdated(w, tree, existing)
    ensures Walked(w, tree, existing, done + {p}, failed, index, committed, sinceCommit, processed)
  {
    hide Present, Recent, Outdated, WalkedTo;
    SkippedIsDone(w, tree, existing, done, failed, index, p);
    NoneMore(Outdated(w, tree, existing), done, p);
  }

  lemma SkippedIsDone(w: Settings, tree: Tree, existing: Index, done: set<Path>, failed: set<Path>, index: Index,
                      p: Path)
    requires WalkedTo(w, tree, existing, done - failed, index) && failed <= Outdated(w, tree, existing)
    requires p in Present(w, tree) && p in tree && p !in Outdated(w, tree, existing)
    ensures WalkedTo(w, tree, existing, done + {p} - failed, index)
  {
    hide Present, Outdated, WalkedTo;
    NextFile(w, tree, existing, {p}, p);
    assert done - failed + {} == done - failed;
    assert done + {p} - failed == done - failed + {p};
    CurrentAreDone(w, tree, existing, done - failed, {p}, {}, index);
  }

  lemma NoneMore(s: set<Path>, done: set<Path>, p: Path)
    requires p !in s
    ensures s * (done + {p}) == s * done
  {
  }

  /** After an attempt the file is done, or has failed and is as it was. */
  lemma AttemptIsDone(w: Settings, tree: Tree, existing: Index, done: set<Path>, failed: set<Path>, index: Index,
                      p: Path, ok: bool)
    requires WalkedTo(w, tree, existing, done - failed, index) && done <= Present(w, tree) && failed <= done
    requires p in tree && p in Outdated(w, tree, existing) && p !in done
    ensures ok ==> WalkedTo(w, tree, existing, done + {p} - failed, index[p := EntryOf(w, p, tree[p])])
    ensures !ok ==> WalkedTo(w, tree, existing, done + {p} - (failed + {p}), index)
    ensures done + {p} <= Present(w, tree)
    ensures |Outdated(w, tree, existing) * (done + {p})| == |Outdated(w, tree, existing) * done| + 1
  {
    hide Present, Outdated, WalkedTo;
    OutdatedIsPresent(w, tree, existing, p);
    PersistedIsDone(w, tree, existing, done - failed, index, p);
    assert done + {p} - failed == done - failed + {p};
    assert done + {p} - (failed + {p}) == done - failed;
    OneMore(Outdated(w, tree, existing), done, p);
  }

  lemma OutdatedIsPresent(w: Settings, tree: Tree, existing: Index, p: Path)
    requires p in Outdated(w, tree, existing)
    ensures p in Present(w, tree)
  {
  }

  lemma PersistedIsDone(w: Settings, tree: Tree, existing: Index, done: set<Path>, index: Index, p: Path)
    requires WalkedTo(w, tree, existing, done, index) && p in Present(w, tree) && p in tree
    ensures WalkedTo(w, tree, existing, done + {p}, index[p := EntryOf(w, p, tree[p])])
  {
    hide Present;
  }

  lemma OneMore(s: set<Path>, done: set<Path>, p: Path)
    requires p in s && p !in done
    ensures |s * (done + {p})| == |s * done| + 1
  {
    assert s * (done + {p}) == s * done + {p};
  }

  lemma PruneBegins(w: Settings, tree: Tree, existing: Index)
    ensures WalkedTo(w, tree, existing, {}, map p | p in existing && p in Present(w, tree) :: existing[p])
  {
  }

  lemma WalkEnds(w: Settings, tree: Tree, existing: Index, failed: set<Path>, index: Index)
    requires WalkedTo(w, tree, existing, Present(w, tree) - failed, index) && failed <= Outdated(w, tree, existing)
    ensures index == IndexWithout(w, tree, existing, failed)
    ensures index == IndexOf(w, tree) <==> failed == {}
    ensures Outdated(w, tree, index) == failed
    ensures Outdated(w, tree, existing) * Present(w, tree) == Outdated(w, tree, existing)
  {
    hide Present;
    forall p | p in Present(w, tree)
      ensures p in tree
    {
      PresentInTree(w, tree, p);
    }
    ExactIffNoneOutdated(w, tree, index);
  }

  lemma ExactIffNoneOutdated(w: Settings, tree: Tree, index: Index)
    requires index.Keys <= Present(w, tree)
    ensures index == IndexOf(w, tree) <==> Outdated(w, tree, index) == {}
  {
    hide Present;
    if index == IndexOf(w, tree) {
      assert forall p :: p in Outdated(w, tree, index) ==> p in Present(w, tree);
    } else if Outdated(w, tree, index) == {} {
      forall p | p in Present(w, tree)
        ensures p in index && index[p] == IndexOf(w, tree)[p]
      {
        PresentInTree(w, tree, p);
        assert p !in Outdated(w, tree, index);
      }
    }
  }

  lemma WalkBegins(w: Settings, tree: Tree, existing: Index, index: Index)
    requires WalkedTo(w, tree, existing, {}, index)
    ensures Walked(w, tree, existing, {}, {}, index, index, {}, 0)
  {
    var none: set<Path> := {};
    assert none - none == none;
    assert Outdated(w, tree, existing) * {} == {};
  }

  lemma RecentAfterPersist(committed: Index, index: Index, sinceCommit: set<Path>, processed: nat, p: Path, e: Entry)
    requires Recent(committed, index, sinceCommit, processed) && p !in sinceCommit
    ensures (processed + 1) % PARSE_COMMIT_EVERY != 0 ==>
              && Recent(committed, index, sinceCommit + {p}, processed + 1)
              && Recent(committed, index[p := e], sinceCommit + {p}, processed + 1)
  {
  }

  lemma RecentAfterCommit(index: Index, processed: nat)
    requires processed % PARSE_COMMIT_EVERY == 0
    ensures Recent(index, index, {}, processed)
  {
  }
}
