/**
 * A full walk that is interrupted and started again (backend/app/graph/ingest.py:56-59, 306-446).
 *
 * A crash rolls the database back to the last commit, and the next walk starts from there.
 */
module WalkResume {
  import opened CodeGraph
  import opened SourceTree
  import opened ChangeLists
  import opened Ingest

  /**
   * The index as committed and as the current transaction sees it; of the current or last walk, what
   * it loaded at its start, the files it has yet to look at, those that failed and those it attempted
   * since the last commit.  `attempts`, `fails` and `crashes` count over all walks.
   */
  datatype State = State(committed: Index, working: Index, walking: bool, existing: Index, todo: set<Path>,
                         failed: set<Path>, sinceCommit: set<Path>, processed: nat,
                         attempts: nat, fails: nat, crashes: nat)

  datatype Step = Begin | Skip(p: Path) | Persist(p: Path) | Fail(p: Path) | Commit | Crash | Finish

  ghost predicate CommitDue(s: State) {
    s.processed % PARSE_COMMIT_EVERY == 0 && s.sinceCommit != {}
  }

  ghost predicate Next(w: Settings, tree: Tree, s: State, step: Step, t: State) {
    match step
    case Begin =>
      && !s.walking
      && var pruned := map p | p in s.working && p in Present(w, tree) :: s.working[p];
         t == s.(walking := true, existing := s.working, working := pruned, committed := pruned,
                 todo := Present(w, tree), failed := {}, sinceCommit := {}, processed := 0)
    case Skip(p) =>
      && s.walking && p in s.todo && !CommitDue(s) && p !in Outdated(w, tree, s.existing)
      && t == s.(todo := s.todo - {p})
    case Persist(p) =>
      && s.walking && p in s.todo && !CommitDue(s) && p in Outdated(w, tree, s.existing) && p in tree
      && t == s.(working := s.working[p := EntryOf(w, p, tree[p])], todo := s.todo - {p},
                 sinceCommit := s.sinceCommit + {p}, processed := s.processed + 1, attempts := s.attempts + 1)
    case Fail(p) =>
      && s.walking && p in s.todo && !CommitDue(s) && p in Outdated(w, tree, s.existing) && p in tree
      && t == s.(todo := s.todo - {p}, failed := s.failed + {p}, sinceCommit := s.sinceCommit + {p},
                 processed := s.processed + 1, attempts := s.attempts + 1, fails := s.fails + 1)
    case Commit =>
      && s.walking && CommitDue(s)
      && t == s.(committed := s.working, sinceCommit := {})
    case Crash =>
      && s.walking
      && t == s.(working := s.committed, walking := false, crashes := s.crashes + 1)
    case Finish =>
      && s.walking && s.todo == {} && !CommitDue(s)
      && t == s.(committed := s.working, walking := false)
  }

  ghost predicate Inv(w: Settings, tree: Tree, s: State) {
    && (!s.walking ==> s.working == s.committed)
    && (s.walking ==>
          && s.todo <= Present(w, tree) && s.failed <= Outdated(w, tree, s.existing) - s.todo
          && WalkedTo(w, tree, s.existing, Present(w, tree) - s.todo - s.failed, s.working)
          && DifferWithin(s.committed, s.working, s.sinceCommit) && s.sinceCommit <= Present(w, tree) - s.todo
          && Counted(s.sinceCommit, s.processed))
  }

  /** Between two commits the uncommitted files are counted by `processed`. */
  ghost predicate Counted(sinceCommit: set<Path>, processed: nat) {
    |sinceCommit| == if processed % PARSE_COMMIT_EVERY == 0 && sinceCommit != {} then PARSE_COMMIT_EVERY
                     else processed % PARSE_COMMIT_EVERY
  }

  lemma CountedFrom(s: set<Path>, t: set<Path>, u: set<Path>)
    requires s <= t + u
    ensures |s| <= |t| + |u|
  {
    SubsetSize(s - u, t);
    assert s <= (s - u) + u;
    SubsetSize(s, (s - u) + u);
  }

  lemma {:induction false} SubsetSize(s: set<Path>, t: set<Path>)
    requires s <= t
    ensures |s| <= |t|
  {
    if s != {} {
      var x :| x in s;
      SubsetSize(s - {x}, t - {x});
    }
  }

  lemma BeginKeepsInv(w: Settings, tree: Tree, s: State, t: State)
    requires Inv(w, tree, s) && Next(w, tree, s, Begin, t)
    ensures Inv(w, tree, t) && Outdated(w, tree, t.working) == Outdated(w, tree, s.working)
  {
    assert Present(w, tree) - t.todo - t.failed == {};
    PruneBegins(w, tree, s.working);
  }

  lemma SkipKeepsInv(w: Settings, tree: Tree, s: State, p: Path, t: State)
    requires Inv(w, tree, s) && Next(w, tree, s, Skip(p), t)
    ensures Inv(w, tree, t)
  {
    hide Present;
    var done := Present(w, tree) - s.todo - s.failed;
    PresentInTree(w, tree, p);
    assert Present(w, tree) - t.todo - t.failed == done + {p};
    CurrentAreDone(w, tree, s.existing, done, {p}, {}, s.working);
  }

  lemma OneFewerOutdated(w: Settings, tree: Tree, existing: Index, done: set<Path>, working: Index, p: Path)
    requires WalkedTo(w, tree, existing, done, working) && p in tree && p !in done && p in Outdated(w, tree, existing)
    ensures |Outdated(w, tree, working[p := EntryOf(w, p, tree[p])])| == |Outdated(w, tree, working)| - 1
  {
    hide Present;
    assert p in Outdated(w, tree, working);
    assert Outdated(w, tree, working[p := EntryOf(w, p, tree[p])]) == Outdated(w, tree, working) - {p};
  }

  lemma OneMoreUncommitted(s: State, p: Path)
    requires Counted(s.sinceCommit, s.processed) && !CommitDue(s) && p !in s.sinceCommit
    ensures Counted(s.sinceCommit + {p}, s.processed + 1)
  {
    assert |s.sinceCommit + {p}| == |s.sinceCommit| + 1;
  }

  lemma UncommittedGrows(committed: Index, working: Index, sinceCommit: set<Path>, p: Path, e: Entry)
    requires DifferWithin(committed, working, sinceCommit)
    ensures DifferWithin(committed, working[p := e], sinceCommit + {p})
    ensures DifferWithin(committed, working, sinceCommit + {p})
  {
  }

  /** Persisting an outdated file leaves one file fewer to do. */
  lemma PersistKeepsInv(w: Settings, tree: Tree, s: State, p: Path, t: State)
    requires Inv(w, tree, s) && Next(w, tree, s, Persist(p), t)
    ensures Inv(w, tree, t) && |Outdated(w, tree, t.working)| == |Outdated(w, tree, s.working)| - 1
  {
    hide Present, WalkedTo, Outdated, DifferWithin, Counted, CommitDue;
    var done := Present(w, tree) - s.todo - s.failed;
    UncommittedGrows(s.committed, s.working, s.sinceCommit, p, EntryOf(w, p, tree[p]));
    OutdatedIsPresent(w, tree, s.existing, p);
    assert Present(w, tree) - t.todo - t.failed == done + {p};
    PersistedIsDone(w, tree, s.existing, done, s.working, p);
    OneFewerOutdated(w, tree, s.existing, done, s.working, p);
    OneMoreUncommitted(s, p);
  }

  /** A file that fails is left as it was, to be parsed again by the next walk. */
  lemma FailKeepsInv(w: Settings, tree: Tree, s: State, p: Path, t: State)
    requires Inv(w, tree, s) && Next(w, tree, s, Fail(p), t)
    ensures Inv(w, tree, t) && t.working == s.working
  {
    hide Present, WalkedTo, Outdated, DifferWithin, Counted, CommitDue;
    UncommittedGrows(s.committed, s.working, s.sinceCommit, p, EntryOf(w, p, tree[p]));
    OutdatedIsPresent(w, tree, s.existing, p);
    assert Present(w, tree) - t.todo - t.failed == Present(w, tree) - s.todo - s.failed;
    OneMoreUncommitted(s, p);
  }

  /** A crash loses at most the files persisted since the last commit, never more than 200. */
  lemma CrashLosesAtMost200(w: Settings, tree: Tree, s: State, t: State)
    requires Inv(w, tree, s) && Next(w, tree, s, Crash, t)
    ensures Inv(w, tree, t)
    ensures |Outdated(w, tree, t.working)| <= |Outdated(w, tree, s.working)| + 200
  {
    hide Present, WalkedTo;
    assert Outdated(w, tree, s.committed) <= Outdated(w, tree, s.working) + s.sinceCommit;
    CountedFrom(Outdated(w, tree, s.committed), Outdated(w, tree, s.working), s.sinceCommit);
  }

  /**
   * Whenever a walk finishes, it has committed the exact index of the tree but for the files that
   * failed, as an uninterrupted walk would; those are what the next walk has to do.
   */
  lemma FinishedWalkIsExact(w: Settings, tree: Tree, s: State, t: State)
    requires Inv(w, tree, s) && Next(w, tree, s, Finish, t)
    ensures Inv(w, tree, t) && t.working == s.working && t.existing == s.existing && t.failed == s.failed
    ensures t.committed == IndexWithout(w, tree, s.existing, s.failed)
    ensures t.committed == IndexOf(w, tree) <==> s.failed == {}
    ensures Outdated(w, tree, t.committed) == s.failed
  {
    hide Present;
    assert Present(w, tree) - s.todo - s.failed == Present(w, tree) - s.failed;
    WalkEnds(w, tree, s.existing, s.failed, s.working);
  }

  lemma CommitKeepsInv(w: Settings, tree: Tree, s: State, t: State)
    requires Inv(w, tree, s) && Next(w, tree, s, Commit, t)
    ensures Inv(w, tree, t) && t.working == s.working
  {
    hide Present, WalkedTo;
  }

  /** Files attempted so far, and still to do, against what there was to do, what failed and the crashes since. */
  ghost predicate Accounted(w: Settings, tree: Tree, start: Index, s: State) {
    s.attempts + |Outdated(w, tree, s.working)|
    <= |Outdated(w, tree, start)| + s.fails + PARSE_COMMIT_EVERY * s.crashes
  }

  lemma StepKeepsAccount(w: Settings, tree: Tree, start: Index, s: State, step: Step, t: State)
    requires Inv(w, tree, s) && Accounted(w, tree, start, s) && Next(w, tree, s, step, t)
    ensures Inv(w, tree, t) && Accounted(w, tree, start, t)
  {
    hide Inv, Outdated, Present;
    match step
    case Begin => BeginKeepsInv(w, tree, s, t);
    case Skip(p) => SkipKeepsInv(w, tree, s, p, t);
    case Persist(p) => PersistKeepsInv(w, tree, s, p, t);
    case Fail(p) => FailKeepsInv(w, tree, s, p, t);
    case Commit => CommitKeepsInv(w, tree, s, t);
    case Crash => CrashLosesAtMost200(w, tree, s, t);
    case Finish => FinishedWalkIsExact(w, tree, s, t);
  }

  /** Any schedule of walks, commits and crashes, from any index. */
  ghost predicate Schedule(w: Settings, tree: Tree, states: seq<State>, steps: seq<Step>) {
    && |states| == |steps| + 1
    && states[0] == State(states[0].working, states[0].working, false, map[], {}, {}, {}, 0, 0, 0, 0)
    && forall i :: 0 <= i < |steps| ==> Next(w, tree, states[i], steps[i], states[i + 1])
  }

  lemma {:induction false} ScheduleAccounted(w: Settings, tree: Tree, states: seq<State>, steps: seq<Step>, n: nat)
    requires Schedule(w, tree, states, steps) && n < |states|
    ensures Inv(w, tree, states[n]) && Accounted(w, tree, states[0].working, states[n])
  {
    if n > 0 {
      ScheduleAccounted(w, tree, states, steps, n - 1);
      StepKeepsAccount(w, tree, states[0].working, states[n - 1], steps[n - 1], states[n]);
    }
  }

  // ---- Back to the index the schedule started from ----

  /** Every file present keeps its first entry until it gets the current one. */
  ghost predicate Derived(w: Settings, tree: Tree, first: Index, index: Index) {
    forall p :: p in Present(w, tree) && p in tree ==>
      && (p in first ==> p in index)
      && (p in index && index[p] != EntryOf(w, p, tree[p]) ==> p in first && index[p] == first[p])
  }

  ghost predicate AllDerived(w: Settings, tree: Tree, first: Index, s: State) {
    && Derived(w, tree, first, s.committed) && Derived(w, tree, first, s.working)
    && (s.walking ==> Derived(w, tree, first, s.existing))
  }

  lemma StepKeepsDerived(w: Settings, tree: Tree, first: Index, s: State, step: Step, t: State)
    requires AllDerived(w, tree, first, s) && Next(w, tree, s, step, t)
    ensures AllDerived(w, tree, first, t)
  {
    hide Present, Outdated, CommitDue;
  }

  lemma {:induction false} ScheduleDerived(w: Settings, tree: Tree, states: seq<State>, steps: seq<Step>, n: nat)
    requires Schedule(w, tree, states, steps) && n < |states|
    ensures AllDerived(w, tree, states[0].working, states[n])
  {
    hide Present, Next;
    if n > 0 {
      ScheduleDerived(w, tree, states, steps, n - 1);
      StepKeepsDerived(w, tree, states[0].working, states[n - 1], steps[n - 1], states[n]);
    }
  }

  lemma WithoutFirst(w: Settings, tree: Tree, first: Index, existing: Index, failed: set<Path>)
    requires Derived(w, tree, first, existing) && failed <= Outdated(w, tree, existing)
    ensures IndexWithout(w, tree, existing, failed) == IndexWithout(w, tree, first, failed)
    ensures failed <= Outdated(w, tree, first)
  {
    hide Present;
    forall p | p in Present(w, tree)
      ensures p in tree
    {
      PresentInTree(w, tree, p);
    }
    forall p | p in failed
      ensures p in existing <==> p in first
      ensures p in existing ==> existing[p] == first[p]
      ensures p in Outdated(w, tree, first)
    {
      assert p in Outdated(w, tree, existing);
    }
  }

  /**
   * However often the walk crashed before it finished, it leaves the index that one uninterrupted walk
   * from the first index would, if the same files failed; and all walks together attempted no more than
   * the files that were outdated at the start, 200 for each crash and those that failed.
   */
  lemma ResumedWalkAgrees(w: Settings, tree: Tree, states: seq<State>, steps: seq<Step>)
    requires Schedule(w, tree, states, steps) && steps != [] && steps[|steps| - 1] == Finish
    ensures var (first, last) := (states[0], states[|steps|]);
            && last.failed <= Outdated(w, tree, first.working)
            && last.committed == IndexWithout(w, tree, first.working, last.failed)
            && (last.committed == IndexOf(w, tree) <==> last.failed == {})
            && Outdated(w, tree, last.committed) == last.failed
            && last.attempts <= |Outdated(w, tree, first.working)| + last.fails + 200 * last.crashes
  {
    hide Outdated, IndexWithout, Derived, Inv, Next, WalkedTo, DifferWithin, Present, IndexOf;
    var n := |steps|;
    ScheduleAccounted(w, tree, states, steps, n - 1);
    ScheduleAccounted(w, tree, states, steps, n);
    FinishedWalkIsExact(w, tree, states[n - 1], states[n]);
    ScheduleDerived(w, tree, states, steps, n - 1);
    FinishesWalk(w, tree, states[n - 1], states[n]);
    FailedWereOutdated(w, tree, states[n - 1]);
    WithoutFirst(w, tree, states[0].working, states[n].existing, states[n].failed);
  }

  lemma FinishesWalk(w: Settings, tree: Tree, s: State, t: State)
    requires Next(w, tree, s, Finish, t)
    ensures s.walking
  {
  }

  lemma FailedWereOutdated(w: Settings, tree: Tree, s: State)
    requires Inv(w, tree, s) && s.walking
    ensures s.failed <= Outdated(w, tree, s.existing)
  {
    hide Outdated, Present;
  }
}
