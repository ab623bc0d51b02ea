/**
 * Ingest runs with their commits, and crashes that roll back to the last one
 * (backend/app/graph/ingest.py:306-446, 571-716).
 */
module StoreSessions {
  import opened CodeGraph
  import opened GraphStates
  import opened StoreRuns

  datatype Mode = Idle | Walking | Incremental

  /** What is committed, and what the open transaction sees. */
  datatype Session = Session(committed: Store, working: Store, mode: Mode)

  datatype Event =
    | BeginWalk(present: set<Path>)   // up to and including the walk's first commit
    | BeginIncremental
    | Do(op: Op)
    | CommitWalk                      // every 200 files, and at the end
    | EndWalk
    | EndIncremental                  // the refresh, then the caller's commit
    | Crash

  const NEW_REPOSITORY := Session(EMPTY, EMPTY, Idle)

  ghost predicate Allowed(mode: Mode, op: Op) {
    match mode
    case Idle => false
    case Walking => op.Persist? || op.SkipFile?
    case Incremental => op.Persist? || op.SkipFile? || op.DeleteFile?
  }

  ghost predicate BeginsWalk(s: Store, present: set<Path>, t: Store) {
    && WalkBegun(s.db, present, t.db) && t.due == s.due && t.owed == OwedAfterBegin(s.db.nodes, present, s.owed)
    && t.files == map p | p in s.files && p in present :: s.files[p]
  }

  ghost predicate Happens(s: Session, e: Event, t: Session, r: Reading) {
    match e
    case BeginWalk(present) =>
      s.mode.Idle? && BeginsWalk(s.working, present, t.working) && t.committed == t.working && t.mode == Walking
    case BeginIncremental => s.mode.Idle? && t == s.(mode := Incremental)
    case Do(op) =>
      && Allowed(s.mode, op) && t.committed == s.committed && t.mode == s.mode
      && StepTo(s.working, op, t.working, r) && MisleadsNone(s.working, op)
    case CommitWalk => s.mode.Walking? && t == s.(committed := s.working)
    case EndWalk => s.mode.Walking? && t == s.(committed := s.working, mode := Idle)
    case EndIncremental =>
      && s.mode.Incremental? && t.committed == t.working && t.mode == Idle
      && StepTo(s.working, Refresh, t.working, r)
    case Crash => !s.mode.Idle? && t == s.(working := s.committed, mode := Idle)
  }

  ghost predicate Inv(s: Session) {
    && Good(s.committed) && s.committed.due == {} && Good(s.working)
    && (s.mode.Idle? ==> s.working == s.committed)
    && (s.mode.Walking? ==> s.working.due == {})
  }

  /** The first commit of a walk saves a good store; if it rebuilt the lists it owes none. */
  lemma BeginWalkGood(s: Store, present: set<Path>, t: Store)
    requires Good(s) && BeginsWalk(s, present, t)
    ensures Good(t) && t.due == s.due && t.owed <= s.owed
  {
    hide Consistent, ModulePaths, RebuiltAll;
    var gone := PrunedRows(s.db.nodes, present);
    RowsHaveModules(s);
    FirstCommitConsistent(s.db, present, s.owed, t.db);
    RestrictedRows(s.db, gone, s.files, present);
    RestrictedEdges(s.db, gone, s.files, present);
    WalkKeepsTables(s.db, present, t.db);
  }

  lemma WalkKeepsTables(db: Db, present: set<Path>, db': Db)
    requires WalkBegun(db, present, db')
    ensures var pruned := Deleted(db, PrunedRows(db.nodes, present));
            db'.nodes == pruned.nodes && db'.edges == pruned.edges
  {
  }

  lemma DoKeepsDue(s: Store, op: Op, t: Store, r: Reading)
    requires StepTo(s, op, t, r)
    ensures op.Persist? || op.SkipFile? ==> t.due == s.due
    ensures op.Refresh? ==> t.due == {}
  {
  }

  lemma EventKeepsInv(s: Session, e: Event, t: Session, r: Reading)
    requires Inv(s) && Happens(s, e, t, r)
    ensures Inv(t)
  {
    hide Good, StepTo, MisleadsNone, BeginsWalk;
    match e
    case BeginWalk(present) => BeginWalkGood(s.working, present, t.working);
    case Do(op) =>
      StepKeepsGood(s.working, op, t.working, r);
      DoKeepsDue(s.working, op, t.working, r);
    case EndIncremental =>
      RefreshMisleadsNone(s.working);
      StepKeepsGood(s.working, Refresh, t.working, r);
      DoKeepsDue(s.working, Refresh, t.working, r);
    case _ =>
  }

  lemma RefreshMisleadsNone(s: Store)
    ensures MisleadsNone(s, Refresh)
  {
  }

  /** Any schedule of walks, incremental runs and crashes, from an empty repository, that misleads no edge. */
  ghost predicate Schedule(states: seq<Session>, events: seq<Event>, r: Reading) {
    && |states| == |events| + 1 && states[0] == NEW_REPOSITORY
    && forall i :: 0 <= i < |events| ==> Happens(states[i], events[i], states[i + 1], r)
  }

  lemma NewRepositoryInv()
    ensures Inv(NEW_REPOSITORY)
  {
    EmptyGood();
  }

  /**
   * Whatever is committed at any point of any such schedule is consistent, holds exactly the files it
   * should, and has exact lists but for the rows it owes.
   */
  lemma {:induction false} EveryCommitGood(states: seq<Session>, events: seq<Event>, r: Reading, n: nat)
    requires Schedule(states, events, r) && n < |states|
    ensures Inv(states[n]) && Consistent(states[n].committed.db, states[n].committed.owed)
  {
    hide Inv, Good, Consistent, Happens;
    if n == 0 {
      NewRepositoryInv();
    } else {
      EveryCommitGood(states, events, r, n - 1);
      EventKeepsInv(states[n - 1], events[n - 1], states[n], r);
    }
    InvMeans(states[n]);
  }

  lemma InvMeans(s: Session)
    requires Inv(s)
    ensures Consistent(s.committed.db, s.committed.owed) && s.committed.due == {}
  {
  }

  /** What a commit saves is what the run saw, and what a crash goes back to. */
  lemma CommitSurvivesCrash(s: Session, e: Event, t: Session, u: Session, r: Reading)
    requires Inv(s) && Happens(s, e, t, r) && (e.CommitWalk? || e.EndWalk? || e.EndIncremental? || e.BeginWalk?)
    ensures t.committed == t.working && (e.CommitWalk? || e.EndWalk? ==> t.working == s.working)
    ensures Happens(t, Crash, u, r) ==> u.working == t.working
    ensures Happens(s, Crash, u, r) ==> u.working == s.committed
  {
    hide Good, StepTo, BeginsWalk;
  }

  // ---- Read as intended ----

  ghost predicate OwesOnlyDue(s: Session) {
    s.working.owed <= s.working.due && s.committed.owed == {}
  }

  lemma IntendedEvent(s: Session, e: Event, t: Session)
    requires Inv(s) && Happens(s, e, t, INTENDED) && OwesOnlyDue(s)
    ensures OwesOnlyDue(t)
  {
    hide Good, StepTo, MisleadsNone, WalkBegun;
    match e
    case Do(op) => IntendedOwes(s.working, op, t.working);
    case EndIncremental =>
      IntendedOwes(s.working, Refresh, t.working);
      DoKeepsDue(s.working, Refresh, t.working, INTENDED);
    case _ =>
  }

  /** Read as intended, nothing that is ever committed owes a list. */
  lemma {:induction false} IntendedCommitsOweNothing(states: seq<Session>, events: seq<Event>, n: nat)
    requires Schedule(states, events, INTENDED) && n < |states|
    ensures OwesOnlyDue(states[n]) && Consistent(states[n].committed.db, {})
  {
    hide Inv, Good, Consistent, Happens;
    EveryCommitGood(states, events, INTENDED, n);
    if n > 0 {
      IntendedCommitsOweNothing(states, events, n - 1);
      EveryCommitGood(states, events, INTENDED, n - 1);
      IntendedEvent(states[n - 1], events[n - 1], states[n]);
    }
  }
}
