/**
 * Refresh-token rotation with reuse detection (backend/app/api/auth.py) as a protocol.
 *
 * Any number of requests run at once.  Each handler is cut at its database commits, so one
 * step below is one atomic read or one committed write; between two steps of a request any
 * other request may take any number of its own.  Token signatures are taken to be
 * unforgeable, family ids and jtis to be fresh.
 */
module RefreshTokens {
  import opened Wrappers

  type Jti = nat
  type Family = nat
  type Request = nat

  datatype Token = Token(family: Family, jti: Jti)

  datatype Row = Row(currentJti: Jti, revoked: bool)

  /** Where a request in flight has got to. */
  datatype Pc =
    | AboutToRevoke(family: Family)            // refresh saw a jti that is not current, or logout saw a live row
    | AboutToSwap(family: Family, jti: Jti)    // refresh saw the current jti of a live row

  /** What has been committed, in order. */
  datatype Event =
    | LoggedIn(family: Family, jti: Jti)
    | Exchanged(family: Family, spent: Jti, minted: Jti)
    | Revoked(family: Family)
    | Deleted(family: Family)

  datatype State = State(rows: map<Family, Row>, pending: map<Request, Pc>, issued: set<Token>, log: seq<Event>)

  datatype Step =
    | Login(family: Family, jti: Jti)
    | RefreshRead(req: Request, token: Token)
    | RefreshSwap(req: Request, minted: Jti)
    | LogoutRead(req: Request, token: Token)
    | CommitRevocation(req: Request)
    | Abandon(req: Request)                    // the user row is gone, or the request dies
    | DeleteFamily(family: Family)             // an administrator removes the user's sessions

  const INITIAL := State(map[], map[], {}, [])

  // ---- Freshness, read off the log ----

  ghost predicate Mentions(log: seq<Event>, jti: Jti) {
    exists i :: 0 <= i < |log|
      && ((log[i].LoggedIn? && log[i].jti == jti) || (log[i].Exchanged? && log[i].minted == jti))
  }

  ghost predicate Known(log: seq<Event>, f: Family) {
    exists i :: 0 <= i < |log| && log[i].family == f
  }

  ghost predicate Enabled(s: State, step: Step) {
    match step
    case Login(f, jti) => !Known(s.log, f) && !Mentions(s.log, jti)
    case RefreshRead(req, token) => req !in s.pending && token in s.issued
    case RefreshSwap(req, minted) => req in s.pending && s.pending[req].AboutToSwap? && !Mentions(s.log, minted)
    case LogoutRead(req, token) => req !in s.pending && token in s.issued
    case CommitRevocation(req) => req in s.pending && s.pending[req].AboutToRevoke?
    case Abandon(req) => req in s.pending
    case DeleteFamily(f) => f in s.rows
  }

  function Next(s: State, step: Step): State {
    match step
    case Login(f, jti) =>
      s.(rows := s.rows[f := Row(jti, false)], issued := s.issued + {Token(f, jti)},
         log := s.log + [LoggedIn(f, jti)])
    case RefreshRead(req, token) =>
      if token.family !in s.rows || s.rows[token.family].revoked then s
      else if token.jti != s.rows[token.family].currentJti then
        s.(pending := s.pending[req := AboutToRevoke(token.family)])
      else s.(pending := s.pending[req := AboutToSwap(token.family, token.jti)])
    case RefreshSwap(req, minted) =>
      if req in s.pending && s.pending[req].AboutToSwap? then
        var AboutToSwap(f, jti) := s.pending[req];
        var done := s.(pending := s.pending - {req});
        if f in s.rows && s.rows[f].currentJti == jti && !s.rows[f].revoked then
          done.(rows := s.rows[f := Row(minted, false)], issued := s.issued + {Token(f, minted)},
                log := s.log + [Exchanged(f, jti, minted)])
        else done
      else s
    case LogoutRead(req, token) =>
      if token.family !in s.rows || s.rows[token.family].revoked then s
      else s.(pending := s.pending[req := AboutToRevoke(token.family)])
    case CommitRevocation(req) =>
      if req in s.pending && s.pending[req].AboutToRevoke? then
        var f := s.pending[req].family;
        var done := s.(pending := s.pending - {req});
        if f in s.rows then
          done.(rows := s.rows[f := s.rows[f].(revoked := true)], log := s.log + [Revoked(f)])
        else done
      else s
    case Abandon(req) => s.(pending := s.pending - {req})
    case DeleteFamily(f) => s.(rows := s.rows - {f}, log := s.log + [Deleted(f)])
  }

  ghost predicate Run(s: State, steps: seq<Step>, t: State)
    decreases |steps|
  {
    if steps == [] then t == s
    else Enabled(s, steps[0]) && Run(Next(s, steps[0]), steps[1..], t)
  }

  // ---- The chain of tokens a family has issued ----

  function Chain(log: seq<Event>, f: Family): seq<Jti> {
    if log == [] then []
    else
      var before := Chain(log[..|log| - 1], f);
      match log[|log| - 1]
      case LoggedIn(g, jti) => if g == f then before + [jti] else before
      case Exchanged(g, _, minted) => if g == f then before + [minted] else before
      case _ => before
  }

  ghost predicate Ended(log: seq<Event>, f: Family) {
    Revoked(f) in log || Deleted(f) in log
  }

  ghost predicate Permits(log: seq<Event>, e: Event) {
    match e
    case LoggedIn(f, jti) => !Known(log, f) && !Mentions(log, jti)
    case Exchanged(f, spent, minted) =>
      && Chain(log, f) != [] && Last(Chain(log, f)) == spent
      && !Mentions(log, minted) && !Ended(log, f)
    case Revoked(f) => Chain(log, f) != []
    case Deleted(f) => Chain(log, f) != []
  }

  /** Each committed event was permitted by the ones before it. */
  ghost predicate Lawful(log: seq<Event>) {
    log == [] || (Lawful(log[..|log| - 1]) && Permits(log[..|log| - 1], log[|log| - 1]))
  }

  function Last(chain: seq<Jti>): Jti
    requires chain != []
  {
    chain[|chain| - 1]
  }

  /** The stored row, or its absence, is what the log says. */
  ghost predicate RowFits(s: State, f: Family) {
    var chain := Chain(s.log, f);
    if f in s.rows then
      && chain != [] && s.rows[f].currentJti == Last(chain)
      && (s.rows[f].revoked <==> Revoked(f) in s.log)
      && Deleted(f) !in s.log
    else
      chain != [] ==> Deleted(f) in s.log
  }

  ghost predicate TokensFit(s: State) {
    forall t :: t in s.issued <==> t.jti in Chain(s.log, t.family)
  }

  ghost predicate Inv(s: State) {
    Lawful(s.log) && TokensFit(s) && forall f :: RowFits(s, f)
  }

  function Adds(e: Event): seq<Jti> {
    match e
    case LoggedIn(_, jti) => [jti]
    case Exchanged(_, _, minted) => [minted]
    case _ => []
  }

  lemma ChainGrows(log: seq<Event>, e: Event, f: Family)
    ensures Chain(log + [e], f) == Chain(log, f) + (if e.family == f then Adds(e) else [])
  {
    assert (log + [e])[..|log|] == log;
  }

  lemma LawfulGrows(log: seq<Event>, e: Event)
    requires Lawful(log) && Permits(log, e)
    ensures Lawful(log + [e])
  {
    assert (log + [e])[..|log|] == log;
  }

  /** A family nobody has heard of has issued nothing. */
  lemma {:induction false} UnknownHasNoChain(log: seq<Event>, f: Family)
    requires !Known(log, f)
    ensures Chain(log, f) == []
  {
    if log != [] {
      var before := log[..|log| - 1];
      assert log[|log| - 1].family != f;
      forall i | 0 <= i < |before|
        ensures before[i].family != f
      {
        assert log[i].family != f;
      }
      UnknownHasNoChain(before, f);
    }
  }

  /** What committing `e` does to the rows and to the tokens in circulation. */
  ghost predicate Effect(s: State, t: State, e: Event) {
    && t.log == s.log + [e]
    && (forall f :: f != e.family ==> (f in t.rows <==> f in s.rows) && (f in s.rows ==> t.rows[f] == s.rows[f]))
    && (forall x :: x in t.issued <==> x in s.issued || (x.family == e.family && x.jti in Adds(e)))
    && match e
       case LoggedIn(f, jti) => f in t.rows && t.rows[f] == Row(jti, false)
       case Exchanged(f, _, minted) => f in s.rows && f in t.rows && t.rows[f] == Row(minted, false)
       case Revoked(f) => f in s.rows && f in t.rows && t.rows[f] == s.rows[f].(revoked := true)
       case Deleted(f) => f !in t.rows
  }

  lemma MembershipGrows(log: seq<Event>, e: Event, x: Event)
    ensures x in log + [e] <==> x in log || x == e
  {
  }

  lemma UnknownHasNoEvent(log: seq<Event>, f: Family, x: Event)
    requires !Known(log, f) && x.family == f
    ensures x !in log
  {
  }

  lemma RowStillFits(s: State, t: State, e: Event, f: Family)
    requires RowFits(s, f) && Permits(s.log, e) && Effect(s, t, e)
    ensures RowFits(t, f)
  {
    ChainGrows(s.log, e, f);
    MembershipGrows(s.log, e, Revoked(f));
    MembershipGrows(s.log, e, Deleted(f));
    if e.LoggedIn? && f == e.family {
      UnknownHasNoEvent(s.log, f, Revoked(f));
      UnknownHasNoEvent(s.log, f, Deleted(f));
    }
  }

  lemma CommitKeepsInv(s: State, t: State, e: Event)
    requires Inv(s) && Permits(s.log, e) && Effect(s, t, e)
    ensures Inv(t)
  {
    LawfulGrows(s.log, e);
    forall f
      ensures RowFits(t, f)
    {
      RowStillFits(s, t, e, f);
    }
    forall x: Token
      ensures x in t.issued <==> x.jti in Chain(t.log, x.family)
    {
      ChainGrows(s.log, e, x.family);
    }
  }

  lemma SwapKeepsInv(s: State, req: Request, minted: Jti)
    requires Inv(s) && Enabled(s, RefreshSwap(req, minted))
    ensures Inv(Next(s, RefreshSwap(req, minted)))
  {
    var AboutToSwap(f, jti) := s.pending[req];
    var t := Next(s, RefreshSwap(req, minted));
    if f in s.rows && s.rows[f].currentJti == jti && !s.rows[f].revoked {
      assert RowFits(s, f);
      CommitKeepsInv(s, t, Exchanged(f, jti, minted));
    } else {
      SameTables(s, t);
    }
  }

  lemma RevocationKeepsInv(s: State, req: Request)
    requires Inv(s) && Enabled(s, CommitRevocation(req))
    ensures Inv(Next(s, CommitRevocation(req)))
  {
    var f := s.pending[req].family;
    var t := Next(s, CommitRevocation(req));
    if f in s.rows {
      assert RowFits(s, f);
      CommitKeepsInv(s, t, Revoked(f));
    } else {
      SameTables(s, t);
    }
  }

  lemma SameTables(s: State, t: State)
    requires Inv(s) && t.rows == s.rows && t.issued == s.issued && t.log == s.log
    ensures Inv(t)
  {
    forall f
      ensures RowFits(t, f)
    {
      assert RowFits(s, f);
    }
  }

  lemma NextKeepsInv(s: State, step: Step)
    requires Inv(s) && Enabled(s, step)
    ensures Inv(Next(s, step))
  {
    match step
    case Login(f, jti) => CommitKeepsInv(s, Next(s, step), LoggedIn(f, jti));
    case RefreshSwap(req, minted) => SwapKeepsInv(s, req, minted);
    case CommitRevocation(req) => RevocationKeepsInv(s, req);
    case DeleteFamily(f) =>
      assert RowFits(s, f);
      CommitKeepsInv(s, Next(s, step), Deleted(f));
    case _ => SameTables(s, Next(s, step));
  }

  /** Whatever interleaving of logins, refreshes, logouts and deletions led here. */
  lemma {:induction false} ReachableInv(s: State, steps: seq<Step>, t: State)
    requires Inv(s) && Run(s, steps, t)
    ensures Inv(t)
    decreases |steps|
  {
    if steps != [] {
      NextKeepsInv(s, steps[0]);
      ReachableInv(Next(s, steps[0]), steps[1..], t);
    }
  }

  lemma InitialInv()
    ensures Inv(INITIAL)
  {
  }

  lemma Reachable(steps: seq<Step>, t: State)
    requires Run(INITIAL, steps, t)
    ensures Inv(t)
  {
    InitialInv();
    ReachableInv(INITIAL, steps, t);
  }

  // ---- What every lawful history satisfies ----

  lemma {:induction false} LawfulPrefix(log: seq<Event>, m: nat, f: Family)
    requires Lawful(log) && m <= |log|
    ensures Lawful(log[..m]) && Chain(log[..m], f) <= Chain(log, f)
    decreases |log|
  {
    if m == |log| {
      assert log[..m] == log;
    } else {
      var before := log[..|log| - 1];
      LawfulPrefix(before, m, f);
      assert before[..m] == log[..m];
    }
  }

  lemma PermittedAt(log: seq<Event>, i: nat)
    requires Lawful(log) && i < |log|
    ensures Permits(log[..i], log[i])
  {
    LawfulPrefix(log, i + 1, log[i].family);
    assert log[..i + 1][..i] == log[..i];
  }

  lemma {:induction false} ChainMentioned(log: seq<Event>, f: Family, jti: Jti)
    requires jti in Chain(log, f)
    ensures Mentions(log, jti) && Known(log, f)
  {
    var before := log[..|log| - 1];
    if jti in Chain(before, f) {
      ChainMentioned(before, f, jti);
      var i :| 0 <= i < |before|
          && ((before[i].LoggedIn? && before[i].jti == jti) || (before[i].Exchanged? && before[i].minted == jti));
      assert log[i] == before[i];
      var k :| 0 <= k < |before| && before[k].family == f;
      assert log[k] == before[k];
    } else {
      assert log[|log| - 1].family == f;
    }
  }

  /** No jti is in circulation twice, neither within a family nor in two of them. */
  lemma {:induction false} ChainsDistinct(log: seq<Event>, f: Family, g: Family)
    requires Lawful(log)
    ensures forall i, j :: 0 <= i < |Chain(log, f)| && 0 <= j < |Chain(log, g)| && Chain(log, f)[i] == Chain(log, g)[j]
              ==> f == g && i == j
  {
    if log != [] {
      var before := log[..|log| - 1];
      ChainsDistinct(before, f, g);
      forall h, jti | h in {f, g} && jti in Chain(before, h)
        ensures Mentions(before, jti)
      {
        ChainMentioned(before, h, jti);
      }
    }
  }

  /** Each refresh token is exchanged at most once, whichever requests race for it. */
  lemma ExchangedAtMostOnce(log: seq<Event>, i: nat, j: nat)
    requires Lawful(log) && i < j < |log| && log[i].Exchanged? && log[j].Exchanged?
    ensures log[i].spent != log[j].spent
  {
    var f, g := log[i].family, log[j].family;
    PermittedAt(log, i);
    PermittedAt(log, j);
    var upto := log[..j];
    LawfulPrefix(log, j, f);
    LawfulPrefix(upto, i + 1, f);
    assert upto[..i + 1] == log[..i] + [log[i]];
    ChainGrows(log[..i], log[i], f);
    var before := Chain(log[..i], f);
    assert before + [log[i].minted] <= Chain(upto, f);
    assert Chain(upto, f)[|before| - 1] == log[i].spent;
    ChainsDistinct(upto, f, g);
  }

  /** Nothing is exchanged in a family once its revocation or deletion has been committed. */
  lemma NoExchangeAfterRevocation(log: seq<Event>, i: nat, j: nat)
    requires Lawful(log) && i < j < |log| && (log[i].Revoked? || log[i].Deleted?)
    ensures !(log[j].Exchanged? && log[j].family == log[i].family)
  {
    PermittedAt(log, j);
    assert log[..j][i] == log[i];
  }

  ghost predicate Consecutive(chain: seq<Jti>, a: Jti, b: Jti) {
    exists k :: 0 <= k < |chain| - 1 && chain[k] == a && chain[k + 1] == b
  }

  lemma ConsecutiveGrows(chain: seq<Jti>, c: Jti, a: Jti, b: Jti)
    ensures Consecutive(chain + [c], a, b) <==> Consecutive(chain, a, b) || (chain != [] && a == Last(chain) && b == c)
  {
    var longer := chain + [c];
    if Consecutive(chain, a, b) {
      var k :| 0 <= k < |chain| - 1 && chain[k] == a && chain[k + 1] == b;
      assert longer[k] == a && longer[k + 1] == b;
    }
    if chain != [] && a == Last(chain) && b == c {
      assert longer[|chain| - 1] == a && longer[|chain|] == b;
    }
    if Consecutive(longer, a, b) {
      var k :| 0 <= k < |longer| - 1 && longer[k] == a && longer[k + 1] == b;
      if k + 1 < |chain| {
        assert chain[k] == a && chain[k + 1] == b;
      }
    }
  }

  /** The exchanges of a family are exactly the links of its chain: it never forks. */
  lemma {:induction false} ExchangesAreTheLinks(log: seq<Event>, f: Family, a: Jti, b: Jti)
    requires Lawful(log)
    ensures Exchanged(f, a, b) in log <==> Consecutive(Chain(log, f), a, b)
  {
    if log != [] {
      var before, e := log[..|log| - 1], log[|log| - 1];
      assert log == before + [e];
      ExchangesAreTheLinks(before, f, a, b);
      MembershipGrows(before, e, Exchanged(f, a, b));
      if e.family == f && Adds(e) != [] {
        ConsecutiveGrows(Chain(before, f), Adds(e)[0], a, b);
        if e.LoggedIn? {
          UnknownHasNoChain(before, f);
        }
      }
    }
  }

  /** In every reachable state a live family's tokens form one chain that ends at its current jti. */
  lemma LiveChain(steps: seq<Step>, t: State, f: Family)
    requires Run(INITIAL, steps, t) && f in t.rows
    ensures var chain := Chain(t.log, f);
            && chain != [] && t.rows[f].currentJti == Last(chain)
            && (forall jti :: Token(f, jti) in t.issued <==> jti in chain)
            && (forall i, j :: 0 <= i < j < |chain| ==> chain[i] != chain[j])
            && (forall a, b :: Exchanged(f, a, b) in t.log <==> Consecutive(chain, a, b))
  {
    Reachable(steps, t);
    assert RowFits(t, f);
    forall jti
      ensures Token(f, jti) in t.issued <==> jti in Chain(t.log, f)
    {
      assert Token(f, jti).jti == jti;
    }
    ChainsDistinct(t.log, f, f);
    forall a, b { ExchangesAreTheLinks(t.log, f, a, b); }
  }

  // ---- Reuse of an exchanged token ----

  ghost predicate Closed(s: State, f: Family) {
    f in s.rows ==> s.rows[f].revoked
  }

  lemma {:induction false} LogOnlyGrows(s: State, steps: seq<Step>, t: State)
    requires Run(s, steps, t)
    ensures s.log <= t.log
    decreases |steps|
  {
    if steps != [] {
      LogOnlyGrows(Next(s, steps[0]), steps[1..], t);
    }
  }

  /** A family once revoked or deleted stays that way. */
  lemma {:induction false} ClosedForever(s: State, steps: seq<Step>, t: State, f: Family)
    requires Inv(s) && Run(s, steps, t) && Chain(s.log, f) != [] && Closed(s, f)
    ensures Closed(t, f)
  {
    ReachableInv(s, steps, t);
    LogOnlyGrows(s, steps, t);
    assert RowFits(s, f) && RowFits(t, f);
    assert Ended(s.log, f);
    assert forall e :: e in s.log ==> e in t.log;
  }

  lemma {:induction false} RevocationRunsItsCourse(s: State, steps: seq<Step>, t: State, req: Request, f: Family)
    requires Inv(s) && Run(s, steps, t) && Chain(s.log, f) != []
    requires req in s.pending && s.pending[req] == AboutToRevoke(f)
    requires Abandon(req) !in steps && req !in t.pending
    ensures Closed(t, f)
    decreases |steps|
  {
    if steps != [] {
      var s' := Next(s, steps[0]);
      NextKeepsInv(s, steps[0]);
      assert steps[0] in steps && steps[0] != Abandon(req);
      if steps[0] == CommitRevocation(req) {
        assert RowFits(s, f) && RowFits(s', f);
        LogOnlyGrows(s, [steps[0]], s');
        LawfulPrefix(s'.log, |s.log|, f);
        ClosedForever(s', steps[1..], t, f);
      } else {
        LogOnlyGrows(s, [steps[0]], s');
        LawfulPrefix(s'.log, |s.log|, f);
        RevocationRunsItsCourse(s', steps[1..], t, req, f);
      }
    }
  }

  /**
   * Presenting a token that has been exchanged closes its family: once that request has run
   * its course, and in every state after that, no row of the family is live.
   */
  lemma ReuseClosesFamily(steps: seq<Step>, s: State, req: Request, token: Token, minted: Jti, later: seq<Step>,
                          t: State)
    requires Run(INITIAL, steps, s)
    requires Exchanged(token.family, token.jti, minted) in s.log
    requires Enabled(s, RefreshRead(req, token)) && Run(Next(s, RefreshRead(req, token)), later, t)
    requires Abandon(req) !in later && req !in t.pending
    ensures Closed(t, token.family)
  {
    var f := token.family;
    Reachable(steps, s);
    NextKeepsInv(s, RefreshRead(req, token));
    var s' := Next(s, RefreshRead(req, token));
    ExchangesAreTheLinks(s.log, f, token.jti, minted);
    ChainsDistinct(s.log, f, f);
    assert RowFits(s, f);
    if f in s.rows && !s.rows[f].revoked {
      assert s.rows[f].currentJti != token.jti;
      RevocationRunsItsCourse(s', later, t, req, f);
    } else {
      ClosedForever(s', later, t, f);
    }
  }

  /** Of two requests holding the same current token, the one that swaps second changes no table. */
  lemma LosingSwapChangesNothing(s: State, req: Request, minted: Jti)
    requires Inv(s) && Enabled(s, RefreshSwap(req, minted))
    requires exists next :: Exchanged(s.pending[req].family, s.pending[req].jti, next) in s.log
    ensures var t := Next(s, RefreshSwap(req, minted));
            t.rows == s.rows && t.issued == s.issued && t.log == s.log
  {
    var AboutToSwap(f, jti) := s.pending[req];
    var next :| Exchanged(f, jti, next) in s.log;
    ExchangesAreTheLinks(s.log, f, jti, next);
    ChainsDistinct(s.log, f, f);
    assert RowFits(s, f);
  }

  // ---- A legitimate refresh goes through ----

  function Actor(step: Step): Option<Request> {
    match step
    case RefreshRead(req, _) => Some(req)
    case RefreshSwap(req, _) => Some(req)
    case LogoutRead(req, _) => Some(req)
    case CommitRevocation(req) => Some(req)
    case Abandon(req) => Some(req)
    case _ => None
  }

  ghost predicate ByOthers(steps: seq<Step>, req: Request) {
    forall step :: step in steps ==> Actor(step) != Some(req)
  }

  /** What a request has got to is its own affair. */
  lemma {:induction false} OthersLeaveRequest(s: State, steps: seq<Step>, t: State, req: Request)
    requires Run(s, steps, t) && ByOthers(steps, req)
    ensures req in t.pending <==> req in s.pending
    ensures req in s.pending ==> t.pending[req] == s.pending[req]
    decreases |steps|
  {
    if steps != [] {
      assert steps[0] in steps;
      OthersLeaveRequest(Next(s, steps[0]), steps[1..], t, req);
    }
  }

  /**
   * A request that presents the current token of a live family is read and swapped, whatever other
   * requests do in between, as long as the family's row is left as it was: the row gets the new jti and
   * stays live, the exchange is committed, and the new token is in circulation.
   */
  lemma RefreshGoesThrough(s: State, req: Request, f: Family, between: seq<Step>, t: State, minted: Jti)
    requires Inv(s) && f in s.rows && !s.rows[f].revoked && req !in s.pending
    requires Run(Next(s, RefreshRead(req, Token(f, s.rows[f].currentJti))), between, t) && ByOthers(between, req)
    requires f in t.rows && t.rows[f] == s.rows[f] && !Mentions(t.log, minted)
    ensures Enabled(s, RefreshRead(req, Token(f, s.rows[f].currentJti))) && Enabled(t, RefreshSwap(req, minted))
    ensures var (jti, u) := (s.rows[f].currentJti, Next(t, RefreshSwap(req, minted)));
            && u.rows == t.rows[f := Row(minted, false)] && u.log == t.log + [Exchanged(f, jti, minted)]
            && u.issued == t.issued + {Token(f, minted)} && u.pending == t.pending - {req}
  {
    CurrentIsIssued(s, f);
    OthersLeaveRequest(Next(s, RefreshRead(req, Token(f, s.rows[f].currentJti))), between, t, req);
  }

  lemma CurrentIsIssued(s: State, f: Family)
    requires Inv(s) && f in s.rows
    ensures Token(f, s.rows[f].currentJti) in s.issued
  {
    assert RowFits(s, f);
    assert Token(f, s.rows[f].currentJti).jti in Chain(s.log, f);
  }

  /** A login opens a family whose first token is current. */
  lemma LoginOpensFamily(s: State, f: Family, jti: Jti)
    requires Inv(s) && Enabled(s, Login(f, jti))
    ensures var t := Next(s, Login(f, jti));
            && t.rows == s.rows[f := Row(jti, false)] && t.issued == s.issued + {Token(f, jti)}
            && t.pending == s.pending && f !in s.rows
  {
    assert RowFits(s, f);
    UnknownHasNoChain(s.log, f);
  }

  /** A request that is given up leaves no mark. */
  lemma AbandonLeavesNoMark(s: State, req: Request)
    ensures var t := Next(s, Abandon(req));
            req !in t.pending && t.rows == s.rows && t.issued == s.issued && t.log == s.log
  {
  }

  // ---- What revokes a family ----

  function After(steps: seq<Step>): State {
    if steps == [] then INITIAL else Next(After(steps[..|steps| - 1]), steps[|steps| - 1])
  }

  /** Step `i` asks for the family to be revoked: a logout, or a refresh with a token that is not current. */
  ghost predicate AsksToRevoke(steps: seq<Step>, i: nat, f: Family)
    requires i < |steps|
  {
    var s := After(steps[..i]);
    && f in s.rows && !s.rows[f].revoked
    && match steps[i]
       case LogoutRead(_, token) => token.family == f
       case RefreshRead(_, token) => token.family == f && token.jti != s.rows[f].currentJti
       case _ => false
  }

  ghost predicate AskedToRevoke(steps: seq<Step>, f: Family) {
    exists i :: 0 <= i < |steps| && AsksToRevoke(steps, i, f)
  }

  lemma AskedStays(steps: seq<Step>, last: Step, f: Family)
    ensures AskedToRevoke(steps, f) ==> AskedToRevoke(steps + [last], f)
    ensures AsksToRevoke(steps + [last], |steps|, f) ==> AskedToRevoke(steps + [last], f)
  {
    if AskedToRevoke(steps, f) {
      var i :| 0 <= i < |steps| && AsksToRevoke(steps, i, f);
      assert (steps + [last])[..i] == steps[..i];
      assert AsksToRevoke(steps + [last], i, f);
    }
  }

  lemma {:induction false} RevocationWasAsked(steps: seq<Step>, f: Family)
    ensures (Revoked(f) in After(steps).log || exists req :: req in After(steps).pending
                                                             && After(steps).pending[req] == AboutToRevoke(f)) ==>
              AskedToRevoke(steps, f)
  {
    if steps != [] {
      var init, last := steps[..|steps| - 1], steps[|steps| - 1];
      assert steps == init + [last];
      RevocationWasAsked(init, f);
      AskedStays(init, last, f);
      assert steps[..|init|] == init;
    }
  }

  lemma {:induction false} AfterOneMore(s: State, first: Step, rest: seq<Step>, steps: seq<Step>)
    requires After(steps) == s
    ensures After(steps + ([first] + rest)) == After((steps + [first]) + rest)
    ensures After(steps + [first]) == Next(s, first)
  {
    assert steps + ([first] + rest) == (steps + [first]) + rest;
    assert (steps + [first])[..|steps|] == steps;
  }

  lemma {:induction false} RunIsAfter(before: seq<Step>, s: State, steps: seq<Step>, t: State)
    requires After(before) == s && Run(s, steps, t)
    ensures t == After(before + steps)
    decreases |steps|
  {
    if steps == [] {
      assert before + steps == before;
    } else {
      AfterOneMore(s, steps[0], steps[1..], before);
      assert steps == [steps[0]] + steps[1..];
      RunIsAfter(before + [steps[0]], Next(s, steps[0]), steps[1..], t);
    }
  }

  /**
   * A family is revoked only if someone asked for it while it was live: by logging out, or by presenting
   * a token that was not its current one.
   */
  lemma OnlyAskedForRevoked(steps: seq<Step>, t: State, f: Family)
    requires Run(INITIAL, steps, t) && Revoked(f) in t.log
    ensures exists i :: 0 <= i < |steps| && AsksToRevoke(steps, i, f)
  {
    RunIsAfter([], INITIAL, steps, t);
    assert [] + steps == steps;
    RevocationWasAsked(steps, f);
  }

  /** Logging out closes the family, once the request has run its course, for good. */
  lemma LogoutClosesFamily(steps: seq<Step>, s: State, req: Request, token: Token, later: seq<Step>, t: State)
    requires Run(INITIAL, steps, s) && Enabled(s, LogoutRead(req, token))
    requires Run(Next(s, LogoutRead(req, token)), later, t) && Abandon(req) !in later && req !in t.pending
    ensures Closed(t, token.family)
  {
    var f := token.family;
    Reachable(steps, s);
    NextKeepsInv(s, LogoutRead(req, token));
    assert RowFits(s, f);
    assert token.jti in Chain(s.log, f);
    if f in s.rows && !s.rows[f].revoked {
      RevocationRunsItsCourse(Next(s, LogoutRead(req, token)), later, t, req, f);
    } else {
      ClosedForever(Next(s, LogoutRead(req, token)), later, t, f);
    }
  }
}
