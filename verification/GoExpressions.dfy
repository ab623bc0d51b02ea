/**
 * Build expressions as trees: their Kleene value, and what that value says about the
 * classical value once the tags the profile leaves open are decided.
 */
module GoExpressions {
  import opened GoTruth

  datatype Expr = Tag(name: string) | Neg(e: Expr) | Conj(l: Expr, r: Expr) | Disj(l: Expr, r: Expr)

  /** The evaluator's value: `&&`, `||` and `!` read as Kleene connectives. */
  function Eval(e: Expr, p: Profile): Truth {
    match e
    case Tag(name) => EvaluateIdentifier(name, p)
    case Neg(e) => Not(Eval(e, p))
    case Conj(l, r) => And(Eval(l, p), Eval(r, p))
    case Disj(l, r) => Or(Eval(l, p), Eval(r, p))
  }

  /** Classical value when each open tag is decided by its name. */
  ghost predicate Holds(e: Expr, p: Profile, open: string -> bool) {
    match e
    case Tag(name) =>
      var v := EvaluateIdentifier(name, p);
      if v.UNKNOWN? then open(name) else v.TRUE?
    case Neg(e) => !Holds(e, p, open)
    case Conj(l, r) => Holds(l, p, open) && Holds(r, p, open)
    case Disj(l, r) => Holds(l, p, open) || Holds(r, p, open)
  }

  /** A definite verdict is the classical value, however the open tags are decided. */
  lemma {:induction false} VerdictIsClassical(e: Expr, p: Profile, open: string -> bool)
    ensures Eval(e, p).TRUE? ==> Holds(e, p, open)
    ensures Eval(e, p).FALSE? ==> !Holds(e, p, open)
  {
    match e
    case Tag(_) =>
    case Neg(e') => VerdictIsClassical(e', p, open);
    case Conj(l, r) => VerdictIsClassical(l, p, open); VerdictIsClassical(r, p, open);
    case Disj(l, r) => VerdictIsClassical(l, p, open); VerdictIsClassical(r, p, open);
  }

  /** So a constraint that two decisions of the open tags settle differently is reported UNKNOWN. */
  lemma UndeterminedIsUnknown(e: Expr, p: Profile, yes: string -> bool, no: string -> bool)
    requires Holds(e, p, yes) && !Holds(e, p, no)
    ensures Eval(e, p).UNKNOWN?
  {
    VerdictIsClassical(e, p, yes);
    VerdictIsClassical(e, p, no);
  }

  /** The converse fails: `unix || !unix` always holds, and is reported UNKNOWN all the same. */
  lemma DeterminedYetUnknown(p: Profile, open: string -> bool)
    ensures var e := Disj(Tag("unix"), Neg(Tag("unix")));
            Eval(e, p).UNKNOWN? && Holds(e, p, open)
  {
    assert BeforeDot("unix") == "unix" by {
      assert "unix"[1..] == "nix" && "nix"[1..] == "ix" && "ix"[1..] == "x" && "x"[1..] == "";
      assert BeforeDot("") == "";
      assert BeforeDot("x") == "x";
      assert BeforeDot("ix") == "ix";
      assert BeforeDot("nix") == "nix";
    }
    assert EvaluateIdentifier("unix", p).UNKNOWN?;
  }

  // ---- What UNKNOWN does mean: occurrences decided one by one ----

  /** Decisions for the occurrences of open tags, arranged like the tree. */
  datatype Choice = Leaf(b: bool) | One(c: Choice) | Two(l: Choice, r: Choice)

  ghost predicate Fits(c: Choice, e: Expr) {
    match e
    case Tag(_) => c.Leaf?
    case Neg(e) => c.One? && Fits(c.c, e)
    case Conj(l, r) => c.Two? && Fits(c.l, l) && Fits(c.r, r)
    case Disj(l, r) => c.Two? && Fits(c.l, l) && Fits(c.r, r)
  }

  ghost predicate HoldsAt(e: Expr, p: Profile, c: Choice)
    requires Fits(c, e)
  {
    match e
    case Tag(name) =>
      var v := EvaluateIdentifier(name, p);
      if v.UNKNOWN? then c.b else v.TRUE?
    case Neg(e) => !HoldsAt(e, p, c.c)
    case Conj(l, r) => HoldsAt(l, p, c.l) && HoldsAt(r, p, c.r)
    case Disj(l, r) => HoldsAt(l, p, c.l) || HoldsAt(r, p, c.r)
  }

  lemma {:induction false} VerdictAtOccurrences(e: Expr, p: Profile, c: Choice)
    requires Fits(c, e)
    ensures Eval(e, p).TRUE? ==> HoldsAt(e, p, c)
    ensures Eval(e, p).FALSE? ==> !HoldsAt(e, p, c)
  {
    match e
    case Tag(_) =>
    case Neg(e') => VerdictAtOccurrences(e', p, c.c);
    case Conj(l, r) => VerdictAtOccurrences(l, p, c.l); VerdictAtOccurrences(r, p, c.r);
    case Disj(l, r) => VerdictAtOccurrences(l, p, c.l); VerdictAtOccurrences(r, p, c.r);
  }

  /** A choice that makes `e` come out `want`, unless the verdict is definite the other way. */
  function Steer(e: Expr, want: bool): (c: Choice)
    ensures Fits(c, e)
  {
    match e
    case Tag(_) => Leaf(want)
    case Neg(e) => One(Steer(e, !want))
    case Conj(l, r) => Two(Steer(l, want), Steer(r, want))
    case Disj(l, r) => Two(Steer(l, want), Steer(r, want))
  }

  lemma {:induction false} SteerReaches(e: Expr, p: Profile, want: bool)
    requires Eval(e, p) != Decide(!want)
    ensures HoldsAt(e, p, Steer(e, want)) == want
  {
    match e
    case Tag(_) =>
    case Neg(e') => SteerReaches(e', p, !want);
    case Conj(l, r) =>
      if Eval(l, p) != Decide(!want) { SteerReaches(l, p, want); }
      if Eval(r, p) != Decide(!want) { SteerReaches(r, p, want); }
    case Disj(l, r) =>
      if Eval(l, p) != Decide(!want) { SteerReaches(l, p, want); }
      if Eval(r, p) != Decide(!want) { SteerReaches(r, p, want); }
  }

  /**
   * UNKNOWN exactly when the occurrences of the open tags can be decided to make the
   * expression hold and can be decided to make it fail.
   */
  lemma UnknownIffOccurrencesDisagree(e: Expr, p: Profile)
    ensures Eval(e, p).UNKNOWN? <==>
            (exists yes, no :: Fits(yes, e) && Fits(no, e) && HoldsAt(e, p, yes) && !HoldsAt(e, p, no))
  {
    if Eval(e, p).UNKNOWN? {
      SteerReaches(e, p, true);
      SteerReaches(e, p, false);
      var yes, no := Steer(e, true), Steer(e, false);
      assert Fits(yes, e) && Fits(no, e) && HoldsAt(e, p, yes) && !HoldsAt(e, p, no);
    } else {
      forall yes, no | Fits(yes, e) && Fits(no, e)
        ensures !(HoldsAt(e, p, yes) && !HoldsAt(e, p, no))
      {
        VerdictAtOccurrences(e, p, yes);
        VerdictAtOccurrences(e, p, no);
      }
    }
  }

  // ---- What UNKNOWN does mean: tags decided by name ----

  /** The open tag `name` occurs under an even number of negations, or, unless `even`, under an odd number. */
  predicate Occurs(e: Expr, p: Profile, name: string, even: bool) {
    match e
    case Tag(n) => even && n == name && EvaluateIdentifier(n, p).UNKNOWN?
    case Neg(e) => Occurs(e, p, name, !even)
    case Conj(l, r) => Occurs(l, p, name, even) || Occurs(r, p, name, even)
    case Disj(l, r) => Occurs(l, p, name, even) || Occurs(r, p, name, even)
  }

  /** No open tag occurs both ways. */
  ghost predicate OneWay(e: Expr, p: Profile) {
    forall name :: !(Occurs(e, p, name, true) && Occurs(e, p, name, false))
  }

  /** Decisions that favour `want` wherever an open tag occurs settle `e` as wanted, unless the verdict forbids it. */
  lemma {:induction false} FavouredHolds(e: Expr, p: Profile, open: string -> bool, want: bool)
    requires forall name :: Occurs(e, p, name, true) ==> open(name) == want
    requires forall name :: Occurs(e, p, name, false) ==> open(name) != want
    requires Eval(e, p) != Decide(!want)
    ensures Holds(e, p, open) == want
  {
    match e
    case Tag(name) =>
      assert EvaluateIdentifier(name, p).UNKNOWN? ==> Occurs(e, p, name, true);
    case Neg(e') =>
      assert forall name, b :: Occurs(e', p, name, b) ==> Occurs(e, p, name, !b);
      FavouredHolds(e', p, open, !want);
    case Conj(l, r) =>
      assert forall name, b :: Occurs(l, p, name, b) || Occurs(r, p, name, b) ==> Occurs(e, p, name, b);
      if Eval(l, p) != Decide(!want) { FavouredHolds(l, p, open, want); }
      if Eval(r, p) != Decide(!want) { FavouredHolds(r, p, open, want); }
    case Disj(l, r) =>
      assert forall name, b :: Occurs(l, p, name, b) || Occurs(r, p, name, b) ==> Occurs(e, p, name, b);
      if Eval(l, p) != Decide(!want) { FavouredHolds(l, p, open, want); }
      if Eval(r, p) != Decide(!want) { FavouredHolds(r, p, open, want); }
  }

  /**
   * If no open tag occurs both negated and not, a constraint is reported UNKNOWN exactly when the
   * open tags leave it undetermined: only then can indexing its file raise.
   */
  lemma OneWayUnknownIffUndetermined(e: Expr, p: Profile)
    requires OneWay(e, p)
    ensures Eval(e, p).UNKNOWN?
            <==> exists yes: string -> bool, no: string -> bool :: Holds(e, p, yes) && !Holds(e, p, no)
  {
    if Eval(e, p).UNKNOWN? {
      var yes := name => Occurs(e, p, name, true);
      var no := name => Occurs(e, p, name, false);
      FavouredHolds(e, p, yes, true);
      FavouredHolds(e, p, no, false);
      assert Holds(e, p, yes) && !Holds(e, p, no);
    }
    forall yes: string -> bool, no: string -> bool | Holds(e, p, yes) && !Holds(e, p, no)
      ensures Eval(e, p).UNKNOWN?
    {
      UndeterminedIsUnknown(e, p, yes, no);
    }
  }
}
