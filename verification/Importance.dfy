/**
 * PageRank over the call graph (backend/app/graph/importance.py), in exact reals.
 *
 * A graph is one list of callee indices per node.  Repeated callees count as often as
 * they occur; self calls and unknown callees have been dropped by `BuildOutEdges`.
 */
module Importance {
  import opened Sums

  ghost predicate ValidGraph(out: seq<seq<nat>>) {
    forall i, e :: 0 <= i < |out| && 0 <= e < |out[i]| ==> out[i][e] < |out|
  }

  // ---- The matrix form of one step: every node pulls from its callers ----

  /** Rank held by nodes that call nobody, among the first `k`. */
  function Dangling(out: seq<seq<nat>>, r: seq<real>, k: nat): real
    requires k <= |out| == |r|
  {
    if k == 0 then 0.0
    else Dangling(out, r, k - 1) + (if out[k - 1] == [] then r[k - 1] else 0.0)
  }

  /** What one call edge of each node carries when node `i` gives away `y[i]`. */
  function Shares(out: seq<seq<nat>>, y: seq<real>): (w: seq<real>)
    requires |out| == |y|
    ensures |w| == |y|
  {
    seq(|y|, i requires 0 <= i < |y| => if out[i] == [] then 0.0 else y[i] / |out[i]| as real)
  }

  /** What node `j` receives from a node with callees `callees`, each edge carrying `w`. */
  function Received(callees: seq<nat>, j: nat, w: real): real {
    if callees == [] then 0.0
    else Received(callees[..|callees| - 1], j, w) + (if callees[|callees| - 1] == j then w else 0.0)
  }

  /** What node `j` receives from the first `k` nodes. */
  function Inflow(out: seq<seq<nat>>, w: seq<real>, j: nat, k: nat): real
    requires k <= |out| == |w|
  {
    if k == 0 then 0.0 else Inflow(out, w, j, k - 1) + Received(out[k - 1], j, w[k - 1])
  }

  function Teleport(out: seq<seq<nat>>, c: real, y: seq<real>): real
    requires |out| == |y| > 0
  {
    (c + Dangling(out, y, |out|)) / |out| as real
  }

  function Spread(out: seq<seq<nat>>, t: real, w: seq<real>): (s: seq<real>)
    requires |out| == |w|
    ensures |s| == |w|
  {
    seq(|out|, j requires 0 <= j < |out| => t + Inflow(out, w, j, |out|))
  }

  /** Distribute `y` along the edges; `c` and the dangling part of `y` go to all nodes alike. */
  function Pull(out: seq<seq<nat>>, c: real, y: seq<real>): (s: seq<real>)
    requires |out| == |y| > 0
    ensures |s| == |y|
  {
    Spread(out, Teleport(out, c, y), Shares(out, y))
  }

  function Step(out: seq<seq<nat>>, d: real, r: seq<real>): (s: seq<real>)
    requires |out| == |r| > 0
    ensures |s| == |r|
  {
    Pull(out, 1.0 - d, Scale(d, r))
  }

  function Uniform(n: nat): (r: seq<real>)
    requires n > 0
    ensures |r| == n
  {
    Fill(n, 1.0 / n as real)
  }

  function Iterate(out: seq<seq<nat>>, d: real, k: nat): (r: seq<real>)
    requires |out| > 0
    ensures |r| == |out|
  {
    if k == 0 then Uniform(|out|) else Step(out, d, Iterate(out, d, k - 1))
  }

  function Delta(out: seq<seq<nat>>, d: real, k: nat): real
    requires |out| > 0
  {
    Distance(Iterate(out, d, k + 1), Iterate(out, d, k))
  }

  // ---- Conservation of mass ----

  /** `w` once per callee. */
  function Outflow(callees: seq<nat>, w: real): real {
    if callees == [] then 0.0 else Outflow(callees[..|callees| - 1], w) + w
  }

  lemma {:induction false} OutflowIsProduct(callees: seq<nat>, w: real)
    ensures Outflow(callees, w) == |callees| as real * w
  {
    if callees != [] {
      OutflowIsProduct(callees[..|callees| - 1], w);
      assert |callees| as real * w == (|callees| - 1) as real * w + w;
    }
  }

  lemma OutflowOfShare(out: seq<seq<nat>>, y: seq<real>, i: nat)
    requires i < |out| == |y|
    ensures Outflow(out[i], Shares(out, y)[i]) == if out[i] == [] then 0.0 else y[i]
  {
    OutflowIsProduct(out[i], Shares(out, y)[i]);
  }

  function ReceivedAll(callees: seq<nat>, w: real, n: nat): (s: seq<real>)
    ensures |s| == n
  {
    seq(n, j requires 0 <= j < n => Received(callees, j, w))
  }

  function Single(x: nat, w: real, n: nat): (s: seq<real>)
    ensures |s| == n
  {
    seq(n, j requires 0 <= j < n => if j == x then w else 0.0)
  }

  lemma {:induction false} SumSingle(x: nat, w: real, n: nat)
    ensures Sum(Single(x, w, n)) == if x < n then w else 0.0
  {
    if n > 0 {
      assert Single(x, w, n)[..n - 1] == Single(x, w, n - 1);
      SumSingle(x, w, n - 1);
    }
  }

  lemma SumZeros(n: nat)
    ensures Sum(Fill(n, 0.0)) == 0.0
  {
    SumFill(n, 0.0);
  }

  lemma {:induction false} SumReceived(callees: seq<nat>, w: real, n: nat)
    requires forall e :: 0 <= e < |callees| ==> callees[e] < n
    ensures Sum(ReceivedAll(callees, w, n)) == Outflow(callees, w)
  {
    if callees == [] {
      assert ReceivedAll(callees, w, n) == Fill(n, 0.0);
      SumZeros(n);
    } else {
      var m := |callees| - 1;
      SumReceived(callees[..m], w, n);
      SumSingle(callees[m], w, n);
      SumAdd(ReceivedAll(callees[..m], w, n), Single(callees[m], w, n));
      assert ReceivedAll(callees, w, n) == Add(ReceivedAll(callees[..m], w, n), Single(callees[m], w, n));
    }
  }

  function InflowAll(out: seq<seq<nat>>, w: seq<real>, k: nat): (s: seq<real>)
    requires k <= |out| == |w|
    ensures |s| == |out|
  {
    seq(|out|, j requires 0 <= j < |out| => Inflow(out, w, j, k))
  }

  /** What flows along the edges is what the nodes give away, less what dangling nodes keep. */
  lemma {:induction false} InflowMass(out: seq<seq<nat>>, y: seq<real>, k: nat)
    requires ValidGraph(out) && k <= |out| == |y|
    ensures Sum(InflowAll(out, Shares(out, y), k)) + Dangling(out, y, k) == Sum(y[..k])
  {
    var n, w := |out|, Shares(out, y);
    if k == 0 {
      assert InflowAll(out, w, 0) == Fill(n, 0.0);
      SumZeros(n);
    } else {
      var i := k - 1;
      InflowMass(out, y, i);
      SumReceived(out[i], w[i], n);
      SumAdd(InflowAll(out, w, i), ReceivedAll(out[i], w[i], n));
      assert InflowAll(out, w, k) == Add(InflowAll(out, w, i), ReceivedAll(out[i], w[i], n));
      OutflowOfShare(out, y, i);
      assert y[..k][..i] == y[..i];
    }
  }

  lemma SumFillQuotient(n: nat, a: real)
    requires n > 0
    ensures Sum(Fill(n, a / n as real)) == a
  {
    SumFill(n, a / n as real);
  }

  lemma SpreadMass(out: seq<seq<nat>>, t: real, w: seq<real>)
    requires |out| == |w|
    ensures Sum(Spread(out, t, w)) == Sum(Fill(|out|, t)) + Sum(InflowAll(out, w, |out|))
  {
    SumAdd(Fill(|out|, t), InflowAll(out, w, |out|));
    assert Spread(out, t, w) == Add(Fill(|out|, t), InflowAll(out, w, |out|));
  }

  lemma TeleportMass(out: seq<seq<nat>>, c: real, y: seq<real>)
    requires |out| == |y| > 0
    ensures Sum(Fill(|out|, Teleport(out, c, y))) == c + Dangling(out, y, |out|)
  {
    SumFillQuotient(|out|, c + Dangling(out, y, |out|));
  }

  lemma AllInflowMass(out: seq<seq<nat>>, y: seq<real>)
    requires ValidGraph(out) && |out| == |y|
    ensures Sum(InflowAll(out, Shares(out, y), |out|)) + Dangling(out, y, |out|) == Sum(y)
  {
    InflowMass(out, y, |out|);
    assert y[..|out|] == y;
  }

  lemma PullMass(out: seq<seq<nat>>, c: real, y: seq<real>)
    requires ValidGraph(out) && |out| == |y| > 0
    ensures Sum(Pull(out, c, y)) == c + Sum(y)
  {
    SpreadMass(out, Teleport(out, c, y), Shares(out, y));
    TeleportMass(out, c, y);
    AllInflowMass(out, y);
  }

  lemma ScaledUnit(d: real, r: seq<real>)
    requires Sum(r) == 1.0
    ensures Sum(Scale(d, r)) == d
  {
    SumScale(d, r);
  }

  lemma StepMass(out: seq<seq<nat>>, d: real, r: seq<real>)
    requires ValidGraph(out) && |out| == |r| > 0 && Sum(r) == 1.0
    ensures Sum(Step(out, d, r)) == 1.0
  {
    ScaledUnit(d, r);
    PullMass(out, 1.0 - d, Scale(d, r));
  }

  // ---- Positivity ----

  ghost predicate NonNegative(y: seq<real>) {
    forall i :: 0 <= i < |y| ==> y[i] >= 0.0
  }

  lemma {:induction false} ReceivedNonNegative(callees: seq<nat>, j: nat, w: real)
    requires w >= 0.0
    ensures Received(callees, j, w) >= 0.0
  {
    if callees != [] {
      ReceivedNonNegative(callees[..|callees| - 1], j, w);
    }
  }

  lemma {:induction false} InflowNonNegative(out: seq<seq<nat>>, w: seq<real>, j: nat, k: nat)
    requires k <= |out| == |w| && NonNegative(w)
    ensures Inflow(out, w, j, k) >= 0.0
  {
    if k > 0 {
      InflowNonNegative(out, w, j, k - 1);
      ReceivedNonNegative(out[k - 1], j, w[k - 1]);
    }
  }

  lemma {:induction false} DanglingNonNegative(out: seq<seq<nat>>, y: seq<real>, k: nat)
    requires k <= |out| == |y| && NonNegative(y)
    ensures Dangling(out, y, k) >= 0.0
  {
    if k > 0 {
      DanglingNonNegative(out, y, k - 1);
    }
  }

  lemma QuotientMonotone(a: real, b: real, n: nat)
    requires n > 0 && a <= b
    ensures a / n as real <= b / n as real
  {
  }

  lemma SharesNonNegative(out: seq<seq<nat>>, y: seq<real>)
    requires |out| == |y| && NonNegative(y)
    ensures NonNegative(Shares(out, y))
  {
    forall i | 0 <= i < |y|
      ensures Shares(out, y)[i] >= 0.0
    {
      if out[i] != [] {
        QuotientMonotone(0.0, y[i], |out[i]|);
      }
    }
  }

  lemma PullAtLeastTeleport(out: seq<seq<nat>>, c: real, y: seq<real>, j: nat)
    requires j < |out| == |y| && NonNegative(y)
    ensures Pull(out, c, y)[j] >= c / |out| as real
  {
    var n := |out|;
    DanglingNonNegative(out, y, n);
    QuotientMonotone(c, c + Dangling(out, y, n), n);
    SharesNonNegative(out, y);
    InflowNonNegative(out, Shares(out, y), j, n);
  }

  lemma ScaleNonNegative(d: real, r: seq<real>)
    requires d >= 0.0 && NonNegative(r)
    ensures NonNegative(Scale(d, r))
  {
  }

  ghost predicate Distribution(r: seq<real>, floor: real) {
    Sum(r) == 1.0 && forall j :: 0 <= j < |r| ==> r[j] >= floor
  }

  lemma StepKeepsDistribution(out: seq<seq<nat>>, d: real, r: seq<real>)
    requires ValidGraph(out) && |out| == |r| > 0 && 0.0 <= d <= 1.0
    requires Distribution(r, 0.0)
    ensures Distribution(Step(out, d, r), (1.0 - d) / |out| as real)
  {
    StepMass(out, d, r);
    ScaleNonNegative(d, r);
    forall j | 0 <= j < |out|
      ensures Step(out, d, r)[j] >= (1.0 - d) / |out| as real
    {
      PullAtLeastTeleport(out, 1.0 - d, Scale(d, r), j);
    }
  }

  /** Every iterate is a probability distribution no entry of which drops below (1 - d) / n. */
  lemma {:induction false} IterateIsDistribution(out: seq<seq<nat>>, d: real, k: nat)
    requires ValidGraph(out) && |out| > 0 && 0.0 <= d <= 1.0
    ensures Distribution(Iterate(out, d, k), (1.0 - d) / |out| as real)
    ensures (1.0 - d) / |out| as real >= 0.0
  {
    QuotientMonotone(0.0, 1.0 - d, |out|);
    if k == 0 {
      SumFillQuotient(|out|, 1.0);
      QuotientMonotone(1.0 - d, 1.0, |out|);
    } else {
      IterateIsDistribution(out, d, k - 1);
      StepKeepsDistribution(out, d, Iterate(out, d, k - 1));
    }
  }

  // ---- Contraction ----

  lemma {:induction false} ReceivedLinear(callees: seq<nat>, j: nat, v: real, w: real)
    ensures Received(callees, j, v) - Received(callees, j, w) == Received(callees, j, v - w)
  {
    if callees != [] {
      ReceivedLinear(callees[..|callees| - 1], j, v, w);
    }
  }

  lemma {:induction false} InflowLinear(out: seq<seq<nat>>, v: seq<real>, w: seq<real>, j: nat, k: nat)
    requires k <= |out| == |v| == |w|
    ensures Inflow(out, v, j, k) - Inflow(out, w, j, k) == Inflow(out, Minus(v, w), j, k)
  {
    if k > 0 {
      InflowLinear(out, v, w, j, k - 1);
      ReceivedLinear(out[k - 1], j, v[k - 1], w[k - 1]);
    }
  }

  lemma {:induction false} DanglingLinear(out: seq<seq<nat>>, x: seq<real>, y: seq<real>, k: nat)
    requires k <= |out| == |x| == |y|
    ensures Dangling(out, x, k) - Dangling(out, y, k) == Dangling(out, Minus(x, y), k)
  {
    if k > 0 {
      DanglingLinear(out, x, y, k - 1);
    }
  }

  lemma QuotientMinus(a: real, b: real, n: nat)
    requires n > 0
    ensures a / n as real - b / n as real == (a - b) / n as real
  {
  }

  lemma SharesLinear(out: seq<seq<nat>>, x: seq<real>, y: seq<real>)
    requires |out| == |x| == |y|
    ensures Minus(Shares(out, x), Shares(out, y)) == Shares(out, Minus(x, y))
  {
    forall i | 0 <= i < |x|
      ensures Minus(Shares(out, x), Shares(out, y))[i] == Shares(out, Minus(x, y))[i]
    {
      if out[i] != [] {
        QuotientMinus(x[i], y[i], |out[i]|);
      }
    }
  }

  lemma PullLinear(out: seq<seq<nat>>, c: real, x: seq<real>, y: seq<real>, j: nat)
    requires j < |out| == |x| == |y|
    ensures Pull(out, c, x)[j] - Pull(out, c, y)[j] == Pull(out, 0.0, Minus(x, y))[j]
  {
    var n := |out|;
    DanglingLinear(out, x, y, n);
    QuotientMinus(c + Dangling(out, x, n), c + Dangling(out, y, n), n);
    SharesLinear(out, x, y);
    InflowLinear(out, Shares(out, x), Shares(out, y), j, n);
  }

  lemma {:induction false} ReceivedAbs(callees: seq<nat>, j: nat, v: real, w: real)
    requires Abs(v) <= w
    ensures Abs(Received(callees, j, v)) <= Received(callees, j, w)
  {
    if callees != [] {
      ReceivedAbs(callees[..|callees| - 1], j, v, w);
    }
  }

  lemma {:induction false} InflowAbs(out: seq<seq<nat>>, v: seq<real>, w: seq<real>, j: nat, k: nat)
    requires k <= |out| == |v| == |w|
    requires forall i :: 0 <= i < |v| ==> Abs(v[i]) <= w[i]
    ensures Abs(Inflow(out, v, j, k)) <= Inflow(out, w, j, k)
  {
    if k > 0 {
      InflowAbs(out, v, w, j, k - 1);
      ReceivedAbs(out[k - 1], j, v[k - 1], w[k - 1]);
    }
  }

  lemma {:induction false} DanglingAbs(out: seq<seq<nat>>, z: seq<real>, k: nat)
    requires k <= |out| == |z|
    ensures Abs(Dangling(out, z, k)) <= Dangling(out, AbsAll(z), k)
  {
    if k > 0 {
      DanglingAbs(out, z, k - 1);
    }
  }

  lemma QuotientAbs(a: real, b: real, n: nat)
    requires n > 0 && Abs(a) <= b
    ensures Abs(a / n as real) <= b / n as real
  {
    QuotientMonotone(a, b, n);
    QuotientMonotone(-a, b, n);
    assert (-a) / n as real == -(a / n as real);
  }

  lemma PullAbs(out: seq<seq<nat>>, z: seq<real>, j: nat)
    requires j < |out| == |z|
    ensures Abs(Pull(out, 0.0, z)[j]) <= Pull(out, 0.0, AbsAll(z))[j]
  {
    var n := |out|;
    DanglingAbs(out, z, n);
    QuotientAbs(0.0 + Dangling(out, z, n), 0.0 + Dangling(out, AbsAll(z), n), n);
    var v, w := Shares(out, z), Shares(out, AbsAll(z));
    forall i | 0 <= i < n
      ensures Abs(v[i]) <= w[i]
    {
      if out[i] != [] {
        QuotientAbs(z[i], Abs(z[i]), |out[i]|);
      }
    }
    InflowAbs(out, v, w, j, n);
  }

  lemma PullDistance(out: seq<seq<nat>>, c: real, x: seq<real>, y: seq<real>)
    requires ValidGraph(out) && |out| == |x| == |y| > 0
    ensures Distance(Pull(out, c, x), Pull(out, c, y)) <= Distance(x, y)
  {
    var z := Minus(x, y);
    var gap := Minus(Pull(out, c, x), Pull(out, c, y));
    var bound := Pull(out, 0.0, AbsAll(z));
    forall j | 0 <= j < |out|
      ensures AbsAll(gap)[j] <= bound[j]
    {
      PullLinear(out, c, x, y, j);
      PullAbs(out, z, j);
    }
    SumMonotone(AbsAll(gap), bound);
    PullMass(out, 0.0, AbsAll(z));
  }

  /** One step brings any two rank vectors closer by the damping factor. */
  lemma StepContracts(out: seq<seq<nat>>, d: real, x: seq<real>, y: seq<real>)
    requires ValidGraph(out) && |out| == |x| == |y| > 0 && 0.0 <= d
    ensures Distance(Step(out, d, x), Step(out, d, y)) <= d * Distance(x, y)
  {
    PullDistance(out, 1.0 - d, Scale(d, x), Scale(d, y));
    ScaledDistance(d, x, y);
  }

  function Power(d: real, k: nat): real {
    if k == 0 then 1.0 else d * Power(d, k - 1)
  }

  lemma ProductMonotone(d: real, a: real, b: real)
    requires d >= 0.0 && a <= b
    ensures d * a <= d * b
  {
  }

  lemma FirstDelta(out: seq<seq<nat>>, d: real)
    requires ValidGraph(out) && |out| > 0 && 0.0 <= d <= 1.0
    ensures Delta(out, d, 0) <= 2.0
  {
    IterateIsDistribution(out, d, 0);
    IterateIsDistribution(out, d, 1);
    DistanceBySums(Iterate(out, d, 1), Iterate(out, d, 0));
  }

  lemma NextDelta(out: seq<seq<nat>>, d: real, r: seq<real>, p: real, q: real)
    requires ValidGraph(out) && |out| == |r| > 0 && 0.0 <= d && q == d * p
    requires Distance(Step(out, d, r), r) <= p
    ensures Distance(Step(out, d, Step(out, d, r)), Step(out, d, r)) <= q
  {
    StepContracts(out, d, Step(out, d, r), r);
    ProductMonotone(d, Distance(Step(out, d, r), r), p);
  }

  lemma DoublePower(d: real, k: nat)
    requires k > 0
    ensures 2.0 * Power(d, k) == d * (2.0 * Power(d, k - 1))
  {
  }

  /** Successive deltas shrink geometrically. */
  lemma {:induction false} DeltaGeometric(out: seq<seq<nat>>, d: real, k: nat)
    requires ValidGraph(out) && |out| > 0 && 0.0 <= d <= 1.0
    ensures 0.0 <= Delta(out, d, k) <= 2.0 * Power(d, k)
  {
    DistanceSymmetric(Iterate(out, d, k + 1), Iterate(out, d, k));
    if k == 0 {
      FirstDelta(out, d);
    } else {
      DeltaGeometric(out, d, k - 1);
      DoublePower(d, k);
      NextDelta(out, d, Iterate(out, d, k - 1), 2.0 * Power(d, k - 1), 2.0 * Power(d, k));
    }
  }

  lemma DivideBound(e: real, q: real, b: real)
    requires q > 0.0 && e * q <= b
    ensures e <= b / q
  {
    assert b / q * q == b;
  }

  /** Stopping after a delta below `tol` leaves at most `tol * d / (1 - d)` to any fixed point. */
  lemma StoppingError(out: seq<seq<nat>>, d: real, k: nat, tol: real, fixpoint: seq<real>)
    requires ValidGraph(out) && |out| == |fixpoint| > 0 && 0.0 <= d < 1.0
    requires Step(out, d, fixpoint) == fixpoint
    requires Delta(out, d, k) < tol
    ensures Distance(Iterate(out, d, k + 1), fixpoint) <= StopBound(d, tol)
  {
    var r, s := Iterate(out, d, k), Iterate(out, d, k + 1);
    StepContracts(out, d, r, fixpoint);
    DistanceTriangle(r, s, fixpoint);
    DistanceSymmetric(s, r);
    var e := Distance(s, fixpoint);
    ProductMonotone(d, Distance(r, fixpoint), tol + e);
    assert e * (1.0 - d) <= tol * d;
    DivideBound(e, 1.0 - d, tol * d);
  }

  lemma NoDistanceMeansEqual(x: seq<real>, y: seq<real>)
    requires |x| == |y| && Distance(x, y) == 0.0
    ensures x == y
  {
    ZeroSumMeansZeros(AbsAll(Minus(x, y)));
    forall i | 0 <= i < |x|
      ensures x[i] == y[i]
    {
      assert AbsAll(Minus(x, y))[i] == Abs(x[i] - y[i]);
    }
  }

  /** At most one rank vector is left unchanged by a step. */
  lemma FixpointUnique(out: seq<seq<nat>>, d: real, x: seq<real>, y: seq<real>)
    requires ValidGraph(out) && |out| == |x| == |y| > 0 && 0.0 <= d < 1.0
    requires Step(out, d, x) == x && Step(out, d, y) == y
    ensures x == y
  {
    StepContracts(out, d, x, y);
    DistanceSymmetric(x, y);
    var e := Distance(x, y);
    assert e * (1.0 - d) <= 0.0;
    DivideBound(e, 1.0 - d, 0.0);
    NoDistanceMeansEqual(x, y);
  }

  function StopBound(d: real, tol: real): real
    requires d < 1.0
  {
    tol * d / (1.0 - d)
  }

  lemma StopBoundIsStable(d: real, tol: real, e: real, delta: real)
    requires 0.0 <= d < 1.0 && e <= StopBound(d, tol) && delta <= tol
    ensures d * (e + delta) <= StopBound(d, tol)
  {
    var b := StopBound(d, tol);
    assert b * (1.0 - d) == tol * d;
    ProductMonotone(d, e + delta, b + tol);
  }

  lemma StopBoundNonNegative(d: real, tol: real)
    requires 0.0 <= d < 1.0 && tol >= 0.0
    ensures StopBound(d, tol) >= 0.0
  {
    DivideBound(0.0, 1.0 - d, tol * d);
  }

  lemma StepStaysClose(out: seq<seq<nat>>, d: real, r: seq<real>, t: seq<real>, tol: real)
    requires ValidGraph(out) && |out| == |r| == |t| > 0 && 0.0 <= d < 1.0
    requires Distance(Step(out, d, r), r) < tol && Distance(t, Step(out, d, r)) <= StopBound(d, tol)
    ensures Distance(Step(out, d, t), Step(out, d, r)) <= StopBound(d, tol)
  {
    var s := Step(out, d, r);
    StepContracts(out, d, t, r);
    DistanceTriangle(t, s, r);
    ProductMonotone(d, Distance(t, r), Distance(t, s) + Distance(s, r));
    StopBoundIsStable(d, tol, Distance(t, s), Distance(s, r));
  }

  /** Iterating on past the stop never moves the scores by more than the stopping error. */
  lemma {:induction false} LaterIteratesStayClose(out: seq<seq<nat>>, d: real, k: nat, m: nat, tol: real)
    requires ValidGraph(out) && |out| > 0 && 0.0 <= d < 1.0
    requires Delta(out, d, k) < tol
    ensures Distance(Iterate(out, d, k + m + 1), Iterate(out, d, k + 1)) <= StopBound(d, tol)
  {
    if m == 0 {
      DistanceToSelf(Iterate(out, d, k + 1));
      DistanceSymmetric(Iterate(out, d, k + 1), Iterate(out, d, k));
      StopBoundNonNegative(d, tol);
    } else {
      LaterIteratesStayClose(out, d, k, m - 1, tol);
      StepStaysClose(out, d, Iterate(out, d, k), Iterate(out, d, k + m), tol);
    }
  }

  // ---- The code's own form: push rank along the edges, in place ----

  lemma {:induction false} DanglingScaled(out: seq<seq<nat>>, d: real, r: seq<real>, k: nat)
    requires k <= |out| == |r|
    ensures Dangling(out, Scale(d, r), k) == d * Dangling(out, r, k)
  {
    if k > 0 {
      DanglingScaled(out, d, r, k - 1);
    }
  }

  // ---- One step, entry by entry ----

  lemma CountWithLast(init: seq<nat>, last: nat, j: nat)
    ensures multiset(init + [last])[j] == multiset(init)[j] + (if last == j then 1 else 0)
  {
  }

  function Times(m: nat, w: real): real {
    m as real * w
  }

  lemma TimesMore(m: nat, w: real)
    ensures Times(m + 1, w) == Times(m, w) + w && Times(0, w) == 0.0
  {
  }

  lemma {:induction false} ReceivedTimes(callees: seq<nat>, j: nat, w: real)
    ensures Received(callees, j, w) == Times(multiset(callees)[j], w)
  {
    hide Times;
    if callees == [] {
      TimesMore(0, w);
    } else {
      var init: seq<nat>, last: nat := callees[..|callees| - 1], callees[|callees| - 1];
      assert callees == init + [last];
      ReceivedTimes(init, j, w);
      CountWithLast(init, last, j);
      TimesMore(multiset(init)[j], w);
    }
  }

  /** A node receives its share once per call. */
  lemma ReceivedPerCall(callees: seq<nat>, j: nat, w: real)
    ensures Received(callees, j, w) == multiset(callees)[j] as real * w
  {
    hide Received;
    ReceivedTimes(callees, j, w);
  }

  /** What node `j` gets of the rank `x` of a node, in proportion to the node's calls to it. */
  function Portion(callees: seq<nat>, j: nat, x: real): real {
    if callees == [] then 0.0 else multiset(callees)[j] as real * x / |callees| as real
  }

  /** What it gets of each node's rank. */
  function Portions(out: seq<seq<nat>>, rank: seq<real>, j: nat): (s: seq<real>)
    requires |out| == |rank|
    ensures |s| == |rank|
  {
    seq(|rank|, i requires 0 <= i < |rank| => Portion(out[i], j, rank[i]))
  }

  /** The rank of each node that calls nobody. */
  function Idle(out: seq<seq<nat>>, rank: seq<real>): (s: seq<real>)
    requires |out| == |rank|
    ensures |s| == |rank|
  {
    seq(|rank|, i requires 0 <= i < |rank| => if out[i] == [] then rank[i] else 0.0)
  }

  function Mul(d: real, x: real): real {
    d * x
  }

  lemma Distributes(d: real, a: real, b: real)
    ensures Mul(d, a + b) == Mul(d, a) + Mul(d, b) && Mul(d, 0.0) == 0.0
  {
  }

  /** What each call carries. */
  function Each(callees: seq<nat>, d: real, x: real): real {
    if callees == [] then 0.0 else d * x / |callees| as real
  }

  lemma ShareOf(out: seq<seq<nat>>, d: real, rank: seq<real>, j: nat, i: nat)
    requires i < |out| == |rank|
    ensures Shares(out, Scale(d, rank))[i] == Each(out[i], d, rank[i])
    ensures Portions(out, rank, j)[i] == Portion(out[i], j, rank[i])
  {
    hide Portion;
  }

  lemma TimesQuotient(m: real, d: real, x: real, n: real)
    requires n > 0.0
    ensures m * (d * x / n) == d * (m * x / n)
  {
    var q := x / n;
    assert d * x / n == d * q && m * x / n == m * q;
    assert m * (d * q) == d * (m * q);
  }

  lemma ReceivedEach(callees: seq<nat>, d: real, x: real, j: nat)
    ensures Received(callees, j, Each(callees, d, x)) == Mul(d, Portion(callees, j, x))
  {
    hide Received;
    ReceivedPerCall(callees, j, Each(callees, d, x));
    if callees != [] {
      TimesQuotient(multiset(callees)[j] as real, d, x, |callees| as real);
    }
  }

  lemma {:induction false} InflowIsPortions(out: seq<seq<nat>>, d: real, rank: seq<real>, j: nat, k: nat)
    requires k <= |out| == |rank|
    ensures Inflow(out, Shares(out, Scale(d, rank)), j, k) == Mul(d, Sum(Portions(out, rank, j)[..k]))
  {
    hide Received, Shares, Scale, Portions, Portion, Each, Mul;
    var parts := Portions(out, rank, j);
    if k == 0 {
      Distributes(d, 0.0, 0.0);
    } else {
      InflowIsPortions(out, d, rank, j, k - 1);
      ShareOf(out, d, rank, j, k - 1);
      ReceivedEach(out[k - 1], d, rank[k - 1], j);
      assert parts[..k][..k - 1] == parts[..k - 1];
      Distributes(d, Sum(parts[..k - 1]), parts[k - 1]);
    }
  }

  lemma {:induction false} DanglingIsIdle(out: seq<seq<nat>>, rank: seq<real>, k: nat)
    requires k <= |out| == |rank|
    ensures Dangling(out, rank, k) == Sum(Idle(out, rank)[..k])
  {
    if k > 0 {
      DanglingIsIdle(out, rank, k - 1);
      assert Idle(out, rank)[..k][..k - 1] == Idle(out, rank)[..k - 1];
    }
  }

  /**
   * After a step a node has its share of what is teleported and of the rank of idle nodes, and from
   * every node that calls it a portion of its rank, in proportion to the calls.
   */
  ghost predicate EntryIs(out: seq<seq<nat>>, d: real, rank: seq<real>, j: nat, x: real)
    requires |out| == |rank| > 0
  {
    x == (1.0 - d) / |out| as real + d * Sum(Idle(out, rank)) / |out| as real + d * Sum(Portions(out, rank, j))
  }

  lemma StepEntry(out: seq<seq<nat>>, d: real, rank: seq<real>, j: nat)
    requires j < |out| == |rank|
    ensures EntryIs(out, d, rank, j, Step(out, d, rank)[j])
  {
    StepAt(out, d, rank, j);
    TeleportEntry(out, d, rank);
    InflowEntry(out, d, rank, j);
    EntryFrom(out, d, rank, j);
  }

  lemma EntryFrom(out: seq<seq<nat>>, d: real, rank: seq<real>, j: nat)
    requires |out| == |rank| > 0
    ensures EntryIs(out, d, rank, j,
                    (1.0 - d) / |out| as real + Mul(d, Sum(Idle(out, rank))) / |out| as real
                    + Mul(d, Sum(Portions(out, rank, j))))
  {
    hide Sum, Idle, Portions;
  }

  lemma DanglingMul(out: seq<seq<nat>>, d: real, r: seq<real>)
    requires |out| == |r|
    ensures Dangling(out, Scale(d, r), |out|) == Mul(d, Dangling(out, r, |out|))
  {
    hide Dangling, Scale;
    DanglingScaled(out, d, r, |out|);
  }

  lemma TeleportEntry(out: seq<seq<nat>>, d: real, rank: seq<real>)
    requires |out| == |rank| > 0
    ensures Teleport(out, 1.0 - d, Scale(d, rank))
            == (1.0 - d) / |out| as real + Mul(d, Sum(Idle(out, rank))) / |out| as real
  {
    hide Sum, Idle, Scale, Dangling, Teleport, Mul;
    DanglingIsIdle(out, rank, |out|);
    assert Idle(out, rank)[..|out|] == Idle(out, rank);
    DanglingMul(out, d, rank);
    BaseIsTeleport(out, 1.0 - d, Scale(d, rank), Mul(d, Sum(Idle(out, rank))));
  }

  lemma InflowEntry(out: seq<seq<nat>>, d: real, rank: seq<real>, j: nat)
    requires j < |out| == |rank|
    ensures Inflow(out, Shares(out, Scale(d, rank)), j, |out|) == Mul(d, Sum(Portions(out, rank, j)))
  {
    hide *;
    InflowIsPortions(out, d, rank, j, |out|);
    assert Portions(out, rank, j)[..|out|] == Portions(out, rank, j);
  }

  lemma StepAt(out: seq<seq<nat>>, d: real, rank: seq<real>, j: nat)
    requires j < |out| == |rank|
    ensures Step(out, d, rank)[j]
            == Teleport(out, 1.0 - d, Scale(d, rank)) + Inflow(out, Shares(out, Scale(d, rank)), j, |out|)
  {
    hide Inflow, Shares, Scale, Teleport;
  }

  lemma QuotientPlus(a: real, b: real, n: nat)
    requires n > 0
    ensures a / n as real + b / n as real == (a + b) / n as real
  {
  }

  lemma BaseIsTeleport(out: seq<seq<nat>>, c: real, y: seq<real>, dangling: real)
    requires |out| == |y| > 0 && dangling == Dangling(out, y, |out|)
    ensures c / |out| as real + dangling / |out| as real == Teleport(out, c, y)
  {
    QuotientPlus(c, dangling, |out|);
  }

  method DanglingMass(out: seq<seq<nat>>, rank: seq<real>) returns (mass: real)
    requires |out| == |rank|
    ensures mass == Dangling(out, rank, |out|)
  {
    mass := 0.0;
    for i := 0 to |out|
      invariant mass == Dangling(out, rank, i)
    {
      if out[i] == [] {
        mass := mass + rank[i];
      }
    }
  }

  /** Add `contrib` to every callee's slot, once per occurrence. */
  method PushToCallees(callees: seq<nat>, contrib: real, slots: array<real>)
    requires forall e :: 0 <= e < |callees| ==> callees[e] < slots.Length
    modifies slots
    ensures forall j :: 0 <= j < slots.Length ==> slots[j] == old(slots[j]) + Received(callees, j, contrib)
  {
    for e := 0 to |callees|
      invariant forall j :: 0 <= j < slots.Length ==> slots[j] == old(slots[j]) + Received(callees[..e], j, contrib)
    {
      assert callees[..e + 1][..e] == callees[..e];
      slots[callees[e]] := slots[callees[e]] + contrib;
    }
    assert callees[..|callees|] == callees;
  }

  lemma StepEntries(out: seq<seq<nat>>, d: real, rank: seq<real>)
    requires |out| == |rank| > 0
    ensures forall j :: 0 <= j < |out| ==> EntryIs(out, d, rank, j, Step(out, d, rank)[j])
  {
    hide Step, EntryIs;
    forall j | 0 <= j < |out|
      ensures EntryIs(out, d, rank, j, Step(out, d, rank)[j])
    {
      StepEntry(out, d, rank, j);
    }
  }

  /** Every node that calls anybody hands on its rank, damped, in equal parts. */
  method PushAll(out: seq<seq<nat>>, damping: real, rank: seq<real>, slots: array<real>)
    requires ValidGraph(out) && |out| == |rank| == slots.Length
    modifies slots
    ensures forall j :: 0 <= j < slots.Length ==>
              slots[j] == old(slots[j]) + Inflow(out, Shares(out, Scale(damping, rank)), j, |out|)
  {
    hide Shares, Scale, Received, Each, Portions, Portion;
    ghost var w := Shares(out, Scale(damping, rank));
    for i := 0 to |out|
      invariant forall j :: 0 <= j < slots.Length ==> slots[j] == old(slots[j]) + Inflow(out, w, j, i)
    {
      ShareOf(out, damping, rank, 0, i);
      if out[i] != [] {
        var contrib := damping * rank[i] / |out[i]| as real;
        EachIs(out[i], damping, rank[i]);
        assert contrib == w[i];
        PushToCallees(out[i], contrib, slots);
      } else {
        NothingReceived(out[i], w[i]);
      }
    }
  }

  lemma EachIs(callees: seq<nat>, d: real, x: real)
    requires callees != []
    ensures Each(callees, d, x) == d * x / |callees| as real
  {
  }

  lemma NothingReceived(callees: seq<nat>, w: real)
    requires callees == []
    ensures forall j: nat :: Received(callees, j, w) == 0.0
  {
  }

  method PushStep(out: seq<seq<nat>>, damping: real, rank: seq<real>) returns (next: seq<real>)
    requires ValidGraph(out) && |out| == |rank| > 0
    ensures next == Step(out, damping, rank)
    ensures forall j :: 0 <= j < |out| ==> EntryIs(out, damping, rank, j, next[j])
  {
    hide EntryIs, Inflow, Shares, Scale, Dangling, Teleport;
    var n := |out|;
    var dangling := DanglingMass(out, rank);
    var base := (1.0 - damping) / n as real + damping * dangling / n as real;
    DanglingScaled(out, damping, rank, n);
    BaseIsTeleport(out, 1.0 - damping, Scale(damping, rank), damping * dangling);
    var slots := new real[n](_ => base);
    PushAll(out, damping, rank, slots);
    next := slots[..];
    StepEntries(out, damping, rank);
  }

  method L1(s: seq<real>, t: seq<real>) returns (delta: real)
    requires |s| == |t|
    ensures delta == Distance(s, t)
  {
    delta := 0.0;
    var gaps := AbsAll(Minus(s, t));
    for i := 0 to |s|
      invariant delta == Sum(gaps[..i])
    {
      assert gaps[..i + 1][..i] == gaps[..i];
      delta := delta + Abs(s[i] - t[i]);
    }
    assert gaps[..|s|] == gaps;
  }

  lemma {:induction false} IterateHasUnitMass(out: seq<seq<nat>>, d: real, k: nat)
    requires ValidGraph(out) && |out| > 0
    ensures Sum(Iterate(out, d, k)) == 1.0
  {
    if k == 0 {
      SumFillQuotient(|out|, 1.0);
    } else {
      IterateHasUnitMass(out, d, k - 1);
      StepMass(out, d, Iterate(out, d, k - 1));
    }
  }

  function Normalised(r: seq<real>, total: real): (s: seq<real>)
    requires total > 0.0
    ensures |s| == |r|
  {
    seq(|r|, i requires 0 <= i < |r| => r[i] / total)
  }

  lemma NormalisedUnit(r: seq<real>, total: real)
    requires total == 1.0
    ensures Normalised(r, total) == r
  {
  }

  method SumOf(s: seq<real>) returns (total: real)
    ensures total == Sum(s)
  {
    total := 0.0;
    for i := 0 to |s|
      invariant total == Sum(s[..i])
    {
      assert s[..i + 1][..i] == s[..i];
      total := total + s[i];
    }
    assert s[..|s|] == s;
  }

  function Deltas(out: seq<seq<nat>>, d: real, m: nat): (deltas: seq<real>)
    requires |out| > 0
    ensures |deltas| == m
  {
    if m == 0 then [] else Deltas(out, d, m - 1) + [Delta(out, d, m - 1)]
  }

  /** Stop after the first delta below `tol`, or when the permitted passes are used up. */
  ghost predicate StopRule(deltas: seq<real>, maxIter: nat, tol: real) {
    && |deltas| <= maxIter
    && (|deltas| < maxIter ==> deltas != [] && deltas[|deltas| - 1] < tol)
    && forall k :: 0 <= k < |deltas| - 1 ==> deltas[k] >= tol
  }

  /** One pass of the loop body: the next iterate and how far it moved. */
  method Advance(out: seq<seq<nat>>, damping: real, rank: seq<real>, ghost k: nat)
    returns (next: seq<real>, delta: real)
    requires ValidGraph(out) && |out| > 0 && rank == Iterate(out, damping, k)
    ensures next == Iterate(out, damping, k + 1) && delta == Delta(out, damping, k)
  {
    next := PushStep(out, damping, rank);
    delta := L1(next, rank);
  }

  lemma FirstIterate(out: seq<seq<nat>>, d: real)
    requires |out| > 0
    ensures Iterate(out, d, 0) == Uniform(|out|) && Deltas(out, d, 0) == []
  {
  }

  lemma OneMoreDelta(out: seq<seq<nat>>, d: real, m: nat)
    requires |out| > 0
    ensures Deltas(out, d, m + 1) == Deltas(out, d, m) + [Delta(out, d, m)]
  {
  }

  method PowerIteration(out: seq<seq<nat>>, damping: real, maxIter: nat, tol: real)
    returns (rank: seq<real>, steps: nat)
    requires ValidGraph(out) && |out| > 0
    ensures rank == Iterate(out, damping, steps) && StopRule(Deltas(out, damping, steps), maxIter, tol)
  {
    hide Iterate, Delta, Deltas, Uniform, ValidGraph;
    rank := Uniform(|out|);
    steps := 0;
    FirstIterate(out, damping);
    ghost var deltas: seq<real> := [];
    for iter := 0 to maxIter
      invariant steps == iter && rank == Iterate(out, damping, steps) && deltas == Deltas(out, damping, steps)
      invariant forall k :: 0 <= k < |deltas| ==> deltas[k] >= tol
    {
      var delta;
      rank, delta := Advance(out, damping, rank, steps);
      OneMoreDelta(out, damping, steps);
      deltas := deltas + [delta];
      steps := steps + 1;
      if delta < tol {
        assert StopRule(deltas, maxIter, tol);
        break;
      }
    }
    assert StopRule(deltas, maxIter, tol);
  }

  /** The scores are the iterate at which the loop stopped; the closing normalisation changes nothing. */
  method ComputeImportance(out: seq<seq<nat>>, damping: real, maxIter: nat, tol: real)
    returns (rank: seq<real>, steps: nat)
    requires ValidGraph(out)
    ensures out == [] ==> rank == []
    ensures out != [] ==> rank == Iterate(out, damping, steps) && StopRule(Deltas(out, damping, steps), maxIter, tol)
    ensures out != [] ==> Sum(rank) == 1.0
  {
    if out == [] {
      return [], 0;
    }
    rank, steps := PowerIteration(out, damping, maxIter, tol);
    var total := SumOf(rank);
    IterateHasUnitMass(out, damping, steps);
    if total > 0.0 {
      NormalisedUnit(rank, total);
      rank := Normalised(rank, total);
    }
  }

  // ---- From stored callee lists to indices ----

  function Occurrences(callees: seq<nat>, id: nat): nat {
    if callees == [] then 0
    else Occurrences(callees[..|callees| - 1], id) + (if callees[|callees| - 1] == id then 1 else 0)
  }

  lemma {:induction false} OccurrencesCounted(callees: seq<nat>, id: nat)
    ensures Occurrences(callees, id) == multiset(callees)[id]
  {
    if callees != [] {
      var init: seq<nat>, last: nat := callees[..|callees| - 1], callees[|callees| - 1];
      assert callees == init + [last];
      OccurrencesCounted(init, id);
      CountWithLast(init, last, id);
    }
  }

  ghost predicate Distinct(ids: seq<nat>) {
    forall i, j :: 0 <= i < j < |ids| ==> ids[i] != ids[j]
  }

  /** Callee ids of one row as indices, dropping the row's own id and ids of no row. */
  method IndexCallees(ids: seq<nat>, idx: map<nat, nat>, own: nat, callees: seq<nat>) returns (edges: seq<nat>)
    requires Distinct(ids)
    requires forall id :: id in idx <==> id in ids
    requires forall i :: 0 <= i < |ids| ==> ids[i] in idx && idx[ids[i]] == i
    ensures forall e :: 0 <= e < |edges| ==> edges[e] < |ids|
    ensures forall j :: 0 <= j < |ids| ==>
              Occurrences(edges, j) == if ids[j] == own then 0 else Occurrences(callees, ids[j])
  {
    edges := [];
    for k := 0 to |callees|
      invariant forall e :: 0 <= e < |edges| ==> edges[e] < |ids|
      invariant forall j :: 0 <= j < |ids| ==>
                  Occurrences(edges, j) == if ids[j] == own then 0 else Occurrences(callees[..k], ids[j])
    {
      var c := callees[k];
      assert callees[..k + 1][..k] == callees[..k];
      if c != own && c in idx {
        var i :| 0 <= i < |ids| && ids[i] == c;
        assert idx[c] == i;
        assert (edges + [idx[c]])[..|edges|] == edges;
        edges := edges + [idx[c]];
      }
    }
    assert callees[..|callees|] == callees;
  }

  /** One list of callee indices per id: self calls and unknown callees gone, repetitions kept. */
  method BuildOutEdges(ids: seq<nat>, callees: map<nat, seq<nat>>) returns (out: seq<seq<nat>>)
    requires Distinct(ids) && forall id :: id in ids ==> id in callees
    ensures ValidGraph(out) && |out| == |ids|
    ensures forall i, j :: 0 <= i < |ids| && 0 <= j < |ids| ==>
              multiset(out[i])[j] == if i == j then 0 else multiset(callees[ids[i]])[ids[j]]
  {
    hide Occurrences;
    var idx: map<nat, nat> := map[];
    for i := 0 to |ids|
      invariant forall id :: id in idx <==> id in ids[..i]
      invariant forall k :: 0 <= k < i ==> ids[k] in idx && idx[ids[k]] == k
    {
      idx := idx[ids[i] := i];
    }
    assert ids[..|ids|] == ids;
    out := [];
    for i := 0 to |ids|
      invariant |out| == i
      invariant forall k, e :: 0 <= k < i && 0 <= e < |out[k]| ==> out[k][e] < |ids|
      invariant forall k, j :: 0 <= k < i && 0 <= j < |ids| ==>
                  Occurrences(out[k], j) == if k == j then 0 else Occurrences(callees[ids[k]], ids[j])
    {
      var edges := IndexCallees(ids, idx, ids[i], callees[ids[i]]);
      out := out + [edges];
    }
    forall i, j | 0 <= i < |ids| && 0 <= j < |ids|
      ensures multiset(out[i])[j] == if i == j then 0 else multiset(callees[ids[i]])[ids[j]]
    {
      OccurrencesCounted(out[i], j);
      OccurrencesCounted(callees[ids[i]], ids[j]);
    }
  }
}
