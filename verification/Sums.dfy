/** Finite sums of reals, as the importance scorer needs them. */
module Sums {

  function Abs(x: real): (a: real)
    ensures a >= 0.0 && a >= x && a >= -x
  {
    if x < 0.0 then -x else x
  }

  lemma AbsIsEither(x: real)
    ensures Abs(x) == x || Abs(x) == -x
  {
  }

  function Sum(s: seq<real>): real {
    if s == [] then 0.0 else Sum(s[..|s| - 1]) + s[|s| - 1]
  }

  function Scale(c: real, s: seq<real>): (r: seq<real>)
    ensures |r| == |s|
  {
    seq(|s|, i requires 0 <= i < |s| => c * s[i])
  }

  function Add(s: seq<real>, t: seq<real>): (r: seq<real>)
    requires |s| == |t|
    ensures |r| == |s|
  {
    seq(|s|, i requires 0 <= i < |s| => s[i] + t[i])
  }

  function Minus(s: seq<real>, t: seq<real>): (r: seq<real>)
    requires |s| == |t|
    ensures |r| == |s|
  {
    seq(|s|, i requires 0 <= i < |s| => s[i] - t[i])
  }

  function AbsAll(s: seq<real>): (r: seq<real>)
    ensures |r| == |s|
  {
    seq(|s|, i requires 0 <= i < |s| => Abs(s[i]))
  }

  /** The L1 distance that the iteration's stopping rule measures. */
  function Distance(s: seq<real>, t: seq<real>): real
    requires |s| == |t|
  {
    Sum(AbsAll(Minus(s, t)))
  }

  function Fill(n: nat, x: real): (r: seq<real>)
    ensures |r| == n
  {
    seq(n, _ => x)
  }

  lemma {:induction false} SumAdd(s: seq<real>, t: seq<real>)
    requires |s| == |t|
    ensures Sum(Add(s, t)) == Sum(s) + Sum(t)
  {
    if s != [] {
      var m := |s| - 1;
      assert Add(s, t)[..m] == Add(s[..m], t[..m]);
      SumAdd(s[..m], t[..m]);
    }
  }

  lemma {:induction false} SumScale(c: real, s: seq<real>)
    ensures Sum(Scale(c, s)) == c * Sum(s)
  {
    if s != [] {
      var m := |s| - 1;
      SumScale(c, s[..m]);
      assert Scale(c, s)[..m] == Scale(c, s[..m]) by {
        forall i | 0 <= i < m
          ensures Scale(c, s)[i] == Scale(c, s[..m])[i]
        {
          assert s[i] == s[..m][i];
        }
      }
    }
  }

  lemma {:induction false} SumFill(n: nat, x: real)
    ensures Sum(Fill(n, x)) == n as real * x
  {
    if n > 0 {
      assert Fill(n, x)[..n - 1] == Fill(n - 1, x);
      SumFill(n - 1, x);
    }
  }

  lemma {:induction false} SumMonotone(s: seq<real>, t: seq<real>)
    requires |s| == |t| && forall i :: 0 <= i < |s| ==> s[i] <= t[i]
    ensures Sum(s) <= Sum(t)
  {
    if s != [] {
      SumMonotone(s[..|s| - 1], t[..|s| - 1]);
    }
  }

  lemma SumNonNegative(s: seq<real>)
    requires forall i :: 0 <= i < |s| ==> s[i] >= 0.0
    ensures Sum(s) >= 0.0
  {
    SumFill(|s|, 0.0);
    SumMonotone(Fill(|s|, 0.0), s);
  }

  lemma {:induction false} ZeroSumMeansZeros(s: seq<real>)
    requires (forall i :: 0 <= i < |s| ==> s[i] >= 0.0) && Sum(s) == 0.0
    ensures forall i :: 0 <= i < |s| ==> s[i] == 0.0
  {
    if s != [] {
      var init := s[..|s| - 1];
      SumNonNegative(init);
      ZeroSumMeansZeros(init);
      assert forall i :: 0 <= i < |init| ==> init[i] == s[i];
    }
  }

  lemma DistanceTriangle(r: seq<real>, s: seq<real>, t: seq<real>)
    requires |r| == |s| == |t|
    ensures Distance(r, t) <= Distance(r, s) + Distance(s, t)
  {
    SumAdd(AbsAll(Minus(r, s)), AbsAll(Minus(s, t)));
    SumMonotone(AbsAll(Minus(r, t)), Add(AbsAll(Minus(r, s)), AbsAll(Minus(s, t))));
  }

  lemma DistanceSymmetric(s: seq<real>, t: seq<real>)
    requires |s| == |t|
    ensures Distance(s, t) == Distance(t, s) >= 0.0
  {
    assert AbsAll(Minus(s, t)) == AbsAll(Minus(t, s));
    SumNonNegative(AbsAll(Minus(s, t)));
  }

  lemma DistanceToSelf(s: seq<real>)
    ensures Distance(s, s) == 0.0
  {
    assert AbsAll(Minus(s, s)) == Fill(|s|, 0.0);
    SumFill(|s|, 0.0);
  }

  lemma ScaledGaps(c: real, s: seq<real>, t: seq<real>)
    requires |s| == |t| && c >= 0.0
    ensures AbsAll(Minus(Scale(c, s), Scale(c, t))) == Scale(c, AbsAll(Minus(s, t)))
  {
    forall i | 0 <= i < |s|
      ensures AbsAll(Minus(Scale(c, s), Scale(c, t)))[i] == Scale(c, AbsAll(Minus(s, t)))[i]
    {
      AbsScale(c, s[i], t[i]);
    }
  }

  lemma ScaledDistance(c: real, s: seq<real>, t: seq<real>)
    requires |s| == |t| && c >= 0.0
    ensures Distance(Scale(c, s), Scale(c, t)) == c * Distance(s, t)
  {
    hide Abs, AbsAll, Minus, Scale, Sum;
    ScaledGaps(c, s, t);
    SumScale(c, AbsAll(Minus(s, t)));
  }

  lemma AbsScale(c: real, x: real, y: real)
    requires c >= 0.0
    ensures Abs(c * x - c * y) == c * Abs(x - y)
  {
    if x >= y {
      assert c * (x - y) >= 0.0;
    } else {
      assert c * (y - x) >= 0.0;
    }
  }

  lemma DistanceBySums(s: seq<real>, t: seq<real>)
    requires |s| == |t|
    requires forall i :: 0 <= i < |s| ==> s[i] >= 0.0 && t[i] >= 0.0
    ensures Distance(s, t) <= Sum(s) + Sum(t)
  {
    SumAdd(s, t);
    SumMonotone(AbsAll(Minus(s, t)), Add(s, t));
  }
}
