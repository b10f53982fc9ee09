/** Shared vocabulary of the pipeline: numeric series in which any position may be
    missing (a NaN in pandas), sums, means, the sample variance (ddof = 1),
    an abstract square root and forward filling. */
module Series {

  datatype Option<+T> = None | Some(value: T)

  /** One column of one ticker, in date order; None is a missing (NaN) observation. */
  type Series = seq<Option<real>>

  predicate AllPresent<T>(s: seq<Option<T>>)
  {
    forall i :: 0 <= i < |s| ==> s[i].Some?
  }

  /** The values of a series that has no missing position. */
  function Values(s: Series): (r: seq<real>)
    requires AllPresent(s)
    ensures |r| == |s|
    ensures forall i :: 0 <= i < |s| ==> s[i] == Some(r[i])
  {
    seq(|s|, i requires 0 <= i < |s| => s[i].value)
  }

  /** A series of n missing values, as pandas creates for a new column. */
  function Missing<T>(n: nat): (r: seq<Option<T>>)
    ensures |r| == n
    ensures forall i :: 0 <= i < n ==> r[i].None?
  {
    seq(n, i => None)
  }

  function Abs(x: real): real
  {
    if x < 0.0 then -x else x
  }

  function Sum(s: seq<real>): real
  {
    if s == [] then 0.0 else Sum(s[..|s| - 1]) + s[|s| - 1]
  }

  function Mean(s: seq<real>): real
    requires |s| > 0
  {
    Sum(s) / (|s| as real)
  }

  /** Sum of the squared deviations of s from m. */
  function SumSqDev(s: seq<real>, m: real): (r: real)
    ensures r >= 0.0
  {
    if s == [] then 0.0
    else
      var d := s[|s| - 1] - m;
      SquareNonNegative(d);
      SumSqDev(s[..|s| - 1], m) + d * d
  }

  lemma SquareNonNegative(d: real)
    ensures d * d >= 0.0
  {
    if d < 0.0 {
      assert d * d == (-d) * (-d);
    }
  }

  /** The sample variance (delta degrees of freedom 1) that pandas' std() squares;
      undefined for fewer than two values. */
  function SampleVariance(s: seq<real>): (r: Option<real>)
    ensures r.Some? <==> |s| >= 2
    ensures r.Some? ==> r.value >= 0.0
  {
    if |s| < 2 then None else Some(SumSqDev(s, Mean(s)) / ((|s| - 1) as real))
  }

  /** What the model assumes of the square root it is given (numpy's sqrt on reals):
      the root of 0 is 0 and a positive number has a positive root whose square is it. */
  ghost predicate IsSqrt(sqrt: real -> real)
  {
    && sqrt(0.0) == 0.0
    && forall v :: 0.0 < v ==> 0.0 < sqrt(v) && sqrt(v) * sqrt(v) == v
  }

  // ---------------------------------------------------------------------------
  // Real arithmetic the solver needs spelled out

  lemma MulNonNegative(a: real, b: real)
    requires a >= 0.0 && b >= 0.0
    ensures a * b >= 0.0
  {
  }

  lemma MulMono(c: real, x: real, y: real)
    requires c >= 0.0 && x <= y
    ensures c * x <= c * y
  {
    MulNonNegative(c, y - x);
    assert c * (y - x) == c * y - c * x;
  }

  lemma Distribute(o: real, a: real, m: real)
    ensures (o + a) * m == o * m + a * m
  {
  }

  lemma DivLower(n: real, s: real, lo: real)
    requires s > 0.0 && n >= s * lo
    ensures n / s >= lo
  {
  }

  lemma DivUpper(n: real, s: real, hi: real)
    requires s > 0.0 && n <= s * hi
    ensures n / s <= hi
  {
  }

  // ---------------------------------------------------------------------------
  // Sums

  lemma {:induction false} SumFront(s: seq<real>)
    requires |s| > 0
    ensures Sum(s) == s[0] + Sum(s[1..])
  {
    if |s| > 1 {
      SumFront(s[..|s| - 1]);
      assert s[..|s| - 1][1..] == s[1..][..|s[1..]| - 1];
    }
  }

  lemma {:induction false} SumBounds(s: seq<real>, lo: real, hi: real)
    requires forall i :: 0 <= i < |s| ==> lo <= s[i] <= hi
    ensures (|s| as real) * lo <= Sum(s) <= (|s| as real) * hi
  {
    if s != [] {
      SumBounds(s[..|s| - 1], lo, hi);
    }
  }

  lemma {:induction false} SumNonNegative(s: seq<real>)
    requires forall i :: 0 <= i < |s| ==> s[i] >= 0.0
    ensures Sum(s) >= 0.0
  {
    if s != [] {
      SumNonNegative(s[..|s| - 1]);
    }
  }

  /** A sum of non-negative values with one positive value is positive. */
  lemma {:induction false} SumPositive(s: seq<real>, j: nat)
    requires j < |s| && s[j] > 0.0
    requires forall i :: 0 <= i < |s| ==> s[i] >= 0.0
    ensures Sum(s) > 0.0
  {
    if j == |s| - 1 {
      SumNonNegative(s[..|s| - 1]);
    } else {
      SumPositive(s[..|s| - 1], j);
    }
  }

  lemma MeanSign(s: seq<real>)
    requires |s| > 0
    requires forall i :: 0 <= i < |s| ==> s[i] >= 0.0
    ensures Mean(s) >= 0.0
    ensures (exists j :: 0 <= j < |s| && s[j] > 0.0) ==> Mean(s) > 0.0
    ensures (forall i :: 0 <= i < |s| ==> s[i] == 0.0) ==> Mean(s) == 0.0
  {
    SumNonNegative(s);
    if exists j :: 0 <= j < |s| && s[j] > 0.0 {
      var j :| 0 <= j < |s| && s[j] > 0.0;
      SumPositive(s, j);
    }
    if forall i :: 0 <= i < |s| ==> s[i] == 0.0 {
      MeanBounds(s, 0.0, 0.0);
    }
  }

  lemma MeanBounds(s: seq<real>, lo: real, hi: real)
    requires |s| > 0
    requires forall i :: 0 <= i < |s| ==> lo <= s[i] <= hi
    ensures lo <= Mean(s) <= hi
  {
    SumBounds(s, lo, hi);
    var n := |s| as real;
    assert Sum(s) / n >= n * lo / n;
    assert Sum(s) / n <= n * hi / n;
  }

  lemma {:induction false} SumSqDevOfConstant(s: seq<real>, c: real)
    requires forall i :: 0 <= i < |s| ==> s[i] == c
    ensures SumSqDev(s, c) == 0.0
  {
    if s != [] {
      SumSqDevOfConstant(s[..|s| - 1], c);
    }
  }

  /** A constant sample has mean c and, with at least two values, variance 0. */
  lemma VarianceOfConstant(s: seq<real>, c: real)
    requires |s| > 0
    requires forall i :: 0 <= i < |s| ==> s[i] == c
    ensures Mean(s) == c
    ensures |s| >= 2 ==> SampleVariance(s) == Some(0.0)
  {
    MeanBounds(s, c, c);
    SumSqDevOfConstant(s, c);
  }

  // ---------------------------------------------------------------------------
  // Forward fill (pandas ffill): a missing position takes the value of the
  // nearest earlier present position; leading missing positions stay missing.

  function FFill<T>(s: seq<Option<T>>): (r: seq<Option<T>>)
    ensures |r| == |s|
    ensures forall i :: 0 <= i < |s| && s[i].Some? ==> r[i] == s[i]
    ensures forall i :: 0 < i < |s| && s[i].None? ==> r[i] == r[i - 1]
    ensures |s| > 0 && s[0].None? ==> r[0].None?
  {
    if s == [] then []
    else
      var p := FFill(s[..|s| - 1]);
      p + [if s[|s| - 1].Some? || |p| == 0 then s[|s| - 1] else p[|p| - 1]]
  }

  /** An observation j that is followed only by missing positions up to i is what
      position i is filled with. */
  lemma {:induction false} FFillNearest<T>(s: seq<Option<T>>, j: nat, i: nat)
    requires j <= i < |s| && s[j].Some?
    requires forall k :: j < k <= i ==> s[k].None?
    ensures FFill(s)[i] == s[j]
  {
    if i > j {
      FFillNearest(s, j, i - 1);
    }
  }

  /** Positions before the first observation stay missing. */
  lemma {:induction false} FFillLeading<T>(s: seq<Option<T>>, i: nat)
    requires i < |s|
    requires forall k :: 0 <= k <= i ==> s[k].None?
    ensures FFill(s)[i].None?
  {
    if i > 0 {
      FFillLeading(s, i - 1);
    }
  }

  /** Position i is present after filling exactly when some position up to i was. */
  lemma {:induction false} FFillPresent<T>(s: seq<Option<T>>, i: nat)
    requires i < |s|
    ensures FFill(s)[i].Some? <==> exists k :: 0 <= k <= i && s[k].Some?
  {
    if s[i].None? && i > 0 {
      FFillPresent(s, i - 1);
      if FFill(s)[i].Some? {
        var k :| 0 <= k <= i - 1 && s[k].Some?;
        assert 0 <= k <= i;
      }
      if exists k :: 0 <= k <= i && s[k].Some? {
        var k :| 0 <= k <= i && s[k].Some?;
        assert k != i;
      }
    } else if s[i].None? {
      assert i == 0;
      if exists k :: 0 <= k <= i && s[k].Some? {
        var k :| 0 <= k <= i && s[k].Some?;
        assert k == 0;
      }
    }
  }

  lemma {:induction false} FFillIdempotent<T>(s: seq<Option<T>>)
    ensures FFill(FFill(s)) == FFill(s)
  {
    var r := FFill(s);
    var rr := FFill(r);
    forall i | 0 <= i < |s|
      ensures rr[i] == r[i]
    {
      FFillIdempotentAt(s, i);
    }
  }

  lemma {:induction false} FFillIdempotentAt<T>(s: seq<Option<T>>, i: nat)
    requires i < |s|
    ensures FFill(FFill(s))[i] == FFill(s)[i]
  {
    var r := FFill(s);
    if r[i].None? && i > 0 {
      FFillIdempotentAt(s, i - 1);
      assert s[i].None?;
      assert r[i - 1] == r[i];
    }
  }
}
