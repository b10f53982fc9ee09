/** Outlier removal on one ticker's frame: every numeric column is tested value by
    value against its own mean and sample deviation, values whose z-score is not
    within the threshold become missing, and the whole frame is then forward filled.
    The grouped application runs this on each ticker's frame separately. */
module Outliers {
  import opened Series
  import opened Floats

  /** A column of the frame: numeric columns (float64 or int64) are tested, any
      other column is only forward filled. */
  datatype Column =
    | Numeric(name: string, cells: Series)
    | Text(name: string, texts: seq<Option<string>>)

  type Frame = seq<Column>

  // ---------------------------------------------------------------------------
  // Column statistics, skipping missing values as pandas' mean() and std() do

  /** The number of present positions of a series. */
  function CountPresent(s: Series): (n: nat)
    ensures n <= |s|
  {
    if s == [] then 0 else CountPresent(s[..|s| - 1]) + (if s[|s| - 1].Some? then 1 else 0)
  }

  /** The present values of a series, in order: exactly one for each present position. */
  function Observed(s: Series): (r: seq<real>)
    ensures |r| == CountPresent(s)
  {
    if s == [] then []
    else Observed(s[..|s| - 1]) + (if s[|s| - 1].Some? then [s[|s| - 1].value] else [])
  }

  /** The value at a present position i is observed, at the index given by the
      number of present positions before i. */
  lemma {:induction false} ObservedAt(s: Series, i: nat)
    requires i < |s| && s[i].Some?
    ensures CountPresent(s[..i]) < |Observed(s)|
    ensures Observed(s)[CountPresent(s[..i])] == s[i].value
    decreases |s|
  {
    var p := s[..|s| - 1];
    if i == |s| - 1 {
      assert p == s[..i];
    } else {
      ObservedAt(p, i);
      assert p[..i] == s[..i];
    }
  }

  /** Every observed value is the value of some present position. */
  lemma {:induction false} ObservedPresent(s: Series, k: nat)
    requires k < |Observed(s)|
    ensures Some(Observed(s)[k]) in s
    decreases |s|
  {
    var p := s[..|s| - 1];
    if k < |Observed(p)| {
      ObservedPresent(p, k);
      var j :| 0 <= j < |p| && p[j] == Some(Observed(p)[k]);
      assert s[j] == p[j];
    } else {
      assert s[|s| - 1] == Some(Observed(s)[k]);
    }
  }

  /** If every present value is c, every observed value is c. */
  lemma {:induction false} ObservedFrom(s: Series, c: real)
    requires forall i :: 0 <= i < |s| && s[i].Some? ==> s[i].value == c
    ensures forall k :: 0 <= k < |Observed(s)| ==> Observed(s)[k] == c
  {
    if s != [] {
      ObservedFrom(s[..|s| - 1], c);
    }
  }

  lemma {:induction false} ObservedAllPresent(s: Series)
    requires AllPresent(s)
    ensures Observed(s) == Values(s)
  {
    if s != [] {
      ObservedAllPresent(s[..|s| - 1]);
    }
  }

  /** mean(): missing for a column without any value. */
  function ColumnMean(s: Series): (m: Option<real>)
    ensures m.Some? <==> |Observed(s)| > 0
  {
    var o := Observed(s);
    if |o| == 0 then None else Some(Mean(o))
  }

  /** The variance behind std(): missing for fewer than two values (ddof = 1). */
  function ColumnVariance(s: Series): (v: Option<real>)
    ensures v.Some? <==> |Observed(s)| >= 2
    ensures v.Some? ==> v.value >= 0.0
  {
    SampleVariance(Observed(s))
  }

  function ColumnStd(s: Series, sqrt: real -> real): (d: Option<real>)
    ensures d.Some? <==> ColumnVariance(s).Some?
  {
    match ColumnVariance(s)
    case Some(v) => Some(sqrt(v))
    case None => None
  }

  // ---------------------------------------------------------------------------
  // The z-test

  /** (v - mean) / std in floating point: NaN when either statistic is missing, an
      infinity or NaN when std is 0. */
  function ZScore(v: real, mean: Option<real>, std: Option<real>): (z: Float)
  {
    if mean.Some? && std.Some? then Div(Sub(Finite(v), Finite(mean.value)), Finite(std.value))
    else NaN
  }

  /** A value of a column without a mean or a deviation has a NaN z-score and is
      never kept. */
  lemma ZScoreMissing(v: real, mean: Option<real>, std: Option<real>, t: real)
    requires mean.None? || std.None?
    ensures ZScore(v, mean, std) == NaN && !Keep(v, mean, std, t)
  {
  }

  /** With a non-zero deviation the z-score is the real quotient (v - mean) / std. */
  lemma ZScoreFinite(v: real, m: real, s: real)
    requires s != 0.0
    ensures ZScore(v, Some(m), Some(s)) == Finite((v - m) / s)
  {
    assert Sub(Finite(v), Finite(m)) == Finite(v - m);
  }

  /** With a zero deviation the z-score is NaN at the mean and an infinity of the
      sign of v - mean elsewhere. */
  lemma ZScoreZeroSpread(v: real, m: real)
    ensures ZScore(v, Some(m), Some(0.0)) ==
            if v > m then PosInf else if v < m then NegInf else NaN
  {
    assert Sub(Finite(v), Finite(m)) == Finite(v - m);
  }

  /** np.abs(z) <= threshold, which is false for a NaN z. */
  predicate Keep(v: real, mean: Option<real>, std: Option<real>, t: real)
  {
    AtMost(FAbs(ZScore(v, mean, std)), Finite(t))
  }

  lemma DivAtMost(a: real, s: real, t: real)
    requires s > 0.0
    ensures a / s <= t <==> a <= t * s
  {
    if a / s <= t {
      MulMono(s, a / s, t);
      assert s * (a / s) == a;
    }
    if a <= t * s {
      DivUpper(a, s, t);
    }
  }

  lemma AbsDiv(a: real, s: real)
    requires s > 0.0
    ensures Abs(a / s) == Abs(a) / s
  {
    if a < 0.0 {
      assert a / s < 0.0;
      assert -(a / s) == (-a) / s;
    } else {
      assert a / s >= 0.0;
    }
  }

  /** With a positive deviation a value is kept exactly when it lies within
      threshold deviations of the mean; a zero deviation keeps nothing, since every
      z-score is then infinite or NaN. */
  lemma KeepIff(v: real, m: real, s: real, t: real)
    requires s >= 0.0
    ensures Keep(v, Some(m), Some(s), t) <==> s > 0.0 && Abs(v - m) <= t * s
  {
    var d := v - m;
    assert Sub(Finite(v), Finite(m)) == Finite(d);
    if s > 0.0 {
      assert ZScore(v, Some(m), Some(s)) == Finite(d / s);
      AbsDiv(d, s);
      DivAtMost(Abs(d), s, t);
    } else if d > 0.0 {
      assert ZScore(v, Some(m), Some(s)) == PosInf;
    } else if d < 0.0 {
      assert ZScore(v, Some(m), Some(s)) == NegInf;
    } else {
      assert ZScore(v, Some(m), Some(s)) == NaN;
    }
  }

  lemma SquareMono(a: real, b: real)
    requires a >= 0.0 && b >= 0.0
    ensures a <= b <==> a * a <= b * b
  {
    if a <= b {
      MulMono(a, a, b);
      MulMono(b, a, b);
    } else {
      MulMono(b, b, a);
      StrictSquare(a, b);
    }
  }

  lemma StrictSquare(a: real, b: real)
    requires 0.0 <= b < a
    ensures b * b < a * a
  {
    var c := a - b;
    MulMono(b, b, a);
    MulPositive(a, c);
    Distribute(b, c, a);
    assert (b + c) * a == a * a;
    assert b * a + c * a == a * a;
    assert c * a == a * c;
    BelowByPositive(b * b, b * a, c * a, a * a);
  }

  lemma BelowByPositive(p: real, q: real, e: real, r: real)
    requires p <= q && e > 0.0 && q + e == r
    ensures p < r
  {
  }

  lemma MulPositive(a: real, b: real)
    requires a > 0.0 && b > 0.0
    ensures a * b > 0.0
  {
  }

  /** The test in squared form, without the root: |v - m| <= t * sqrt(var) holds
      exactly when the threshold is not negative and (v - m)^2 <= t^2 * var. */
  lemma SquaredTest(d: real, t: real, s: real, variance: real)
    requires s > 0.0 && s * s == variance
    ensures Abs(d) <= t * s <==> t >= 0.0 && d * d <= t * t * variance
  {
    assert Abs(d) * Abs(d) == d * d;
    assert (t * s) * (t * s) == t * t * (s * s);
    if Abs(d) <= t * s {
      if t < 0.0 {
        MulMono(s, t, 0.0);
        assert s * t == t * s;
      }
      SquareMono(Abs(d), t * s);
    }
    if t >= 0.0 && d * d <= t * t * variance {
      MulNonNegative(t, s);
      SquareMono(Abs(d), t * s);
    }
  }

  // ---------------------------------------------------------------------------
  // Masking and filling

  /** where(|z| <= threshold, NaN) on one numeric series. */
  function MaskCells(s: Series, t: real, sqrt: real -> real): (r: Series)
    ensures |r| == |s|
    ensures forall i :: 0 <= i < |s| ==> r[i].None? || r[i] == s[i]
  {
    var m := ColumnMean(s);
    var sd := ColumnStd(s, sqrt);
    seq(|s|, i requires 0 <= i < |s| => if s[i].Some? && Keep(s[i].value, m, sd, t) then s[i] else None)
  }

  /** A present value survives the mask exactly when the column has a positive
      deviation and the value lies within threshold deviations of the column mean;
      a missing value stays missing. */
  lemma MaskedCell(s: Series, t: real, sqrt: real -> real, i: nat)
    requires i < |s| && IsSqrt(sqrt)
    ensures MaskCells(s, t, sqrt)[i] ==
            if s[i].Some? && ColumnStd(s, sqrt).Some? && ColumnStd(s, sqrt).value > 0.0 &&
               Abs(s[i].value - ColumnMean(s).value) <= t * ColumnStd(s, sqrt).value
            then s[i] else None
  {
    var sd := ColumnStd(s, sqrt);
    if s[i].Some? && sd.Some? {
      var v := ColumnVariance(s).value;
      assert sd.value >= 0.0 by {
        if v > 0.0 {
          assert sqrt(v) > 0.0;
        } else {
          assert v == 0.0;
        }
      }
      KeepIff(s[i].value, ColumnMean(s).value, sd.value, t);
    }
  }

  /** The same test on the variance: a value is kept exactly when the variance is
      positive, the threshold is not negative and (v - mean)^2 <= t^2 * var. */
  lemma MaskedCellSquared(s: Series, t: real, sqrt: real -> real, i: nat)
    requires i < |s| && IsSqrt(sqrt)
    ensures MaskCells(s, t, sqrt)[i].Some? <==>
            && s[i].Some?
            && ColumnVariance(s).Some?
            && ColumnVariance(s).value > 0.0
            && t >= 0.0
            && (s[i].value - ColumnMean(s).value) * (s[i].value - ColumnMean(s).value)
               <= t * t * ColumnVariance(s).value
  {
    MaskedCell(s, t, sqrt, i);
    var vr := ColumnVariance(s);
    if s[i].Some? && vr.Some? && vr.value > 0.0 {
      var sd := sqrt(vr.value);
      SquaredTest(s[i].value - ColumnMean(s).value, t, sd, vr.value);
    }
  }

  /** A column with fewer than two values, or whose values are all equal, has no
      positive deviation, and then every value is masked. */
  lemma NoSpreadMasksAll(s: Series, t: real, sqrt: real -> real)
    requires IsSqrt(sqrt)
    requires ColumnVariance(s).None? || ColumnVariance(s) == Some(0.0)
    ensures forall i :: 0 <= i < |s| ==> MaskCells(s, t, sqrt)[i].None?
  {
    forall i | 0 <= i < |s|
      ensures MaskCells(s, t, sqrt)[i].None?
    {
      MaskedCell(s, t, sqrt, i);
    }
  }

  lemma ConstantColumnMasked(s: Series, c: real, t: real, sqrt: real -> real)
    requires IsSqrt(sqrt)
    requires forall i :: 0 <= i < |s| && s[i].Some? ==> s[i].value == c
    ensures forall i :: 0 <= i < |s| ==> MaskCells(s, t, sqrt)[i].None?
  {
    var o := Observed(s);
    ObservedFrom(s, c);
    if |o| >= 2 {
      VarianceOfConstant(o, c);
    }
    NoSpreadMasksAll(s, t, sqrt);
  }

  function MaskColumn(col: Column, t: real, sqrt: real -> real): (r: Column)
    ensures r.name == col.name && r.Numeric? == col.Numeric?
    ensures col.Text? ==> r == col
    ensures col.Numeric? ==> |r.cells| == |col.cells|
  {
    match col
    case Numeric(n, c) => Numeric(n, MaskCells(c, t, sqrt))
    case Text(_, _) => col
  }

  /** ffill() on one column. */
  function FillColumn(col: Column): (r: Column)
    ensures r.name == col.name && r.Numeric? == col.Numeric?
    ensures col.Numeric? ==> |r.cells| == |col.cells|
    ensures col.Text? ==> |r.texts| == |col.texts|
  {
    match col
    case Numeric(n, c) => Numeric(n, FFill(c))
    case Text(n, c) => Text(n, FFill(c))
  }

  function MaskFrame(f: Frame, t: real, sqrt: real -> real): (r: Frame)
    ensures |r| == |f|
  {
    seq(|f|, j requires 0 <= j < |f| => MaskColumn(f[j], t, sqrt))
  }

  function FillFrame(f: Frame): (r: Frame)
    ensures |r| == |f|
  {
    seq(|f|, j requires 0 <= j < |f| => FillColumn(f[j]))
  }

  /** What remove_outliers returns for a frame. */
  function Cleaned(f: Frame, t: real, sqrt: real -> real): (r: Frame)
    ensures |r| == |f|
    ensures forall j :: 0 <= j < |f| ==> r[j].name == f[j].name && r[j].Numeric? == f[j].Numeric?
  {
    FillFrame(MaskFrame(f, t, sqrt))
  }

  /** The loop over the columns: each numeric column is replaced by its masked
      version in place, the other columns are left alone, and the forward-filled
      frame is returned. */
  method RemoveOutliers(df: array<Column>, threshold: real, sqrt: real -> real) returns (cleaned: Frame)
    modifies df
    ensures df[..] == MaskFrame(old(df[..]), threshold, sqrt)
    ensures cleaned == Cleaned(old(df[..]), threshold, sqrt)
  {
    for j := 0 to df.Length
      invariant df[..j] == MaskFrame(old(df[..]), threshold, sqrt)[..j]
      invariant df[j..] == old(df[..])[j..]
    {
      assert df[j] == old(df[j]);
      if df[j].Numeric? {
        df[j] := Numeric(df[j].name, MaskCells(df[j].cells, threshold, sqrt));
      }
      assert df[..j + 1] == df[..j] + [df[j]];
    }
    assert df[..] == df[..df.Length];
    cleaned := FillFrame(df[..]);
  }

  // ---------------------------------------------------------------------------
  // What the cleaned frame holds

  /** The cleaned frame has the columns of the input, in order, with their kinds
      and lengths. */
  lemma CleanedShape(f: Frame, t: real, sqrt: real -> real, j: nat)
    requires j < |f|
    ensures |Cleaned(f, t, sqrt)| == |f|
    ensures var c := Cleaned(f, t, sqrt)[j];
            && c.name == f[j].name
            && c.Numeric? == f[j].Numeric?
            && (c.Numeric? ==> |c.cells| == |f[j].cells|)
            && (c.Text? ==> |c.texts| == |f[j].texts|)
  {
  }

  /** A non-numeric column is forward filled but never masked. */
  lemma TextColumnOnlyFilled(f: Frame, t: real, sqrt: real -> real, j: nat)
    requires j < |f| && f[j].Text?
    ensures Cleaned(f, t, sqrt)[j] == Text(f[j].name, FFill(f[j].texts))
  {
  }

  /** A value that passes the test is what the cleaned column holds there. */
  lemma CleanedKept(f: Frame, t: real, sqrt: real -> real, j: nat, i: nat)
    requires j < |f| && f[j].Numeric? && i < |f[j].cells|
    requires MaskCells(f[j].cells, t, sqrt)[i].Some?
    ensures Cleaned(f, t, sqrt)[j].cells[i] == f[j].cells[i]
  {
  }

  /** A masked or missing value takes the nearest earlier value that passed the
      test. */
  lemma CleanedFilled(f: Frame, t: real, sqrt: real -> real, j: nat, k: nat, i: nat)
    requires j < |f| && f[j].Numeric? && k < i < |f[j].cells|
    requires MaskCells(f[j].cells, t, sqrt)[k].Some?
    requires forall q :: k < q <= i ==> MaskCells(f[j].cells, t, sqrt)[q].None?
    ensures Cleaned(f, t, sqrt)[j].cells[i] == f[j].cells[k]
  {
    FFillNearest(MaskCells(f[j].cells, t, sqrt), k, i);
  }

  /** Before the first value that passes the test the column stays missing. */
  lemma CleanedLeading(f: Frame, t: real, sqrt: real -> real, j: nat, i: nat)
    requires j < |f| && f[j].Numeric? && i < |f[j].cells|
    requires forall q :: 0 <= q <= i ==> MaskCells(f[j].cells, t, sqrt)[q].None?
    ensures Cleaned(f, t, sqrt)[j].cells[i].None?
  {
    FFillLeading(MaskCells(f[j].cells, t, sqrt), i);
  }

  /** A column's outcome depends on that column alone. */
  lemma ColumnIndependence(f: Frame, g: Frame, t: real, sqrt: real -> real, j: nat)
    requires j < |f| && j < |g| && f[j] == g[j]
    ensures Cleaned(f, t, sqrt)[j] == Cleaned(g, t, sqrt)[j]
  {
  }

  /** A column whose values are all equal comes out entirely missing. */
  lemma ConstantColumnVanishes(f: Frame, t: real, sqrt: real -> real, j: nat, c: real)
    requires IsSqrt(sqrt) && j < |f| && f[j].Numeric?
    requires forall i :: 0 <= i < |f[j].cells| && f[j].cells[i].Some? ==> f[j].cells[i].value == c
    ensures forall i :: 0 <= i < |f[j].cells| ==> Cleaned(f, t, sqrt)[j].cells[i].None?
  {
    ConstantColumnMasked(f[j].cells, c, t, sqrt);
    forall i | 0 <= i < |f[j].cells|
      ensures Cleaned(f, t, sqrt)[j].cells[i].None?
    {
      CleanedLeading(f, t, sqrt, j, i);
    }
  }

  // ---------------------------------------------------------------------------
  // One spike among six equal prices

  function SpikeColumn(): (s: Series)
    ensures |s| == 6 && AllPresent(s)
  {
    [Some(10.0), Some(10.0), Some(10.0), Some(1000.0), Some(10.0), Some(10.0)]
  }

  /** Mean 175 and variance 163350: the spike lies about 2.04 deviations from the
      mean, so with threshold 3 nothing in the column is masked. */
  lemma SpikeNotMasked(sqrt: real -> real)
    requires IsSqrt(sqrt)
    ensures ColumnMean(SpikeColumn()) == Some(175.0)
    ensures ColumnVariance(SpikeColumn()) == Some(163350.0)
    ensures MaskCells(SpikeColumn(), 3.0, sqrt) == SpikeColumn()
  {
    var s := SpikeColumn();
    ObservedAllPresent(s);
    var o := Observed(s);
    assert o == [10.0, 10.0, 10.0, 1000.0, 10.0, 10.0];
    SpikeSums();
    forall i | 0 <= i < 6
      ensures MaskCells(s, 3.0, sqrt)[i] == s[i]
    {
      MaskedCellSquared(s, 3.0, sqrt, i);
    }
  }

  lemma SpikeSums()
    ensures Sum([10.0, 10.0, 10.0, 1000.0, 10.0, 10.0]) == 1050.0
    ensures SumSqDev([10.0, 10.0, 10.0, 1000.0, 10.0, 10.0], 175.0) == 816750.0
  {
    assert Sum([10.0]) == 10.0;
    assert Sum([10.0, 10.0]) == 20.0 by { assert [10.0, 10.0][..1] == [10.0]; }
    assert Sum([10.0, 10.0, 10.0]) == 30.0 by { assert [10.0, 10.0, 10.0][..2] == [10.0, 10.0]; }
    assert Sum([10.0, 10.0, 10.0, 1000.0]) == 1030.0 by {
      assert [10.0, 10.0, 10.0, 1000.0][..3] == [10.0, 10.0, 10.0];
    }
    assert Sum([10.0, 10.0, 10.0, 1000.0, 10.0]) == 1040.0 by {
      assert [10.0, 10.0, 10.0, 1000.0, 10.0][..4] == [10.0, 10.0, 10.0, 1000.0];
    }
    assert [10.0, 10.0, 10.0, 1000.0, 10.0, 10.0][..5] == [10.0, 10.0, 10.0, 1000.0, 10.0];
    var m := 175.0;
    assert SumSqDev([10.0], m) == 27225.0;
    assert SumSqDev([10.0, 10.0], m) == 54450.0 by { assert [10.0, 10.0][..1] == [10.0]; }
    assert SumSqDev([10.0, 10.0, 10.0], m) == 81675.0 by { assert [10.0, 10.0, 10.0][..2] == [10.0, 10.0]; }
    assert SumSqDev([10.0, 10.0, 10.0, 1000.0], m) == 762300.0 by {
      assert [10.0, 10.0, 10.0, 1000.0][..3] == [10.0, 10.0, 10.0];
    }
    assert SumSqDev([10.0, 10.0, 10.0, 1000.0, 10.0], m) == 789525.0 by {
      assert [10.0, 10.0, 10.0, 1000.0, 10.0][..4] == [10.0, 10.0, 10.0, 1000.0];
    }
  }

  // ---------------------------------------------------------------------------
  // The grouped application

  /** groupby(level = 0).apply(remove_outliers): each ticker's frame is cleaned on
      its own, with its own statistics and its own forward fill. */
  function CleanByTicker(panel: map<string, Frame>, t: real, sqrt: real -> real): (r: map<string, Frame>)
    ensures r.Keys == panel.Keys
    ensures forall tk :: tk in panel ==> |r[tk]| == |panel[tk]|
  {
    map tk | tk in panel :: Cleaned(panel[tk], t, sqrt)
  }

  /** One ticker's result depends on that ticker's rows alone. */
  lemma TickerIsolation(p: map<string, Frame>, q: map<string, Frame>, t: real, sqrt: real -> real, tk: string)
    requires tk in p && tk in q && p[tk] == q[tk]
    ensures CleanByTicker(p, t, sqrt)[tk] == CleanByTicker(q, t, sqrt)[tk]
  {
  }
}
