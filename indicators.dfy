/** The two derived indicators built from rolling statistics: Bollinger bands
    (the rolling mean plus or minus two rolling sample deviations) and the
    relative strength index over trailing averages of gains and losses. */
module Indicators {
  import opened Series
  import opened Rolling
  import opened Floats

  // ---------------------------------------------------------------------------
  // Bollinger bands

  datatype Bands = Bands(upper: Series, lower: Series)

  /** Element-wise a + k * b, missing where either operand is missing. */
  function Shift(a: Option<real>, k: real, b: Option<real>): (r: Option<real>)
    ensures r.Some? <==> a.Some? && b.Some?
  {
    if a.Some? && b.Some? then Some(a.value + k * b.value) else None
  }

  function BollingerBands(x: Series, w: nat, sqrt: real -> real): (b: Bands)
    requires w >= 1
    ensures |b.upper| == |x| && |b.lower| == |x|
    ensures forall i :: 0 <= i < |x| ==>
              (b.upper[i].Some? <==> Sma(x, w)[i].Some? && RollingStd(x, w, sqrt)[i].Some?) &&
              (b.lower[i].Some? <==> b.upper[i].Some?)
    ensures forall i :: 0 <= i < |x| && b.upper[i].Some? ==>
              b.upper[i].value + b.lower[i].value == 2.0 * Sma(x, w)[i].value
  {
    var m := Sma(x, w);
    var s := RollingStd(x, w, sqrt);
    Bands(seq(|x|, i requires 0 <= i < |x| => Shift(m[i], 2.0, s[i])),
          seq(|x|, i requires 0 <= i < |x| => Shift(m[i], -2.0, s[i])))
  }

  /** The bands exist exactly where the window is complete, has no missing value
      and holds at least two values; in particular never in the first w - 1 positions. */
  lemma BandsDefined(x: Series, w: nat, sqrt: real -> real, i: nat)
    requires w >= 1 && i < |x|
    ensures BollingerBands(x, w, sqrt).upper[i].Some? <==> 2 <= w <= i + 1 && AllPresent(x[i + 1 - w .. i + 1])
    ensures i + 1 < w ==> BollingerBands(x, w, sqrt).upper[i].None? && BollingerBands(x, w, sqrt).lower[i].None?
  {
  }

  /** The deviation is never negative, so the mean lies between the bands, which
      are two deviations away from it on either side. */
  lemma BandsOrder(x: Series, w: nat, sqrt: real -> real, i: nat)
    requires w >= 1 && i < |x| && IsSqrt(sqrt)
    requires BollingerBands(x, w, sqrt).upper[i].Some?
    ensures var b := BollingerBands(x, w, sqrt);
            var m := Sma(x, w)[i].value;
            b.lower[i].value <= m <= b.upper[i].value
    ensures var b := BollingerBands(x, w, sqrt);
            var d := b.upper[i].value - Sma(x, w)[i].value;
            d * d == 4.0 * WindowVariance(x, i, w).value
  {
    var s := RollingStd(x, w, sqrt)[i].value;
    RollingStdSquare(x, w, sqrt, i);
    var b := BollingerBands(x, w, sqrt);
    var m := Sma(x, w)[i].value;
    assert b.upper[i].value == m + 2.0 * s;
    assert b.lower[i].value == m + -2.0 * s;
    MulNonNegative(2.0, s);
    assert (2.0 * s) * (2.0 * s) == 4.0 * (s * s);
  }

  /** Over a constant window both bands collapse onto the constant. */
  lemma ConstantWindowBands(x: Series, w: nat, sqrt: real -> real, i: nat, c: real)
    requires 2 <= w <= i + 1 && i < |x| && IsSqrt(sqrt)
    requires forall k :: i + 1 - w <= k <= i ==> x[k] == Some(c)
    ensures BollingerBands(x, w, sqrt).upper[i] == Some(c)
    ensures BollingerBands(x, w, sqrt).lower[i] == Some(c)
  {
    var win := x[i + 1 - w .. i + 1];
    forall k | 0 <= k < |win|
      ensures win[k] == Some(c)
    {
      assert win[k] == x[i + 1 - w + k];
    }
    var v := Values(win);
    VarianceOfConstant(v, c);
    assert WindowVariance(x, i, w) == Some(0.0);
    assert RollingStd(x, w, sqrt)[i] == Some(0.0);
    assert Sma(x, w)[i] == Some(c);
  }

  // ---------------------------------------------------------------------------
  // The arithmetic of the relative strength index, with the infinities and the
  // undefined quotient that floating-point division produces

  /** replace([inf, -inf], nan) followed by fillna(0): a finite value is kept, both
      infinities and NaN become 0. */
  function Patch(a: Float): (r: real)
    ensures a.Finite? ==> r == a.v
    ensures !a.Finite? ==> r == 0.0
  {
    if a.Finite? then a.v else 0.0
  }

  /** 100 - 100 / (1 + RS) in floating point. */
  function RsiFormula(rs: Float): Float
  {
    Sub(Finite(100.0), Div(Finite(100.0), Add(Finite(1.0), rs)))
  }

  /** A finite non-negative RS never meets a zero denominator and gives the exact value. */
  lemma FormulaFinite(q: real)
    requires q >= 0.0
    ensures RsiFormula(Finite(q)) == Finite(100.0 - 100.0 / (1.0 + q))
  {
    var d := 1.0 + q;
    assert Add(Finite(1.0), Finite(q)) == Finite(d);
    assert Div(Finite(100.0), Finite(d)) == Finite(100.0 / d);
  }

  /** An infinite RS makes the quotient 0 and the formula 100. */
  lemma FormulaInfinite()
    ensures RsiFormula(PosInf) == Finite(100.0)
  {
    assert Add(Finite(1.0), PosInf) == PosInf;
    assert Div(Finite(100.0), PosInf) == Finite(0.0);
  }

  /** A NaN RS stays NaN through the formula. */
  lemma FormulaNaN()
    ensures RsiFormula(NaN) == NaN
  {
  }

  /** RS = gain / loss, then the formula, then the patching of what is not finite:
      a positive loss goes through the formula, gains without losses give 100 and
      no movement gives 0. */
  function RsiValue(g: real, l: real): (r: real)
    ensures g >= 0.0 && l > 0.0 ==> r == 100.0 - 100.0 / (1.0 + g / l)
    ensures g > 0.0 && l == 0.0 ==> r == 100.0
    ensures g == 0.0 && l == 0.0 ==> r == 0.0
  {
    var rs := Div(Finite(g), Finite(l));
    assert l != 0.0 ==> rs == Finite(g / l);
    assert g > 0.0 && l == 0.0 ==> rs == PosInf;
    assert g == 0.0 && l == 0.0 ==> rs == NaN;
    if g >= 0.0 && l > 0.0 then
      DivLower(g, l, 0.0);
      FormulaFinite(g / l);
      Patch(RsiFormula(rs))
    else if g > 0.0 && l == 0.0 then
      FormulaInfinite();
      Patch(RsiFormula(rs))
    else
      FormulaNaN();
      Patch(RsiFormula(rs))
  }

  /** The index in exact arithmetic, case by case: 100 - 100 / (1 + g / l) for a
      positive average loss, 100 for gains without losses, 0 without movement. */
  function RsiShare(g: real, l: real): real
    requires g >= 0.0 && l >= 0.0
  {
    if l > 0.0 then 100.0 - 100.0 / (1.0 + g / l)
    else if g > 0.0 then 100.0
    else 0.0
  }

  /** The floating-point chain agrees with the exact case split: a finite RS goes
      through the formula, an infinite RS comes out as 100, and the undefined 0 / 0
      is filled with 0. */
  lemma RsiValueCases(g: real, l: real)
    requires g >= 0.0 && l >= 0.0
    ensures RsiValue(g, l) == RsiShare(g, l)
  {
  }

  /** The index never leaves [0, 100]. */
  lemma RsiValueRange(g: real, l: real)
    requires g >= 0.0 && l >= 0.0
    ensures 0.0 <= RsiValue(g, l) <= 100.0
  {
    RsiValueCases(g, l);
    ShareRange(g, l);
  }

  /** The index lies in [0, 100] and is the share of the average gain in the total
      average movement, times 100; with no movement it is 0. */
  lemma ShareRange(g: real, l: real)
    requires g >= 0.0 && l >= 0.0
    ensures 0.0 <= RsiShare(g, l) <= 100.0
    ensures g + l > 0.0 ==> RsiShare(g, l) * (g + l) == 100.0 * g
    ensures g + l == 0.0 ==> RsiShare(g, l) == 0.0
  {
    if l > 0.0 {
      RsiArithmetic(g, l);
    } else if g > 0.0 {
      assert RsiShare(g, l) == 100.0;
      assert g + l == g;
    }
  }

  lemma RsiArithmetic(g: real, l: real)
    requires g >= 0.0 && l > 0.0
    ensures 1.0 + g / l >= 1.0
    ensures 0.0 < 100.0 / (1.0 + g / l) <= 100.0
    ensures (100.0 - 100.0 / (1.0 + g / l)) * (g + l) == 100.0 * g
  {
    var rs := g / l;
    var d := 1.0 + rs;
    assert rs >= 0.0;
    assert d * l == l + g;
    var q := 100.0 / d;
    assert q * d == 100.0;
    DivUpper(100.0, d, 100.0);
    assert q * (g + l) == q * (d * l);
    assert q * (d * l) == (q * d) * l;
    assert q * (g + l) == 100.0 * l;
  }

  // ---------------------------------------------------------------------------
  // The relative strength index

  /** diff(1): missing at the first position and wherever either neighbour is missing. */
  function Delta(x: Series): (d: Series)
    ensures |d| == |x|
    ensures |x| > 0 ==> d[0].None?
    ensures forall i :: 0 < i < |x| ==>
              (d[i].Some? <==> x[i - 1].Some? && x[i].Some?) &&
              (d[i].Some? ==> d[i].value == x[i].value - x[i - 1].value)
  {
    seq(|x|, i requires 0 <= i < |x| =>
      if i > 0 && x[i - 1].Some? && x[i].Some? then Some(x[i].value - x[i - 1].value) else None)
  }

  /** delta.where(delta > 0, 0.0): a missing delta fails the test and becomes 0. */
  function Gain(d: Option<real>): (r: real)
    ensures r >= 0.0
    ensures r > 0.0 <==> d.Some? && d.value > 0.0
  {
    if d.Some? && d.value > 0.0 then d.value else 0.0
  }

  /** -delta.where(delta < 0, 0.0). */
  function Loss(d: Option<real>): (r: real)
    ensures r >= 0.0
    ensures r > 0.0 <==> d.Some? && d.value < 0.0
  {
    if d.Some? && d.value < 0.0 then -d.value else 0.0
  }

  /** A move is split into a gain and a loss, both non-negative and at most one of
      them non-zero, whose difference is the move; a missing move is neither. */
  lemma GainLossSplit(d: Option<real>)
    ensures Gain(d) >= 0.0 && Loss(d) >= 0.0
    ensures Gain(d) == 0.0 || Loss(d) == 0.0
    ensures d.Some? ==> Gain(d) - Loss(d) == d.value
    ensures d.None? ==> Gain(d) == 0.0 && Loss(d) == 0.0
  {
  }

  function Gains(x: Series): (r: seq<real>)
    ensures |r| == |x|
    ensures forall i :: 0 <= i < |x| ==> r[i] >= 0.0
  {
    var d := Delta(x);
    seq(|x|, i requires 0 <= i < |x| => Gain(d[i]))
  }

  function Losses(x: Series): (r: seq<real>)
    ensures |r| == |x|
    ensures forall i :: 0 <= i < |x| ==> r[i] >= 0.0
  {
    var d := Delta(x);
    seq(|x|, i requires 0 <= i < |x| => Loss(d[i]))
  }

  /** First position of the trailing window of w entries ending at i, cut at the
      start of the series: min_periods = 1 averages what is there. */
  function TrailingStart(i: nat, w: nat): (k: nat)
    requires w >= 1
    ensures k <= i && i + 1 - k == if i + 1 < w then i + 1 else w
  {
    if i + 1 < w then 0 else i + 1 - w
  }

  /** rolling(window = w, min_periods = 1).mean() of a series without missing values. */
  function TrailingMean(s: seq<real>, w: nat, i: nat): (r: real)
    requires w >= 1 && i < |s|
    ensures r * ((i + 1 - TrailingStart(i, w)) as real) == Sum(s[TrailingStart(i, w) .. i + 1])
  {
    Mean(s[TrailingStart(i, w) .. i + 1])
  }

  lemma TrailingMeanNonNegative(s: seq<real>, w: nat, i: nat)
    requires w >= 1 && i < |s|
    requires forall k :: 0 <= k < |s| ==> s[k] >= 0.0
    ensures TrailingMean(s, w, i) >= 0.0
  {
    MeanSign(s[TrailingStart(i, w) .. i + 1]);
  }

  function AvgGain(x: Series, w: nat, i: nat): (g: real)
    requires w >= 1 && i < |x|
    ensures g >= 0.0
  {
    TrailingMeanNonNegative(Gains(x), w, i);
    TrailingMean(Gains(x), w, i)
  }

  function AvgLoss(x: Series, w: nat, i: nat): (l: real)
    requires w >= 1 && i < |x|
    ensures l >= 0.0
  {
    TrailingMeanNonNegative(Losses(x), w, i);
    TrailingMean(Losses(x), w, i)
  }

  /** The index at position i, from the averages over the trailing window. */
  function RsiPoint(x: Series, w: nat, i: nat): (r: real)
    requires w >= 1 && i < |x|
    ensures 0.0 <= r <= 100.0
  {
    var g, l := AvgGain(x, w, i), AvgLoss(x, w, i);
    RsiValueRange(g, l);
    RsiValue(g, l)
  }

  function Rsi(x: Series, w: nat): (r: Series)
    requires w >= 1
    ensures |r| == |x|
    ensures AllPresent(r)
    ensures forall i :: 0 <= i < |x| ==> 0.0 <= r[i].value <= 100.0
  {
    seq(|x|, i requires 0 <= i < |x| => Some(RsiPoint(x, w, i)))
  }

  /** Each position of the index is the exact case split on that position's
      average gain and average loss. */
  lemma RsiAt(x: Series, w: nat, i: nat)
    requires w >= 1 && i < |x|
    ensures Rsi(x, w)[i] == Some(RsiShare(AvgGain(x, w, i), AvgLoss(x, w, i)))
  {
    RsiValueCases(AvgGain(x, w, i), AvgLoss(x, w, i));
  }

  /** The first delta is missing, so the first gain and loss are 0 and the 0 / 0
      there is filled with 0. */
  lemma RsiFirstIsZero(x: Series, w: nat)
    requires w >= 1 && |x| > 0
    ensures Rsi(x, w)[0] == Some(0.0)
  {
    assert Gains(x)[0 .. 1] == [0.0];
    assert Losses(x)[0 .. 1] == [0.0];
    SumFront([0.0]);
    assert AvgGain(x, w, 0) == 0.0 && AvgLoss(x, w, 0) == 0.0;
    RsiAt(x, w, 0);
  }

  /** A series without movement has index 0 everywhere. */
  lemma RsiConstantIsZero(x: Series, w: nat, c: real)
    requires w >= 1
    requires forall i :: 0 <= i < |x| ==> x[i] == Some(c)
    ensures forall i :: 0 <= i < |x| ==> Rsi(x, w)[i] == Some(0.0)
  {
    forall i | 0 <= i < |x|
      ensures Rsi(x, w)[i] == Some(0.0)
    {
      var k := TrailingStart(i, w);
      var gw := Gains(x)[k .. i + 1];
      var lw := Losses(x)[k .. i + 1];
      assert forall j :: 0 <= j < |gw| ==> gw[j] == 0.0;
      assert forall j :: 0 <= j < |lw| ==> lw[j] == 0.0;
      MeanSign(gw);
      MeanSign(lw);
      assert AvgGain(x, w, i) == 0.0 && AvgLoss(x, w, i) == 0.0;
      RsiAt(x, w, i);
    }
  }

  /** In a strictly rising series every window after the first position holds a
      gain and no loss, so the index is 100 there. */
  lemma RsiRisingIs100(x: Series, w: nat)
    requires w >= 1 && AllPresent(x)
    requires forall i :: 0 < i < |x| ==> x[i - 1].value < x[i].value
    ensures forall i :: 0 < i < |x| ==> Rsi(x, w)[i] == Some(100.0)
  {
    forall i | 0 < i < |x|
      ensures Rsi(x, w)[i] == Some(100.0)
    {
      var k := TrailingStart(i, w);
      var gw := Gains(x)[k .. i + 1];
      var lw := Losses(x)[k .. i + 1];
      assert forall j :: 0 <= j < |lw| ==> lw[j] == 0.0;
      assert gw[i - k] > 0.0;
      MeanSign(gw);
      MeanSign(lw);
      assert AvgGain(x, w, i) > 0.0 && AvgLoss(x, w, i) == 0.0;
      RsiAt(x, w, i);
    }
  }
}
