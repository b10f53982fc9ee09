/** Rolling statistics over one ticker's series: the simple moving average
    (pandas rolling(window).mean()), the exponential moving average
    (ewm(span=window, adjust=False).mean()) and the rolling sample standard
    deviation (rolling(window).std(), ddof = 1). */
module Rolling {
  import opened Series

  // ---------------------------------------------------------------------------
  // Simple moving average

  /** The mean of the w positions ending at i: missing until w positions exist
      (min_periods defaults to the window) and missing if any of them is missing. */
  function WindowMean(x: Series, i: nat, w: nat): (r: Option<real>)
    requires w >= 1 && i < |x|
    ensures r.Some? <==> w <= i + 1 && AllPresent(x[i + 1 - w .. i + 1])
    ensures r.Some? ==> r.value * (w as real) == Sum(Values(x[i + 1 - w .. i + 1]))
  {
    if i + 1 < w then None
    else
      var win := x[i + 1 - w .. i + 1];
      if AllPresent(win) then Some(Mean(Values(win))) else None
  }

  function Sma(x: Series, w: nat): (r: Series)
    requires w >= 1
    ensures |r| == |x|
    ensures forall i :: 0 <= i < |x| ==> (r[i].Some? <==> w <= i + 1 && AllPresent(x[i + 1 - w .. i + 1]))
    ensures forall i :: 0 <= i < |x| && w <= i + 1 && r[i].Some? ==>
              r[i].value * (w as real) == Sum(Values(x[i + 1 - w .. i + 1]))
  {
    seq(|x|, i requires 0 <= i < |x| => WindowMean(x, i, w))
  }

  /** A complete window without missing values averages to the mean of its values. */
  lemma SmaIsMean(x: Series, w: nat, i: nat)
    requires w >= 1 && w <= i + 1 <= |x|
    requires AllPresent(x[i + 1 - w .. i + 1])
    ensures Sma(x, w)[i] == Some(Mean(Values(x[i + 1 - w .. i + 1])))
  {
  }

  /** Where two consecutive windows are complete, the average moves by the value
      that enters minus the value that leaves, divided by the window. */
  lemma SmaSlide(x: Series, w: nat, i: nat)
    requires w >= 1 && w <= i < |x|
    requires AllPresent(x[i - w .. i + 1])
    ensures Sma(x, w)[i].Some? && Sma(x, w)[i - 1].Some?
    ensures Sma(x, w)[i].value == Sma(x, w)[i - 1].value + (x[i].value - x[i - w].value) / (w as real)
  {
    var all := x[i - w .. i + 1];
    assert x[i - w .. i] == all[..w];
    assert x[i + 1 - w .. i + 1] == all[1..];
    WindowSumSlide(x, w, i);
    var r := Sma(x, w);
    ScaledSlide(r[i].value, r[i - 1].value, x[i].value - x[i - w].value, w as real);
  }

  /** The sum of a window slid by one gains the value entering and loses the one leaving. */
  lemma WindowSumSlide(x: Series, w: nat, i: nat)
    requires w >= 1 && w <= i < |x|
    requires AllPresent(x[i - w .. i]) && AllPresent(x[i + 1 - w .. i + 1])
    ensures x[i].Some? && x[i - w].Some?
    ensures Sum(Values(x[i + 1 - w .. i + 1])) == Sum(Values(x[i - w .. i])) - x[i - w].value + x[i].value
  {
    var v1 := Values(x[i - w .. i]);
    var v2 := Values(x[i + 1 - w .. i + 1]);
    assert x[i - w .. i][0] == x[i - w];
    assert x[i + 1 - w .. i + 1][w - 1] == x[i];
    var mid := Values(x[i + 1 - w .. i]);
    assert v1 == [x[i - w].value] + mid;
    assert v2 == mid + [x[i].value];
    SumFront(v1);
    assert v1[1..] == mid;
    assert v2[..|v2| - 1] == mid;
  }

  lemma ScaledSlide(a: real, b: real, d: real, n: real)
    requires n > 0.0 && a * n == b * n + d
    ensures a == b + d / n
  {
    assert (a - b) * n == d;
  }

  /** A complete window's average lies between bounds that hold for its values. */
  lemma SmaBounds(x: Series, w: nat, i: nat, lo: real, hi: real)
    requires w >= 1 && w <= i + 1 <= |x|
    requires forall k :: i + 1 - w <= k <= i ==> x[k].Some? && lo <= x[k].value <= hi
    ensures Sma(x, w)[i].Some? && lo <= Sma(x, w)[i].value <= hi
  {
    var win := x[i + 1 - w .. i + 1];
    assert AllPresent(win);
    var v := Values(win);
    forall k | 0 <= k < |v|
      ensures lo <= v[k] <= hi
    {
      assert win[k] == x[i + 1 - w + k];
    }
    MeanBounds(v, lo, hi);
  }

  // ---------------------------------------------------------------------------
  // Exponential moving average

  /** The smoothing factor of ewm(span = w): com = (w - 1) / 2, alpha = 1 / (1 + com). */
  function Alpha(w: nat): (a: real)
    requires w >= 1
    ensures 0.0 < a <= 1.0
  {
    2.0 / (w as real + 1.0)
  }

  /** The running state of pandas' ewm mean: the current weighted value (missing
      until the first observation) and the weight of that value. */
  datatype EwmState = EwmState(weighted: Option<real>, oldWt: real)

  /** The weighted average of w (weight o) and v (weight a); a total weight of 1,
      the case without gaps, needs no division. */
  function Blend(o: real, a: real, w: real, v: real): real
    requires o + a != 0.0
  {
    if o + a == 1.0 then o * w + a * v else (o * w + a * v) / (o + a)
  }

  /** The textbook exponential smoothing step: alpha parts new value, 1 - alpha parts old. */
  function Smooth(alpha: real, v: real, prev: real): real
  {
    alpha * v + (1.0 - alpha) * prev
  }

  /** The weight of the current value after one more position. */
  function Decay(alpha: real, wt: real): (r: real)
    requires 0.0 < alpha <= 1.0 && wt >= 0.0
    ensures 0.0 <= r <= wt
  {
    MulMono(wt, 0.0, 1.0 - alpha);
    wt * (1.0 - alpha)
  }

  /** One step with adjust=False and ignore_na=False: while a value exists its
      weight decays at every position, missing or not; an observation is averaged
      in with weight alpha against that decayed weight and resets the weight to 1;
      before the first observation the state just waits for one. */
  function EwmStep(alpha: real, st: EwmState, cur: Option<real>): (r: EwmState)
    requires 0.0 < alpha <= 1.0 && st.oldWt >= 0.0
    ensures r.oldWt >= 0.0
    ensures (st.weighted.Some? || cur.Some?) <==> r.weighted.Some?
  {
    match st.weighted
    case Some(w) =>
      var oldWt := Decay(alpha, st.oldWt);
      (match cur
       case Some(v) => EwmState(Some(Blend(oldWt, alpha, w, v)), 1.0)
       case None => EwmState(st.weighted, oldWt))
    case None =>
      EwmState(cur, st.oldWt)
  }

  /** The state after position i; the first position seeds it with weight 1. */
  function EwmStateAt(x: Series, alpha: real, i: nat): (r: EwmState)
    requires 0.0 < alpha <= 1.0 && i < |x|
    ensures r.oldWt >= 0.0
    ensures (r.weighted.None? || x[i].Some?) ==> r.oldWt == 1.0
    ensures x[i].Some? ==> r.weighted.Some?
  {
    if i == 0 then EwmState(x[0], 1.0)
    else EwmStep(alpha, EwmStateAt(x, alpha, i - 1), x[i])
  }

  function Ema(x: Series, w: nat): (r: Series)
    requires w >= 1
    ensures |r| == |x|
    ensures |x| > 0 ==> r[0] == x[0]
  {
    seq(|x|, i requires 0 <= i < |x| => EwmStateAt(x, Alpha(w), i).weighted)
  }

  /** The average is defined from the first observation onwards and nowhere before. */
  lemma {:induction false} EmaDefined(x: Series, w: nat, i: nat)
    requires w >= 1 && i < |x|
    ensures Ema(x, w)[i].Some? <==> exists j :: 0 <= j <= i && x[j].Some?
  {
    if i > 0 {
      EmaDefined(x, w, i - 1);
      if Ema(x, w)[i].Some? && x[i].None? {
        var j :| 0 <= j <= i - 1 && x[j].Some?;
        assert 0 <= j <= i;
      }
      if x[i].None? && exists j :: 0 <= j <= i && x[j].Some? {
        var j :| 0 <= j <= i && x[j].Some?;
        assert j <= i - 1;
      }
    } else if exists j :: 0 <= j <= i && x[j].Some? {
      var j :| 0 <= j <= i && x[j].Some?;
      assert j == 0;
    }
  }

  /** A series without missing values has an average at every position. */
  lemma EmaAllPresent(x: Series, w: nat)
    requires w >= 1 && AllPresent(x)
    ensures AllPresent(Ema(x, w))
  {
    forall i | 0 <= i < |x|
      ensures Ema(x, w)[i].Some?
    {
      EmaDefined(x, w, i);
    }
  }

  /** From a fresh weight of 1, an observation is averaged in with weight alpha
      against weight 1 - alpha. */
  lemma StepFromObservation(alpha: real, st: EwmState, v: real)
    requires 0.0 < alpha <= 1.0 && st.weighted.Some? && st.oldWt == 1.0
    ensures EwmStep(alpha, st, Some(v)).weighted == Some(Smooth(alpha, v, st.weighted.value))
  {
    var o := Decay(alpha, st.oldWt);
    assert o == 1.0 - alpha;
    assert EwmStep(alpha, st, Some(v)).weighted == Some(Blend(o, alpha, st.weighted.value, v));
    BlendWithoutGap(o, alpha, st.weighted.value, v);
  }

  lemma BlendWithoutGap(o: real, a: real, p: real, v: real)
    requires o == 1.0 - a
    ensures Blend(o, a, p, v) == Smooth(a, v, p)
  {
  }

  lemma EwmStateAtStep(x: Series, alpha: real, i: nat)
    requires 0.0 < alpha <= 1.0 && 0 < i < |x|
    ensures EwmStateAt(x, alpha, i) == EwmStep(alpha, EwmStateAt(x, alpha, i - 1), x[i])
  {
  }

  lemma EwmObservedStep(x: Series, alpha: real, i: nat)
    requires 0.0 < alpha <= 1.0 && 0 < i < |x|
    requires x[i - 1].Some? && x[i].Some?
    ensures EwmStateAt(x, alpha, i - 1).weighted.Some?
    ensures EwmStateAt(x, alpha, i).weighted ==
            Some(Smooth(alpha, x[i].value, EwmStateAt(x, alpha, i - 1).weighted.value))
  {
    EwmStateAtStep(x, alpha, i);
    var prev := EwmStateAt(x, alpha, i - 1);
    var v := x[i].value;
    StepFromObservation(alpha, prev, v);
    assert x[i] == Some(v);
    assert EwmStateAt(x, alpha, i).weighted == EwmStep(alpha, prev, Some(v)).weighted;
  }

  /** Between two consecutive observations the textbook recurrence holds:
      ema[i] = alpha * x[i] + (1 - alpha) * ema[i - 1]. */
  lemma EmaRecurrence(x: Series, w: nat, i: nat)
    requires w >= 1 && 0 < i < |x|
    requires x[i - 1].Some? && x[i].Some?
    ensures Ema(x, w)[i - 1].Some? && Ema(x, w)[i].Some?
    ensures Ema(x, w)[i].value == Smooth(Alpha(w), x[i].value, Ema(x, w)[i - 1].value)
  {
    EwmObservedStep(x, Alpha(w), i);
  }

  /** The weighted update is a convex combination of the old value and the new one. */
  lemma ConvexLower(o: real, a: real, w: real, v: real, lo: real)
    requires o >= 0.0 && a > 0.0 && lo <= w && lo <= v
    ensures lo <= Blend(o, a, w, v)
  {
    MulMono(o, lo, w);
    MulMono(a, lo, v);
    Distribute(o, a, lo);
    DivLower(o * w + a * v, o + a, lo);
  }

  lemma ConvexUpper(o: real, a: real, w: real, v: real, hi: real)
    requires o >= 0.0 && a > 0.0 && w <= hi && v <= hi
    ensures Blend(o, a, w, v) <= hi
  {
    MulMono(o, w, hi);
    MulMono(a, v, hi);
    Distribute(o, a, hi);
    DivUpper(o * w + a * v, o + a, hi);
  }

  /** One step keeps the state inside any range that holds the old value and the
      new observation. */
  lemma StepBounds(alpha: real, st: EwmState, cur: Option<real>, lo: real, hi: real)
    requires 0.0 < alpha <= 1.0 && st.oldWt >= 0.0
    requires st.weighted.Some? ==> lo <= st.weighted.value <= hi
    requires cur.Some? ==> lo <= cur.value <= hi
    ensures EwmStep(alpha, st, cur).weighted.Some? ==> lo <= EwmStep(alpha, st, cur).weighted.value <= hi
  {
    if st.weighted.Some? && cur.Some? {
      var o := Decay(alpha, st.oldWt);
      ConvexLower(o, alpha, st.weighted.value, cur.value, lo);
      ConvexUpper(o, alpha, st.weighted.value, cur.value, hi);
      assert EwmStep(alpha, st, cur).weighted == Some(Blend(o, alpha, st.weighted.value, cur.value));
    }
  }

  lemma {:induction false} EwmBounds(x: Series, alpha: real, i: nat, lo: real, hi: real)
    requires 0.0 < alpha <= 1.0 && i < |x|
    requires forall k :: 0 <= k <= i && x[k].Some? ==> lo <= x[k].value <= hi
    ensures EwmStateAt(x, alpha, i).weighted.Some? ==> lo <= EwmStateAt(x, alpha, i).weighted.value <= hi
  {
    if i > 0 {
      EwmBounds(x, alpha, i - 1, lo, hi);
      EwmStateAtStep(x, alpha, i);
      StepBounds(alpha, EwmStateAt(x, alpha, i - 1), x[i], lo, hi);
    }
  }

  /** The average never leaves the range of the observations seen so far. */
  lemma EmaBounds(x: Series, w: nat, i: nat, lo: real, hi: real)
    requires w >= 1 && i < |x|
    requires forall k :: 0 <= k <= i && x[k].Some? ==> lo <= x[k].value <= hi
    ensures Ema(x, w)[i].Some? ==> lo <= Ema(x, w)[i].value <= hi
  {
    EwmBounds(x, Alpha(w), i, lo, hi);
  }

  // ---------------------------------------------------------------------------
  // Rolling standard deviation

  /** The sample variance of the w positions ending at i, under the same window
      rule as the mean; a window of one value has none (ddof = 1). */
  function WindowVariance(x: Series, i: nat, w: nat): (r: Option<real>)
    requires w >= 1 && i < |x|
    ensures r.Some? <==> 2 <= w <= i + 1 && AllPresent(x[i + 1 - w .. i + 1])
    ensures r.Some? ==> r.value >= 0.0
  {
    if i + 1 < w then None
    else
      var win := x[i + 1 - w .. i + 1];
      if AllPresent(win) then SampleVariance(Values(win)) else None
  }

  function RollingStd(x: Series, w: nat, sqrt: real -> real): (r: Series)
    requires w >= 1
    ensures |r| == |x|
    ensures forall i :: 0 <= i < |x| ==> (r[i].Some? <==> 2 <= w <= i + 1 && AllPresent(x[i + 1 - w .. i + 1]))
  {
    seq(|x|, i requires 0 <= i < |x| =>
      match WindowVariance(x, i, w)
      case Some(v) => Some(sqrt(v))
      case None => None)
  }

  /** Where defined, the rolling deviation is non-negative and squares to the
      window's sample variance. */
  lemma RollingStdSquare(x: Series, w: nat, sqrt: real -> real, i: nat)
    requires w >= 1 && i < |x| && IsSqrt(sqrt)
    requires RollingStd(x, w, sqrt)[i].Some?
    ensures WindowVariance(x, i, w).Some?
    ensures var s := RollingStd(x, w, sqrt)[i].value;
            s >= 0.0 && s * s == WindowVariance(x, i, w).value
  {
  }
}
