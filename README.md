# PyFinance transformation core in Dafny

This project models the transformation core of the PyFinance pipeline
(`data_pipeline.py`) and proves properties of it.

- Outlier removal: a per-column z-score mask, then a forward fill, applied to
  each ticker on its own.
- Four technical indicators over a ticker's closing prices: the 20-day simple
  moving average, the 20-day exponential moving average, Bollinger bands and
  the 14-day relative strength index.
- `apply_transformations`: it walks over the tickers and writes the five
  derived columns into the shared price table in place.

Numbers are `real`. A missing value (pandas NaN) is `None` of
`Option<real>`. A series is `seq<Option<real>>`.

The modules:

- `Series` (series.dfy): sums, means, the sample variance (ddof = 1), the
  square-root contract `IsSqrt`, and forward fill.
- `Floats` (floats.dfy): the part of IEEE arithmetic the source depends on.
  It covers finite values, the two infinities and NaN under addition,
  division, absolute value and `<=`.
- `Rolling` (rolling.dfy): `rolling(w).mean()`, `ewm(span=w, adjust=False).mean()`
  and `rolling(w).std()`.
- `Indicators` (indicators.dfy): `calculate_bollinger_bands` and `calculate_rsi`.
- `Outliers` (outliers.dfy): `remove_outliers`, written as a method over an
  array of columns, and its per-ticker application.
- `Transform` (transform.dfy): the shared table as a class, and
  `apply_transformations` as a method whose loop runs over the tickers.
- `Samples` (samples.dfy): the values the unit tests check for the sample
  closing prices 120..129.

The exponential average follows pandas' own algorithm for `adjust=False`.
The old value's weight decays at every position, including missing ones. An
observation is averaged in against that decayed weight and resets it to 1.
Without gaps this is the textbook recurrence, and `EmaRecurrence` proves it.

The RSI chain computes `avg_gain / avg_loss` in IEEE terms, then
`100 - 100/(1 + rs)`. Infinities and NaN are then replaced by NaN, and NaN
by 0. `RsiValue` states that this chain equals an exact case split:
- `100 - 100/(1 + g/l)` when the average loss is positive;
- 100 for gains without losses;
- 0 for no movement at all.

Two consequences of the z-score test are easy to mistake, and the model
follows the code in both:

- A numeric column whose sample deviation is 0, or that has fewer than two
  observed values, has a NaN or infinite z-score for every value. The
  comparison `<= threshold` is false for all of them, so the code masks the
  entire column. A z-score filter is commonly expected to leave a column
  without spread alone, with nothing to call an outlier; this code does not.
  `NoSpreadMasksAll` and `ConstantColumnVanishes` prove what the code does.
- One might expect the spike 1000 in the column [10, 10, 10, 1000, 10, 10] to
  be masked at threshold 3. The column's mean is 175 and its
  sample variance is 163350, so the spike's z-score is about 2.04 and the
  code keeps it. No value of any six-value column can reach |z| > 3, since |z| <= (n - 1) / sqrt(n), about 2.04 for n = 6 (Samuelson's inequality; this bound is not proved here).
  `SpikeNotMasked` proves that the mask leaves this column unchanged.

## Model

| member | source | states |
|---|---|---|
| Series.SampleVariance | data_pipeline.py:50 | the ddof = 1 variance exists exactly for two or more values and is never negative |
| Series.VarianceOfConstant | data_pipeline.py:49-50 | a column of one repeated value has that value as mean and sample variance 0 |
| Series.MeanBounds | data_pipeline.py:74 | a mean lies between any lower and upper bound of the averaged values |
| Series.MeanSign | data_pipeline.py:101-102 | a mean of non-negative values is non-negative, positive if one value is positive, 0 if all are 0 |
| Series.FFill | data_pipeline.py:54 | forward fill keeps present values, copies the previous result into a gap and leaves a leading gap missing |
| Series.FFillNearest | data_pipeline.py:54 | a filled gap holds the nearest earlier present value |
| Series.FFillLeading | data_pipeline.py:54 | gaps before the first present value stay missing |
| Series.FFillPresent | data_pipeline.py:54 | a position is present after the fill iff some value at or before it was present |
| Series.FFillIdempotent | data_pipeline.py:54 | filling a filled series changes nothing |
| Rolling.WindowMean | data_pipeline.py:74 | the mean at i exists iff the w positions ending at i exist and none is missing; the value times w is their sum |
| Rolling.Sma | data_pipeline.py:73-74 | same length; a position is defined iff a complete window ends there and none of its values is missing; the value times w is the window's sum |
| Rolling.SmaIsMean | data_pipeline.py:73-74 | a defined position is the mean of the w values ending there |
| Rolling.SmaSlide | data_pipeline.py:73-74 | between two complete windows the average moves by (entering - leaving) / w |
| Rolling.WindowSumSlide | data_pipeline.py:73-74 | the sum of a window slid by one gains the entering value and loses the leaving one |
| Rolling.SmaBounds | data_pipeline.py:73-74 | the average of a window lies within any bounds of that window's values |
| Rolling.Alpha | data_pipeline.py:80 | the smoothing factor 2 / (span + 1) lies in (0, 1] |
| Rolling.EwmStep | data_pipeline.py:80 | one step of the adjust=False average: a value exists after the step iff one existed before or one is observed, and the weight stays non-negative |
| Rolling.EwmStateAt | data_pipeline.py:80 | an observation always leaves a value and resets the weight to 1 |
| Rolling.Ema | data_pipeline.py:79-80 | same length, and the first position equals the first input |
| Rolling.EmaDefined | data_pipeline.py:79-80 | a position is defined iff some input at or before it is present |
| Rolling.EmaAllPresent | data_pipeline.py:79-80 | a series without missing values has an average at every position |
| Rolling.EmaRecurrence | data_pipeline.py:79-80 | between two observations, ema[i] = alpha x[i] + (1 - alpha) ema[i-1] |
| Rolling.StepFromObservation | data_pipeline.py:80 | after an observation, the next observation is blended with weights alpha and 1 - alpha |
| Rolling.StepBounds | data_pipeline.py:80 | one step stays inside any range holding the old value and the new observation |
| Rolling.EwmBounds | data_pipeline.py:80 | the running value stays within any bounds of the observations seen so far |
| Rolling.EmaBounds | data_pipeline.py:79-80 | the average never leaves the range of the observations before it |
| Rolling.WindowVariance | data_pipeline.py:87 | the window's sample variance exists iff w >= 2, the window is complete and none of its values is missing; it is never negative |
| Rolling.RollingStd | data_pipeline.py:87 | same length; defined exactly where the window variance is |
| Rolling.RollingStdSquare | data_pipeline.py:87 | where defined, the deviation is non-negative and squares to the window's variance |
| Indicators.Shift | data_pipeline.py:88-89 | a band value is defined iff both the average and the deviation are |
| Indicators.BollingerBands | data_pipeline.py:85-90 | both bands have the input's length; upper is defined iff the SMA and the rolling std are; lower is defined iff upper is; upper + lower = 2 sma |
| Indicators.BandsDefined | data_pipeline.py:85-90 | the bands are defined iff w >= 2 and a complete window without missing values ends there, so never in the first w - 1 positions |
| Indicators.BandsOrder | data_pipeline.py:85-90 | lower <= sma <= upper, and (upper - sma)^2 = 4 times the window variance |
| Indicators.ConstantWindowBands | data_pipeline.py:85-90 | a constant window collapses both bands onto the constant |
| Indicators.Delta | data_pipeline.py:96 | same length; the first delta is missing, and later ones are defined iff both neighbours are, equal to their difference |
| Indicators.GainLossSplit | data_pipeline.py:97-98 | gain and loss are non-negative, at most one is non-zero, their difference is the move, and a missing move gives 0 for both |
| Indicators.Gains | data_pipeline.py:97 | same length; every gain is non-negative and present |
| Indicators.Losses | data_pipeline.py:98 | same length; every loss is non-negative and present |
| Indicators.Gain | data_pipeline.py:97 | a gain is never negative, and positive exactly for a present positive move |
| Indicators.Loss | data_pipeline.py:98 | a loss is never negative, and positive exactly for a present negative move |
| Indicators.TrailingMean | data_pipeline.py:101-102 | the min_periods = 1 mean at i times its number of entries is the sum of the trailing entries |
| Indicators.TrailingStart | data_pipeline.py:101-102 | the min_periods = 1 window ending at i holds min(i + 1, w) entries |
| Indicators.TrailingMeanNonNegative | data_pipeline.py:101-102 | the trailing mean of non-negative values is non-negative |
| Indicators.AvgGain | data_pipeline.py:101 | the average gain is never negative |
| Indicators.AvgLoss | data_pipeline.py:102 | the average loss is never negative |
| Indicators.RsiFormula | data_pipeline.py:108 | 100 - 100 / (1 + RS) in floating point; its cases are FormulaFinite, FormulaInfinite and FormulaNaN |
| Indicators.FormulaFinite | data_pipeline.py:108 | a finite non-negative RS passes through 100 - 100/(1 + RS) as the exact value |
| Indicators.FormulaInfinite | data_pipeline.py:108 | an infinite RS gives exactly 100, since 100 / inf is 0 |
| Indicators.FormulaNaN | data_pipeline.py:108 | a NaN RS gives NaN |
| Indicators.Patch | data_pipeline.py:111 | a finite value is kept; an infinity or NaN becomes 0 |
| Indicators.RsiValue | data_pipeline.py:105-111 | dividing the averages, applying the formula and patching gives 100 - 100/(1 + g/l) for a positive average loss, 100 for gains without losses, and 0 when both averages are 0 |
| Indicators.RsiValueCases | data_pipeline.py:105-111 | the floating-point index equals the reference RsiShare, the same case split in exact arithmetic |
| Indicators.ShareRange | data_pipeline.py:105-111 | the index lies in [0, 100], satisfies rsi (g + l) = 100 g when there was movement, and is 0 otherwise |
| Indicators.RsiArithmetic | data_pipeline.py:105-108 | with a positive average loss, the formula stays in (0, 100] and times (g + l) gives 100 g |
| Indicators.RsiValueRange | data_pipeline.py:105-111 | the patched index lies in [0, 100] |
| Indicators.RsiPoint | data_pipeline.py:95-113 | the index at each position lies in [0, 100] |
| Indicators.Rsi | data_pipeline.py:95-113 | same length, no position missing, every value in [0, 100] |
| Indicators.RsiAt | data_pipeline.py:95-113 | each position is the exact case split on its trailing average gain and loss |
| Indicators.RsiFirstIsZero | data_pipeline.py:95-113 | the first position is 0: its gain and loss are 0 and the 0/0 is filled with 0 |
| Indicators.RsiConstantIsZero | data_pipeline.py:95-113 | a flat series gives 0 everywhere |
| Indicators.RsiRisingIs100 | data_pipeline.py:95-113 | a strictly rising series gives 100 at every position after the first |
| Outliers.CountPresent | data_pipeline.py:49-50 | the number of present cells is at most the column's length |
| Outliers.Observed | data_pipeline.py:49-50 | the values pandas' mean and std reach by skipping missing ones: exactly one per present cell, in order (ObservedAt) and nothing else (ObservedPresent) |
| Outliers.ObservedAt | data_pipeline.py:49-50 | the value of a present cell i is observed at the index counting the present cells before i |
| Outliers.ObservedPresent | data_pipeline.py:49-50 | every observed value is the value of some present cell |
| Outliers.ObservedAllPresent | data_pipeline.py:49-50 | for a column without missing values the observed values are all its values |
| Outliers.ObservedFrom | data_pipeline.py:49-50 | a column whose present values all equal c observes only c |
| Outliers.ColumnMean | data_pipeline.py:49 | the skip-NaN mean exists iff some value is present |
| Outliers.ColumnVariance | data_pipeline.py:50 | the skip-NaN sample variance exists iff two or more values are present, and is never negative |
| Outliers.ColumnStd | data_pipeline.py:50 | the deviation exists exactly where the variance does |
| Outliers.ZScore | data_pipeline.py:51 | (v - mean) / std in floating point; its cases are ZScoreMissing, ZScoreFinite and ZScoreZeroSpread |
| Outliers.ZScoreMissing | data_pipeline.py:51-53 | without a mean or a deviation the z-score is NaN and the value is masked |
| Outliers.ZScoreFinite | data_pipeline.py:51 | with a non-zero deviation the z-score is (v - mean) / std |
| Outliers.ZScoreZeroSpread | data_pipeline.py:51 | with a zero deviation the z-score is NaN at the mean and an infinity of the sign of v - mean elsewhere |
| Outliers.Keep | data_pipeline.py:53 | np.abs(z) <= threshold, false for a NaN z; stated by KeepIff and ZScoreMissing |
| Outliers.KeepIff | data_pipeline.py:51-53 | with a deviation s, a value is kept iff s > 0 and abs(v - mean) <= threshold s |
| Outliers.SquaredTest | data_pipeline.py:51-53 | the test abs(v - mean) <= t s is the squared test t >= 0 and (v - mean)^2 <= t^2 var |
| Outliers.MaskCells | data_pipeline.py:51-53 | same length, and each cell is left as it was or made missing |
| Outliers.MaskedCell | data_pipeline.py:48-53 | a cell survives iff it is present, the column has a deviation s > 0, and abs(v - mean) <= threshold s |
| Outliers.MaskedCellSquared | data_pipeline.py:48-53 | a cell survives iff it is present, the variance is positive, the threshold is non-negative and (v - mean)^2 <= t^2 var |
| Outliers.NoSpreadMasksAll | data_pipeline.py:50-53 | with no variance or variance 0, every cell of the column is masked |
| Outliers.ConstantColumnMasked | data_pipeline.py:48-53 | a column of one repeated value is masked entirely |
| Outliers.MaskColumn | data_pipeline.py:47-53 | a numeric column keeps its name and length; any other column is untouched |
| Outliers.FillColumn | data_pipeline.py:54 | forward fill keeps every column's name, kind and length |
| Outliers.MaskFrame | data_pipeline.py:47-53 | masking every column, as RemoveOutliers' loop does, keeps the number of columns |
| Outliers.FillFrame | data_pipeline.py:54 | the frame-wide fill keeps the number of columns |
| Outliers.RemoveOutliers | data_pipeline.py:46-54 | the array afterwards holds every column masked by its own test, and the result is that frame forward-filled |
| Outliers.Cleaned | data_pipeline.py:54 | the cleaned frame has as many columns as the input, with the same names and kinds |
| Outliers.CleanedShape | data_pipeline.py:46-54 | the cleaned frame has the same columns, names, kinds and lengths |
| Outliers.TextColumnOnlyFilled | data_pipeline.py:47-54 | a non-numeric column is not masked, only forward-filled |
| Outliers.CleanedKept | data_pipeline.py:53-54 | a value that passes the test is in the output unchanged |
| Outliers.CleanedFilled | data_pipeline.py:53-54 | a masked or missing cell holds the nearest earlier value that survived the mask |
| Outliers.CleanedLeading | data_pipeline.py:54 | cells before the first surviving value stay missing |
| Outliers.ColumnIndependence | data_pipeline.py:47-53 | a column's cleaned values depend only on that column |
| Outliers.ConstantColumnVanishes | data_pipeline.py:48-54 | a zero-spread numeric column comes out entirely missing |
| Outliers.SpikeColumn | data_pipeline.py:46-54 | the spike example is six present values |
| Outliers.SpikeSums | data_pipeline.py:49-50 | the spike column sums to 1050 and has squared deviation 816750 around 175 |
| Outliers.SpikeNotMasked | data_pipeline.py:46-54 | the spike column has mean 175 and variance 163350, and with threshold 3 nothing is masked |
| Outliers.CleanByTicker | data_pipeline.py:58-59 | every ticker gets a cleaned frame with the same number of columns |
| Outliers.TickerIsolation | data_pipeline.py:58-59 | a ticker's cleaned frame depends only on that ticker's own frame |
| Samples.SampleClose | test_data_pipeline.py:13-16 | the sample closes are 120, 121, ..., 129 |
| Samples.SampleSma | test_data_pipeline.py:18-20 | the last 5-day SMA of the sample is 127 |
| Samples.SampleEma | test_data_pipeline.py:22-25 | the 5-day EMA of the sample has no missing position |
| Samples.SampleRsi | test_data_pipeline.py:27-30 | the 14-day RSI of the sample is 0 at the first position and 100 at the others, all in [0, 100] |
| Transform.DerivedSeries | data_pipeline.py:120-126 | five derived series, each as long as the closing prices |
| Transform.DerivedNamesDistinct | data_pipeline.py:120-126 | the five column names differ from each other and from Close |
| Transform.WithColumn | data_pipeline.py:120 | assigning to a column adds it at the end if new; the old order is a prefix |
| Transform.WithColumns | data_pipeline.py:120-126 | the column order after assigning to several columns in turn; stated by WithColumnsShape, WithColumnsPresent and WithColumnsIdempotent |
| Transform.WithColumnsShape | data_pipeline.py:120-126 | the old columns stay first and in order, exactly the new names are added, without duplicates |
| Transform.WithColumnsPresent | data_pipeline.py:120-126 | assigning only to existing columns leaves the order alone |
| Transform.WithColumnsIdempotent | data_pipeline.py:118-127 | a second run adds no further columns |
| Transform.Unset | data_pipeline.py:120 | a column created by a partial assignment is missing for every ticker |
| Transform.Assign | data_pipeline.py:120 | the cells after data.loc[tk, col] = s; stated by AssignEffect and AssignShaped |
| Transform.AssignEffect | data_pipeline.py:120 | data.loc[tk, col] = s adds col if needed, sets tk's slice of col to s, keeps every other column and every other ticker's slice, and fills a new column with NaN for the others |
| Transform.AssignAll | data_pipeline.py:120-126 | the cells after the five assignments of one pass, in order; stated by AssignAllKeys and AssignAllEffect |
| Transform.AssignAllKeys | data_pipeline.py:120-126 | after the assignments the columns are exactly the old ones and the assigned names |
| Transform.AssignShaped | data_pipeline.py:120 | a slice assignment of the right length keeps every column defined for every ticker with that ticker's length |
| Transform.AssignAllEffect | data_pipeline.py:120-126 | the five assignments set the ticker's slices, keep every other column and every other ticker's rows, and new columns are missing for other tickers |
| Transform.PassPreserves | data_pipeline.py:119-126 | one pass completes its ticker, keeps the finished ones, and keeps every other column |
| Transform.CloseKept | data_pipeline.py:119-126 | the loop never overwrites the closing prices |
| Transform.ProgressStep | data_pipeline.py:119-126 | one pass moves its ticker from the set still to do into the set done, keeping the loop invariant |
| Transform.ProgressDone | data_pipeline.py:118-127 | once every ticker is done, all derived columns are written and the order and other columns are as promised |
| Transform.Table.SetSlice | data_pipeline.py:120 | for data.loc[tk, col] = s: the ticker's slice of the column becomes s, a new column is appended and is missing for the others, and the shape is kept |
| Transform.Table.WriteIndicators | data_pipeline.py:120-126 | one loop body: the five columns of one ticker are set from its own closing prices |
| Transform.Table.Pass | data_pipeline.py:119-126 | one loop pass keeps the table's shape and the progress invariant with one ticker fewer to do |
| Transform.Table.ApplyTransformations | data_pipeline.py:118-127 | each ticker's five derived columns are the indicators of its own closing prices; every other column is unchanged; the columns are appended in order; a table without tickers is left alone |

## Left out

- `fetch_data` and its download are left out. They are network I/O and printing.
- The module-level script is left out: concatenation into a MultiIndex, timestamp re-levelling, renaming, `reset_index`, date conversion and the database calls. It is index plumbing and persistence.
- db_operations.py, dashboard.py and the database tests in test_data_pipeline.py are not part of this model. They are SQLite, Dash and file I/O.
- IEEE rounding is not modelled: every number is an exact `real`. Likewise signed zero and overflow. The `Floats` datatype keeps only the infinities and NaN, which the RSI patching and the z-score test depend on.
- `sqrt` is a parameter `real -> real`, not a computed function. Every property that needs its meaning requires `IsSqrt(sqrt)`: sqrt(0) = 0, and a positive argument has a positive root whose square is the argument.
- pandas' dtype selection is reduced to numeric columns versus all others, with no distinction between int64 and float64.
- Rolling.Sma, Rolling.RollingStd and Indicators.BollingerBands require a window of at least 1. For a window of 0 pandas returns an all-missing SMA and all-missing bands, which the model does not cover. Every call in the source passes 20, 14 or 5 (data_pipeline.py:120-126, test_data_pipeline.py:19-28).
- Rolling.Ema and Indicators.Rsi require a span or window of at least 1. For 0, `ewm(span=0)` and `rolling(0, min_periods=1)` raise, and the model leaves the exception out.
- Transform.Table.ApplyTransformations requires a Close column when the table has tickers, where pandas raises a KeyError. A table without tickers is returned unchanged, with or without Close.
- Transform.Table.ApplyTransformations abstracts the order of the tickers. The loop picks any remaining ticker, and the result does not depend on the order. The source follows groupby's sorted order.
- `data.loc[ticker, col] = series` is modelled as positional within the ticker's rows. pandas aligns on the (ticker, date) index, and here the series comes from that same ticker's rows.
- The groupby in `apply_transformations` reads each ticker's Close column. The model reads the Close column of the table, which the loop never changes (CloseKept).
- Outliers.RemoveOutliers works on a frame as an array of columns, each with its own sequence of cells, so pandas' row index is not modelled.
- Outliers.CleanByTicker returns the cleaned frames per ticker. The re-concatenation with `group_keys=False` into one table is index plumbing and is left out.
