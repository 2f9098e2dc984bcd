# Median-latency regression verdict

A Dafny model of the median-latency report question of Flask-MonitoringDashboard
(`flask_monitoringdashboard/core/reporting/questions/median_latency.py`).
Given the request latencies of one endpoint over a *comparison interval* and
over a *compared-to interval*, `MedianLatency.get_answer`:

1. returns a non-significant answer holding only the two raw samples when
   either sample is empty;
2. otherwise takes the median of each sample (`np.median`);
3. computes the relative change of the comparison median against the
   compared-to median, in percent;
4. declares the change significant exactly when it is non-zero and the p-value
   of Mood's median test is below 0.05.

The result is a `MedianLatencyAnswer` record, whose `meta()` groups the samples
under `latencies_sample` and lists the medians and the change as flat entries.

Files:

- `wrappers.dfy` (module `Wrappers`): `Option` for Python's `None`, `Result`
  for an answer or a raised exception.
- `sample_median.dfy` (module `SampleMedian`): the order-statistic median.
  `Median(s)` sorts the sample (insertion sort, `Sort`) and takes the middle
  value, or the mean of the two middle values for even length. Its contract
  says exactly that, for every ascending ordering of the sample, and also that
  at most half of the observations lie strictly below it and at most half
  strictly above it (a bound that fixes the value for odd length only).
  Lemmas show it ignores element order and is bounded by the observations.
- `median_latency.dfy` (module `MedianLatency`): the answer record as the
  datatype `Answer` (constructor `MedianLatencyAnswer`, with the source's
  `None` defaults), `Meta`, the percentual change, the significance rule, and
  `Evaluate`, which is `get_answer` once the two samples have been fetched.

Lines 74-78 do not guard the division. When the compared-to median is 0.0,
the float division raises `ZeroDivisionError`, and `Evaluate` returns
`Failure(ZeroDivisionError)` exactly then (`ZeroMedianExample` shows this for
the samples `[50, 60, 55]` and `[0, 0, 0]`).

Latencies are `real`. The p-value is a parameter `p` of `Evaluate`, standing
for what `median_test` returns for the two samples. Nothing is assumed about
it: the rule only compares it with 0.05.

## Model

| member | source | states |
|---|---|---|
| `MedianLatency.Evaluate` | flask_monitoringdashboard/core/reporting/questions/median_latency.py:58-95 | fails exactly when both samples are non-empty and the compared-to median is 0; every answer keeps both samples unchanged; with an empty sample the answer is not significant and has no medians and no change; otherwise the medians are the samples' medians, the change is their percentual difference, and the answer is significant exactly when the medians differ and p < 0.05 |
| `MedianLatency.EmptySampleIsInconclusive` | flask_monitoringdashboard/core/reporting/questions/median_latency.py:58-69 | with either sample empty, the outcome is the non-significant answer holding just the two samples, whatever the other sample holds |
| `MedianLatency.EmptyIntervalExample` | flask_monitoringdashboard/core/reporting/questions/median_latency.py:58-69 | samples `[]` and `[100, 200]` give a non-significant answer that keeps both samples and nothing else |
| `MedianLatency.SignificantHasEvidence` | flask_monitoringdashboard/core/reporting/questions/median_latency.py:84 | a significant answer always has both medians, a non-zero change and p below the level |
| `MedianLatency.PercentualDiff` | flask_monitoringdashboard/core/reporting/questions/median_latency.py:74-78 | scaling the compared-to median by 1 + d/100 gives the comparison median back; the change is 0 exactly when the medians are equal; for a positive compared-to median its sign is that of the difference of the medians |
| `MedianLatency.PercentualDiffIsRatio` | flask_monitoringdashboard/core/reporting/questions/median_latency.py:74-78 | 100 plus the change is 100 times the ratio of the two medians |
| `MedianLatency.PercentualDiffReciprocal` | flask_monitoringdashboard/core/reporting/questions/median_latency.py:74-78 | exchanging the medians turns 1 + d/100 into its reciprocal |
| `MedianLatency.PercentualDiffAtLeastMinus100` | flask_monitoringdashboard/core/reporting/questions/median_latency.py:74-78 | a non-negative comparison median is never more than 100 percent below a positive compared-to median |
| `MedianLatency.ZeroMedianExample` | flask_monitoringdashboard/core/reporting/questions/median_latency.py:74-78 | samples `[50, 60, 55]` and `[0, 0, 0]` end in `ZeroDivisionError` |
| `MedianLatency.IsSignificantChange` | flask_monitoringdashboard/core/reporting/questions/median_latency.py:84 | `abs(diff) > 0 and p < 0.05` holds exactly when the change is non-zero and p is below 0.05 |
| `MedianLatency.SameObservationsNeverSignificant` | flask_monitoringdashboard/core/reporting/questions/median_latency.py:71-84 | two samples with the same observations, in any order, are never significant for any p, and their change is 0 |
| `MedianLatency.EvaluateIgnoresOrder` | flask_monitoringdashboard/core/reporting/questions/median_latency.py:58-95 | reordering either sample changes nothing in the outcome except the stored samples |
| `MedianLatency.SwapSamples` | flask_monitoringdashboard/core/reporting/questions/median_latency.py:74-84 | swapping the samples with the same p keeps the verdict; the two changes are reciprocal ratios, and with positive medians they have opposite signs |
| `MedianLatency.NonNegativeLatenciesBoundDiff` | flask_monitoringdashboard/core/reporting/questions/median_latency.py:71-78 | with non-negative comparison latencies and a positive compared-to median, the model's answer exists and its change is at least -100 percent |
| `MedianLatency.ConstantSamples` | flask_monitoringdashboard/core/reporting/questions/median_latency.py:71-95 | samples that repeat one latency each have those latencies as medians, and are significant exactly when the latencies differ and p < 0.05 |
| `MedianLatency.RegressionExample` | flask_monitoringdashboard/core/reporting/questions/median_latency.py:71-95 | twenty requests at 500 against twenty at 100, with p < 0.05, give a significant 400 percent increase with medians 500 and 100 |
| `MedianLatency.Answer.Type` | flask_monitoringdashboard/core/reporting/questions/median_latency.py:23 | the answer's type tag is `MEDIAN_LATENCY` |
| `MedianLatency.Answer.IsSignificant` | flask_monitoringdashboard/core/reporting/questions/median_latency.py:44-45 | returns the stored verdict |
| `MedianLatency.Answer.Meta` | flask_monitoringdashboard/core/reporting/questions/median_latency.py:33-42 | the dictionary has exactly the keys `latencies_sample`, `comparison_median`, `compared_to_median` and `percentual_diff`, and `latencies_sample` is a dictionary with exactly the keys `comparison_interval` and `compared_to_interval` |
| `MedianLatency.MetaRoundTrip` | flask_monitoringdashboard/core/reporting/questions/median_latency.py:33-45 | reading the `meta()` dictionary back, with `is_significant()`, gives the same answer: each entry is the stored field, nothing dropped or altered |
| `MedianLatency.VerdictOnlyAnswer` | flask_monitoringdashboard/core/reporting/questions/median_latency.py:14-31 | an answer built from the flag alone has every other field `None`, and `is_significant()` returns that flag |
| `SampleMedian.Median` | flask_monitoringdashboard/core/reporting/questions/median_latency.py:71-72 | for every ascending ordering of the sample, the median is its middle value, or the mean of its two middle values for even length; at most half of the sample lies strictly below the median and at most half strictly above it |
| `SampleMedian.Sort` | flask_monitoringdashboard/core/reporting/questions/median_latency.py:71-72 | the sorted sample is in ascending order and has the same observations |
| `SampleMedian.SortedUnique` | flask_monitoringdashboard/core/reporting/questions/median_latency.py:71-72 | two ascending sequences with the same observations are equal, so the sorted sample is unique |
| `SampleMedian.MedianPermutationInvariant` | flask_monitoringdashboard/core/reporting/questions/median_latency.py:71-72 | the median does not depend on the order of the observations |
| `SampleMedian.MedianOfReordering` | flask_monitoringdashboard/core/reporting/questions/median_latency.py:71-72 | the median of any ordering of a sorted sequence is its middle value, or the mean of its two middle values |
| `SampleMedian.MedianSingleton` | flask_monitoringdashboard/core/reporting/questions/median_latency.py:71-72 | the median of a one-element sample is that element |
| `SampleMedian.MedianOfThree` | flask_monitoringdashboard/core/reporting/questions/median_latency.py:71-72 | any ordering of a <= b <= c has median b, so the median of `[3, 1, 2]` is 2 |
| `SampleMedian.MedianOfFour` | flask_monitoringdashboard/core/reporting/questions/median_latency.py:71-72 | any ordering of a <= b <= c <= d has median (b + c) / 2, so the median of `[4, 1, 3, 2]` is 2.5 |
| `SampleMedian.MedianAtLeast` | flask_monitoringdashboard/core/reporting/questions/median_latency.py:71-72 | the median is at least any lower bound of all observations |
| `SampleMedian.MedianAtMost` | flask_monitoringdashboard/core/reporting/questions/median_latency.py:71-72 | the median is at most any upper bound of all observations |
| `SampleMedian.MedianOfConstant` | flask_monitoringdashboard/core/reporting/questions/median_latency.py:71-72 | a sample of one repeated latency has that latency as its median |
| `SampleMedian.MedianOfOddIsObservation` | flask_monitoringdashboard/core/reporting/questions/median_latency.py:71-72 | a sample of odd length has one of its own observations as its median |

## Left out

- The database session and the two `get_latencies_sample` queries (lines 50-56): persistence and I/O. The samples are parameters of `Evaluate`.
- The computation inside `scipy.stats.median_test` (lines 80-82): a foreign call whose p-value comes from a chi-square distribution. Its result is the parameter `p`, used only in the `p < 0.05` rule.
- MedianLatency.Evaluate: returns an answer where `median_test` itself raises. With its default `ties='below'`, `median_test` raises `ValueError` when no observation of the two samples pooled together lies strictly above the pooled median (for example `[100]*4` against `[100]*4`, or `[500, 500, 500]` against `[100]`). On such inputs `get_answer` raises after the division, and the model does not capture that failure.
- MedianLatency.ConstantSamples: when `a == b`, or when the sample of the larger latency has more observations than the other (for example `[500, 500, 500]` against `[100]`), the pooled median is the larger latency and no pooled observation lies above it, so the program raises in `median_test` instead of returning the answer this lemma describes.
- MedianLatency.NonNegativeLatenciesBoundDiff: states that the model's answer exists; where no pooled observation lies strictly above the pooled median (for example `[500, 500, 500]` against `[100]`), the program raises in `median_test` instead, so only the bound on the change carries over to the program, for the inputs where it returns.
- MedianLatency.SameObservationsNeverSignificant: for samples where no pooled observation lies above the pooled median (constant samples among them), the program raises in `median_test` instead of returning the non-significant answer this lemma describes.
- Floating point: `float(np.median(...))`, the division and the comparisons use IEEE doubles in the source and exact reals here, so rounding, infinities and NaN are not modelled.
- The `Answer` and `ReportQuestion` base classes (lines 4-7) are not part of this model; the type tag passed to the base constructor at line 23 is the constant `AnswerType`.
- numpy arrays versus Python lists: both are `seq<real>` here.
