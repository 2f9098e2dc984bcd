/**
 * The median-latency report question: compares the latencies of one endpoint
 * over two intervals and decides whether the typical latency changed
 * significantly. The latency samples and the p-value of Mood's median test
 * come in as parameters; the database queries and the test itself are not
 * part of this model.
 */
module MedianLatency {
  import opened Wrappers
  import opened SampleMedian

  /** The type tag every median-latency answer passes to its base class. */
  const AnswerType: string := "MEDIAN_LATENCY"

  /** The fixed significance level that the p-value of the median test must fall below. */
  const SignificanceLevel: real := 0.05

  /** A value in the dictionary that `meta()` returns. */
  datatype MetaValue =
    | Dict(entries: map<string, MetaValue>)
    | Sample(sample: Option<seq<real>>)
    | Number(number: Option<real>)

  /**
   * The answer record. As in the source, every field except the verdict
   * defaults to `None`.
   */
  datatype Answer = MedianLatencyAnswer(
    isSignificant: bool,
    comparisonSample: Option<seq<real>> := None,
    comparedToSample: Option<seq<real>> := None,
    percentualDiff: Option<real> := None,
    comparisonMedian: Option<real> := None,
    comparedToMedian: Option<real> := None)
  {
    /** The type tag given to the base class. */
    function Type(): (t: string)
      ensures t == "MEDIAN_LATENCY"
    {
      AnswerType
    }

    /** The verdict the answer was built with. */
    function IsSignificant(): (b: bool)
      ensures b == isSignificant
    {
      isSignificant
    }

    /** The answer's details: both samples grouped under `latencies_sample`, the rest flat. */
    function Meta(): (m: map<string, MetaValue>)
      ensures m.Keys == {"latencies_sample", "comparison_median", "compared_to_median", "percentual_diff"}
      ensures m["latencies_sample"].Dict?
      ensures m["latencies_sample"].entries.Keys == {"comparison_interval", "compared_to_interval"}
    {
      map[
        "latencies_sample" := Dict(map[
          "comparison_interval" := Sample(comparisonSample),
          "compared_to_interval" := Sample(comparedToSample)]),
        "comparison_median" := Number(comparisonMedian),
        "compared_to_median" := Number(comparedToMedian),
        "percentual_diff" := Number(percentualDiff)]
    }
  }

  /** Reads a number entry of a `meta()` dictionary back; `None` when it is missing or not a number. */
  function NumberEntry(m: map<string, MetaValue>, key: string): Option<Option<real>> {
    if key in m && m[key].Number? then Some(m[key].number) else None
  }

  /** Reads a sample entry of a `meta()` dictionary back; `None` when it is missing or not a sample. */
  function SampleEntry(m: map<string, MetaValue>, key: string): Option<Option<seq<real>>> {
    if key in m && m[key].Sample? then Some(m[key].sample) else None
  }

  /**
   * Rebuilds an answer from its `meta()` dictionary and its verdict, the way a
   * consumer of the report reads it; `None` when an entry is missing or has
   * the wrong shape.
   */
  function AnswerFromMeta(m: map<string, MetaValue>, isSignificant: bool): Option<Answer> {
    if "latencies_sample" !in m || !m["latencies_sample"].Dict? then None
    else
      var samples := m["latencies_sample"].entries;
      match (SampleEntry(samples, "comparison_interval"), SampleEntry(samples, "compared_to_interval"),
             NumberEntry(m, "percentual_diff"), NumberEntry(m, "comparison_median"),
             NumberEntry(m, "compared_to_median"))
      case (Some(cs), Some(ts), Some(d), Some(cm), Some(tm)) =>
        Some(MedianLatencyAnswer(isSignificant, cs, ts, d, cm, tm))
      case _ => None
  }

  /** `meta()` carries every field but the verdict unchanged: together with the verdict it gives the answer back. */
  lemma MetaRoundTrip(a: Answer)
    ensures AnswerFromMeta(a.Meta(), a.IsSignificant()) == Some(a)
  {
  }

  /** An answer built from the verdict alone has every other field absent and reports that verdict. */
  lemma VerdictOnlyAnswer(isSignificant: bool)
    ensures var a := MedianLatencyAnswer(isSignificant);
      && a.IsSignificant() == isSignificant
      && a.comparisonSample == None && a.comparedToSample == None
      && a.percentualDiff == None && a.comparisonMedian == None && a.comparedToMedian == None
  {
  }

  /** The error `get_answer` raises. */
  datatype Error = ZeroDivisionError

  function Min(x: int, y: int): int {
    if x <= y then x else y
  }

  function Abs(x: real): real {
    if x < 0.0 then -x else x
  }

  /**
   * The relative change of the comparison median against the compared-to
   * median, in percent. Scaling the compared-to median by `1 + d / 100` gives
   * the comparison median back.
   */
  function PercentualDiff(comparisonMedian: real, comparedToMedian: real): (d: real)
    requires comparedToMedian != 0.0
    ensures comparedToMedian * (1.0 + d / 100.0) == comparisonMedian
    ensures d == 0.0 <==> comparisonMedian == comparedToMedian
    ensures comparedToMedian > 0.0 ==> (d > 0.0 <==> comparisonMedian > comparedToMedian)
    ensures comparedToMedian > 0.0 ==> (d < 0.0 <==> comparisonMedian < comparedToMedian)
  {
    (comparisonMedian - comparedToMedian) / comparedToMedian * 100.0
  }

  /** The change is 100 times the ratio of the medians, less 100. */
  lemma PercentualDiffIsRatio(comparisonMedian: real, comparedToMedian: real)
    requires comparedToMedian != 0.0
    ensures 100.0 + PercentualDiff(comparisonMedian, comparedToMedian) == 100.0 * (comparisonMedian / comparedToMedian)
  {
    var x, y := comparisonMedian, comparedToMedian;
    assert (x - y) / y == x / y - y / y;
    assert y / y == 1.0;
  }

  /** Exchanging the medians turns the ratio `1 + d / 100` into its reciprocal. */
  lemma PercentualDiffReciprocal(x: real, y: real)
    requires x != 0.0 && y != 0.0
    ensures (100.0 + PercentualDiff(x, y)) * (100.0 + PercentualDiff(y, x)) == 10000.0
  {
    PercentualDiffIsRatio(x, y);
    PercentualDiffIsRatio(y, x);
    var q := x / y;
    assert y / x == 1.0 / q;
    assert (100.0 * q) * (100.0 * (1.0 / q)) == 10000.0 * (q * (1.0 / q));
  }

  /** A non-negative comparison median is never more than 100 percent below a positive compared-to median. */
  lemma PercentualDiffAtLeastMinus100(comparisonMedian: real, comparedToMedian: real)
    requires comparisonMedian >= 0.0 && comparedToMedian > 0.0
    ensures PercentualDiff(comparisonMedian, comparedToMedian) >= -100.0
  {
  }

  /** The decision rule: a change counts when it is non-zero and the test's p-value is below the level. */
  function IsSignificantChange(percentualDiff: real, p: real): (b: bool)
    ensures b <==> percentualDiff != 0.0 && p < SignificanceLevel
  {
    Abs(percentualDiff) > 0.0 && p < SignificanceLevel
  }

  /**
   * `MedianLatency.get_answer` once both samples are fetched; `p` is the
   * p-value `median_test` returns for the two samples. Fails exactly when the
   * compared-to median is zero, where the source divides by zero.
   */
  function Evaluate(comparisonSample: seq<real>, comparedToSample: seq<real>, p: real): (r: Result<Answer, Error>)
    ensures r.Failure? <==> |comparisonSample| > 0 && |comparedToSample| > 0 && Median(comparedToSample) == 0.0
    ensures r.Success? ==>
      && r.value.comparisonSample == Some(comparisonSample)
      && r.value.comparedToSample == Some(comparedToSample)
    ensures r.Success? && (|comparisonSample| == 0 || |comparedToSample| == 0) ==>
      && !r.value.isSignificant
      && r.value.percentualDiff == None
      && r.value.comparisonMedian == None
      && r.value.comparedToMedian == None
    ensures r.Success? && |comparisonSample| > 0 && |comparedToSample| > 0 ==>
      && r.value.comparisonMedian == Some(Median(comparisonSample))
      && r.value.comparedToMedian == Some(Median(comparedToSample))
      && r.value.percentualDiff == Some(PercentualDiff(Median(comparisonSample), Median(comparedToSample)))
      && (r.value.isSignificant <==> Median(comparisonSample) != Median(comparedToSample) && p < SignificanceLevel)
  {
    if Min(|comparisonSample|, |comparedToSample|) == 0 then
      Success(MedianLatencyAnswer(
        isSignificant := false,
        comparisonSample := Some(comparisonSample),
        comparedToSample := Some(comparedToSample)))
    else
      var comparisonMedian := Median(comparisonSample);
      var comparedToMedian := Median(comparedToSample);
      if comparedToMedian == 0.0 then
        Failure(ZeroDivisionError)
      else
        var diff := PercentualDiff(comparisonMedian, comparedToMedian);
        Success(MedianLatencyAnswer(
          isSignificant := IsSignificantChange(diff, p),
          percentualDiff := Some(diff),
          comparisonSample := Some(comparisonSample),
          comparedToSample := Some(comparedToSample),
          comparisonMedian := Some(comparisonMedian),
          comparedToMedian := Some(comparedToMedian)))
  }

  /** An empty sample on either side gives a non-significant answer holding only the two samples, whatever the other sample is. */
  lemma EmptySampleIsInconclusive(comparisonSample: seq<real>, comparedToSample: seq<real>, p: real)
    requires |comparisonSample| == 0 || |comparedToSample| == 0
    ensures Evaluate(comparisonSample, comparedToSample, p)
      == Success(MedianLatencyAnswer(false, Some(comparisonSample), Some(comparedToSample)))
  {
  }

  /** A significant answer always rests on two medians, a non-zero change and a p-value below the level. */
  lemma SignificantHasEvidence(comparisonSample: seq<real>, comparedToSample: seq<real>, p: real)
    requires Evaluate(comparisonSample, comparedToSample, p).Success?
    requires Evaluate(comparisonSample, comparedToSample, p).value.isSignificant
    ensures var a := Evaluate(comparisonSample, comparedToSample, p).value;
      && a.comparisonMedian.Some? && a.comparedToMedian.Some?
      && a.percentualDiff.Some? && a.percentualDiff.value != 0.0
      && p < SignificanceLevel
  {
  }

  /** The same outcome with other samples stored in the answer. */
  function WithSamples(r: Result<Answer, Error>, comparisonSample: seq<real>, comparedToSample: seq<real>): Result<Answer, Error> {
    match r
    case Success(a) => Success(a.(comparisonSample := Some(comparisonSample), comparedToSample := Some(comparedToSample)))
    case Failure(_) => r
  }

  /** Reordering either sample changes nothing in the outcome but the stored samples. */
  lemma EvaluateIgnoresOrder(c: seq<real>, c': seq<real>, t: seq<real>, t': seq<real>, p: real)
    requires multiset(c) == multiset(c') && multiset(t) == multiset(t')
    ensures Evaluate(c', t', p) == WithSamples(Evaluate(c, t, p), c', t')
  {
    assert |c| == |multiset(c)| == |multiset(c')| == |c'|;
    assert |t| == |multiset(t)| == |multiset(t')| == |t'|;
    if |c| > 0 && |t| > 0 {
      MedianPermutationInvariant(c, c');
      MedianPermutationInvariant(t, t');
    }
  }

  /**
   * Two samples holding the same observations never show a significant
   * change, whatever the p-value: their medians agree, so the change is zero.
   */
  lemma SameObservationsNeverSignificant(c: seq<real>, t: seq<real>, p: real)
    requires multiset(c) == multiset(t)
    ensures Evaluate(c, t, p).Success? ==>
      && !Evaluate(c, t, p).value.isSignificant
      && (|c| > 0 ==> Evaluate(c, t, p).value.percentualDiff == Some(0.0))
  {
    assert |c| == |multiset(c)| == |multiset(t)| == |t|;
    if |c| > 0 {
      MedianPermutationInvariant(c, t);
    }
  }

  /**
   * Swapping the two samples, with the same p-value (Mood's median test is
   * symmetric), keeps the verdict; the two changes are reciprocal ratios, and
   * with positive medians they have opposite signs.
   */
  lemma SwapSamples(c: seq<real>, t: seq<real>, p: real)
    requires Evaluate(c, t, p).Success? && Evaluate(t, c, p).Success?
    ensures Evaluate(c, t, p).value.isSignificant == Evaluate(t, c, p).value.isSignificant
    ensures |c| > 0 && |t| > 0 ==>
      var d, d' := Evaluate(c, t, p).value.percentualDiff.value, Evaluate(t, c, p).value.percentualDiff.value;
      && (100.0 + d) * (100.0 + d') == 10000.0
      && (Median(c) > 0.0 && Median(t) > 0.0 ==> (d > 0.0 <==> d' < 0.0))
  {
    if |c| > 0 && |t| > 0 {
      var mc, mt := Median(c), Median(t);
      var d, d' := PercentualDiff(mc, mt), PercentualDiff(mt, mc);
      assert Evaluate(c, t, p).value.percentualDiff == Some(d);
      assert Evaluate(t, c, p).value.percentualDiff == Some(d');
      PercentualDiffReciprocal(mc, mt);
      assert mc > 0.0 && mt > 0.0 ==> (d > 0.0 <==> mc > mt) && (d' < 0.0 <==> mt < mc);
    }
  }

  /**
   * Latencies are non-negative, so the comparison median is too, and the
   * change against a positive compared-to median is never below -100 percent.
   */
  lemma NonNegativeLatenciesBoundDiff(c: seq<real>, t: seq<real>, p: real)
    requires forall k :: 0 <= k < |c| ==> c[k] >= 0.0
    requires |c| > 0 && |t| > 0 && Median(t) > 0.0
    ensures Evaluate(c, t, p).Success?
    ensures Evaluate(c, t, p).value.percentualDiff.value >= -100.0
  {
    MedianAtLeast(c, 0.0);
    PercentualDiffAtLeastMinus100(Median(c), Median(t));
  }

  /** Samples that each repeat one latency: the medians are those latencies, and the change is significant exactly when they differ and `p` is below the level. */
  lemma ConstantSamples(c: seq<real>, t: seq<real>, a: real, b: real, p: real)
    requires |c| > 0 && |t| > 0 && b != 0.0
    requires forall k :: 0 <= k < |c| ==> c[k] == a
    requires forall k :: 0 <= k < |t| ==> t[k] == b
    ensures Evaluate(c, t, p) == Success(MedianLatencyAnswer(
      a != b && p < SignificanceLevel, Some(c), Some(t), Some(PercentualDiff(a, b)), Some(a), Some(b)))
  {
    MedianOfConstant(c, a);
    MedianOfConstant(t, b);
  }

  /** Twenty requests at 500 against twenty at 100, with a small p-value: a significant 400 percent increase. */
  lemma RegressionExample(p: real)
    requires p < SignificanceLevel
    ensures var c, t := seq(20, _ => 500.0), seq(20, _ => 100.0);
      Evaluate(c, t, p) == Success(MedianLatencyAnswer(true, Some(c), Some(t), Some(400.0), Some(500.0), Some(100.0)))
  {
    ConstantSamples(seq(20, _ => 500.0), seq(20, _ => 100.0), 500.0, 100.0, p);
  }

  /** A compared-to interval whose median latency is zero makes the division fail. */
  lemma ZeroMedianExample(p: real)
    ensures Evaluate([50.0, 60.0, 55.0], [0.0, 0.0, 0.0], p) == Failure(ZeroDivisionError)
  {
    MedianOfConstant([0.0, 0.0, 0.0], 0.0);
  }

  /** An empty comparison interval: not significant, and both samples kept as they are. */
  lemma EmptyIntervalExample(p: real)
    ensures Evaluate([], [100.0, 200.0], p) == Success(MedianLatencyAnswer(false, Some([]), Some([100.0, 200.0])))
  {
  }
}
