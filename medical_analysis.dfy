/** `detect_arrhythmias` and `analyze_ekg`: a threshold test on the jump between each interior
    sample of an EKG series and its predecessor, and a summary of the series by its largest,
    smallest and mean value. Samples are mathematical reals; the standard deviation that
    sets the threshold is given as a parameter. */
module MedicalAnalysis {
  import opened Options

  function Abs(x: real): real {
    if x < 0.0 then -x else x
  }

  /** `1.5 * np.std(ekg_signal)`, with the standard deviation of the series given as `std`. */
  function Threshold(std: real): (t: real)
    ensures std >= 0.0 ==> t >= 0.0
  {
    1.5 * std
  }

  /** The result dictionary of `detect_arrhythmias`. */
  datatype ArrhythmiaReport = ArrhythmiaReport(arrhythmias: seq<nat>, abnormalBeats: nat)

  // ---------------------------------------------------------------------------
  // The flagging rule
  // ---------------------------------------------------------------------------

  /** The indices `i` with `1 <= i < hi` whose jump from the previous sample exceeds `t`,
      in increasing order: the list the loop has built when it reaches `hi`. */
  function FlaggedBelow(s: seq<real>, t: real, hi: nat): seq<nat>
    requires hi <= 1 || hi <= |s|
  {
    if hi <= 1 then []
    else FlaggedBelow(s, t, hi - 1) + (if Abs(s[hi - 1] - s[hi - 2]) > t then [hi - 1] else [])
  }

  /** The indices `range(1, len(s) - 1)` flags. */
  function Flagged(s: seq<real>, t: real): seq<nat> {
    FlaggedBelow(s, t, if |s| >= 2 then |s| - 1 else 1)
  }

  /** What `detect_arrhythmias` returns for threshold `t`. */
  function Report(s: seq<real>, t: real): ArrhythmiaReport {
    ArrhythmiaReport(Flagged(s, t), |Flagged(s, t)|)
  }

  /** An index is in the list exactly when it lies in the range and its jump exceeds `t`. */
  lemma {:induction false} FlaggedBelowHas(s: seq<real>, t: real, hi: nat, i: int)
    requires hi <= 1 || hi <= |s|
    ensures i in FlaggedBelow(s, t, hi) <==> 1 <= i < hi && Abs(s[i] - s[i - 1]) > t
  {
    if hi > 1 {
      FlaggedBelowHas(s, t, hi - 1, i);
    }
  }

  /** The list is strictly increasing and stays below `hi`. */
  lemma {:induction false} FlaggedBelowIncreasing(s: seq<real>, t: real, hi: nat)
    requires hi <= 1 || hi <= |s|
    ensures forall j :: 0 <= j < |FlaggedBelow(s, t, hi)| ==> FlaggedBelow(s, t, hi)[j] < hi
    ensures forall j, k :: 0 <= j < k < |FlaggedBelow(s, t, hi)| ==> FlaggedBelow(s, t, hi)[j] < FlaggedBelow(s, t, hi)[k]
  {
    if hi > 1 {
      FlaggedBelowIncreasing(s, t, hi - 1);
      var prefix := FlaggedBelow(s, t, hi - 1);
      var tail: seq<nat> := if Abs(s[hi - 1] - s[hi - 2]) > t then [hi - 1] else [];
      var r := prefix + tail;
      assert FlaggedBelow(s, t, hi) == r;
      assert forall j :: 0 <= j < |prefix| ==> r[j] == prefix[j];
      assert forall j :: |prefix| <= j < |r| ==> r[j] == hi - 1;
    }
  }

  /** Flagging rule and index range: an index is flagged exactly when `1 <= i <= len - 2`
      and its jump strictly exceeds the threshold; the first and the last index never are. */
  lemma FlaggedMembers(s: seq<real>, t: real)
    ensures forall i :: i in Flagged(s, t) <==> 1 <= i <= |s| - 2 && Abs(s[i] - s[i - 1]) > t
    ensures 0 !in Flagged(s, t) && (|s| > 0 ==> |s| - 1 !in Flagged(s, t))
  {
    forall i ensures i in Flagged(s, t) <==> 1 <= i <= |s| - 2 && Abs(s[i] - s[i - 1]) > t {
      FlaggedBelowHas(s, t, if |s| >= 2 then |s| - 1 else 1, i);
    }
    FlaggedBelowHas(s, t, if |s| >= 2 then |s| - 1 else 1, 0);
    FlaggedBelowHas(s, t, if |s| >= 2 then |s| - 1 else 1, |s| - 1);
  }

  /** Ordering: the list is strictly increasing, so it holds no index twice. */
  lemma FlaggedIncreasing(s: seq<real>, t: real)
    ensures forall j, k :: 0 <= j < k < |Flagged(s, t)| ==> Flagged(s, t)[j] < Flagged(s, t)[k]
  {
    FlaggedBelowIncreasing(s, t, if |s| >= 2 then |s| - 1 else 1);
  }

  /** No index is flagged exactly when no interior jump exceeds `t`. */
  lemma FlaggedEmpty(s: seq<real>, t: real)
    ensures Flagged(s, t) == [] <==> forall i :: 1 <= i <= |s| - 2 ==> Abs(s[i] - s[i - 1]) <= t
  {
    FlaggedMembers(s, t);
    if Flagged(s, t) != [] {
      var i := Flagged(s, t)[0];
      assert i in Flagged(s, t);
      assert 1 <= i <= |s| - 2 && Abs(s[i] - s[i - 1]) > t;
    } else {
      forall i | 1 <= i <= |s| - 2 ensures Abs(s[i] - s[i - 1]) <= t {
        assert i !in Flagged(s, t);
      }
    }
  }

  /** Short series: with fewer than three samples the loop body never runs. */
  lemma ShortSeriesFlagsNothing(s: seq<real>, t: real)
    requires |s| < 3
    ensures Report(s, t) == ArrhythmiaReport([], 0)
  {
    FlaggedEmpty(s, t);
  }

  /** Constant series: with a threshold that is not negative, as `1.5 * std` never is, a
      series without jumps flags nothing. */
  lemma ConstantSeriesFlagsNothing(s: seq<real>, t: real)
    requires t >= 0.0
    requires forall k :: 0 <= k < |s| ==> s[k] == s[0]
    ensures Report(s, t) == ArrhythmiaReport([], 0)
  {
    FlaggedEmpty(s, t);
  }

  /** A single spike flags the index of the rise and the index of the fall. */
  lemma SpikeFlagsRiseAndFall(t: real)
    requires 0.0 <= t < 100.0
    ensures Flagged([0.0, 0.0, 0.0, 100.0, 0.0, 0.0, 0.0], t) == [3, 4]
  {
    var s := [0.0, 0.0, 0.0, 100.0, 0.0, 0.0, 0.0];
    assert Abs(s[1] - s[0]) == 0.0 && Abs(s[2] - s[1]) == 0.0 && Abs(s[3] - s[2]) == 100.0;
    assert Abs(s[4] - s[3]) == 100.0 && Abs(s[5] - s[4]) == 0.0;
    assert FlaggedBelow(s, t, 2) == [];
    assert FlaggedBelow(s, t, 3) == [];
    assert FlaggedBelow(s, t, 4) == [3];
    assert FlaggedBelow(s, t, 5) == [3, 4];
    assert FlaggedBelow(s, t, 6) == [3, 4];
  }

  // ---------------------------------------------------------------------------
  // detect_arrhythmias
  // ---------------------------------------------------------------------------

  /** The loop of `detect_arrhythmias` over `range(1, len(signal) - 1)`, keeping the list of
      flagged indices and the count of abnormal beats in step. */
  method DetectArrhythmias(signal: seq<real>, std: real) returns (results: ArrhythmiaReport)
    ensures results == Report(signal, Threshold(std))
    ensures results.abnormalBeats == |results.arrhythmias|
    ensures forall i :: i in results.arrhythmias <==>
      1 <= i <= |signal| - 2 && Abs(signal[i] - signal[i - 1]) > Threshold(std)
    ensures forall j, k :: 0 <= j < k < |results.arrhythmias| ==> results.arrhythmias[j] < results.arrhythmias[k]
  {
    var threshold := Threshold(std);
    var arrhythmias: seq<nat> := [];
    var abnormalBeats: nat := 0;
    var i := 1;
    while i < |signal| - 1
      invariant 1 <= i && (i == 1 || i <= |signal| - 1)
      invariant arrhythmias == FlaggedBelow(signal, threshold, i)
      invariant abnormalBeats == |arrhythmias|
    {
      if Abs(signal[i] - signal[i - 1]) > threshold {
        arrhythmias := arrhythmias + [i];
        abnormalBeats := abnormalBeats + 1;
      }
      i := i + 1;
    }
    results := ArrhythmiaReport(arrhythmias, abnormalBeats);
    FlaggedMembers(signal, threshold);
    FlaggedIncreasing(signal, threshold);
  }

  // ---------------------------------------------------------------------------
  // analyze_ekg
  // ---------------------------------------------------------------------------

  /** `Series.max()` of a non-empty series. */
  function Max(s: seq<real>): (m: real)
    requires |s| > 0
    ensures m in s && forall k :: 0 <= k < |s| ==> s[k] <= m
  {
    if |s| == 1 then s[0]
    else
      var m := Max(s[1..]);
      assert forall k :: 1 <= k < |s| ==> s[k] == s[1..][k - 1];
      if s[0] >= m then s[0] else m
  }

  /** `Series.min()` of a non-empty series. */
  function Min(s: seq<real>): (m: real)
    requires |s| > 0
    ensures m in s && forall k :: 0 <= k < |s| ==> m <= s[k]
  {
    if |s| == 1 then s[0]
    else
      var m := Min(s[1..]);
      assert forall k :: 1 <= k < |s| ==> s[k] == s[1..][k - 1];
      if s[0] <= m then s[0] else m
  }

  function Sum(s: seq<real>): real {
    if s == [] then 0.0 else s[0] + Sum(s[1..])
  }

  /** `Series.mean()` of a non-empty series, in exact arithmetic. */
  function Mean(s: seq<real>): real
    requires |s| > 0
  {
    Sum(s) / (|s| as real)
  }

  /** A sum of values that all lie between `lo` and `hi` lies between `|s| * lo` and `|s| * hi`. */
  lemma {:induction false} SumBounds(s: seq<real>, lo: real, hi: real)
    requires forall k :: 0 <= k < |s| ==> lo <= s[k] <= hi
    ensures (|s| as real) * lo <= Sum(s) <= (|s| as real) * hi
  {
    if s != [] {
      assert forall k :: 0 <= k < |s| - 1 ==> s[1..][k] == s[k + 1];
      SumBounds(s[1..], lo, hi);
    }
  }

  /** The mean of values that all lie between `lo` and `hi` lies between them too. */
  lemma MeanWithin(s: seq<real>, lo: real, hi: real)
    requires |s| > 0
    requires forall k :: 0 <= k < |s| ==> lo <= s[k] <= hi
    ensures lo <= Mean(s) <= hi
  {
    SumBounds(s, lo, hi);
    QuotientBounds(Sum(s), |s| as real, lo, hi);
  }

  /** The mean lies between the smallest and the largest sample. */
  lemma MeanBounds(s: seq<real>)
    requires |s| > 0
    ensures Min(s) <= Mean(s) <= Max(s)
  {
    MeanWithin(s, Min(s), Max(s));
  }

  lemma QuotientBounds(a: real, n: real, lo: real, hi: real)
    requires n > 0.0 && n * lo <= a <= n * hi
    ensures lo <= a / n <= hi
  {
    var q := a / n;
    assert (q - lo) * n == a - n * lo;
    assert (hi - q) * n == n * hi - a;
  }

  /** The result dictionary of `analyze_ekg`; the three statistics are `None` where pandas
      gives `NaN` for an empty series. */
  datatype Summary = Summary(
    maxValue: Option<real>,
    minValue: Option<real>,
    meanValue: Option<real>,
    arrhythmiaDetection: ArrhythmiaReport)

  /** `analyze_ekg`: the statistics of the series and the report of `detect_arrhythmias` on
      the same series. */
  function AnalyzeEkg(signal: seq<real>, std: real): (r: Summary)
    ensures r.maxValue.Some? <==> |signal| > 0
    ensures r.minValue.Some? <==> |signal| > 0
    ensures r.meanValue.Some? <==> |signal| > 0
    ensures |signal| > 0 ==> r.maxValue.value in signal && r.minValue.value in signal
    ensures |signal| > 0 ==> forall k :: 0 <= k < |signal| ==> r.minValue.value <= signal[k] <= r.maxValue.value
    ensures |signal| > 0 ==> r.meanValue == Some(Mean(signal))
    ensures |signal| > 0 ==> r.minValue.value <= r.meanValue.value <= r.maxValue.value
    ensures r.arrhythmiaDetection == Report(signal, Threshold(std))
  {
    if signal == [] then
      Summary(None, None, None, Report(signal, Threshold(std)))
    else
      MeanBounds(signal);
      Summary(Some(Max(signal)), Some(Min(signal)), Some(Mean(signal)), Report(signal, Threshold(std)))
  }

  /** The summary of a small series, worked out. */
  lemma AnalyzeSmallSeries()
    ensures AnalyzeEkg([1.0, 5.0, 3.0], 0.0).maxValue == Some(5.0)
    ensures AnalyzeEkg([1.0, 5.0, 3.0], 0.0).minValue == Some(1.0)
    ensures AnalyzeEkg([1.0, 5.0, 3.0], 0.0).meanValue == Some(3.0)
  {
    var s := [1.0, 5.0, 3.0];
    assert s[1..] == [5.0, 3.0] && s[1..][1..] == [3.0];
    assert Sum(s) == 9.0;
  }
}
