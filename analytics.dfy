/** Cross-day analytics over ordered lists of records or of raw durations.
    None of them changes its inputs. */
module Analytics {
  import opened Errors
  import opened Numeric
  import opened Utils
  import opened Record

  /** Every record was produced by a successful construction. */
  ghost predicate AllValid(records: seq<DailySleepRecord>)
    reads records
  {
    forall i :: 0 <= i < |records| ==> records[i].Valid()
  }

  // ------------------------------------------------------- flattened means

  /** Every segment duration of every record, flattened in record order. */
  function AllDurations(records: seq<DailySleepRecord>): seq<real>
    reads records
  {
    if records == [] then []
    else AllDurations(records[..|records| - 1]) + Durations(records[|records| - 1].segments)
  }

  /** The flattened list is empty exactly when no record has a segment. */
  lemma {:induction false} AllDurationsEmpty(records: seq<DailySleepRecord>)
    ensures AllDurations(records) == [] <==>
      forall i :: 0 <= i < |records| ==> records[i].segments == []
  {
    if records != [] {
      var init := records[..|records| - 1];
      AllDurationsEmpty(init);
      assert forall i :: 0 <= i < |init| ==> init[i] == records[i];
    }
  }

  /** Durations of valid records are never negative. */
  lemma {:induction false} AllDurationsNonNegative(records: seq<DailySleepRecord>)
    requires AllValid(records)
    ensures forall k :: 0 <= k < |AllDurations(records)| ==> 0.0 <= AllDurations(records)[k]
  {
    if records != [] {
      var init := records[..|records| - 1];
      assert forall i :: 0 <= i < |init| ==> init[i] == records[i];
      AllDurationsNonNegative(init);
      var last := records[|records| - 1];
      assert last.Valid();
      var ds := Durations(last.segments);
      assert forall k :: 0 <= k < |ds| ==> 0.0 <= ds[k] by {
        forall k | 0 <= k < |ds| ensures 0.0 <= ds[k] {
          assert WellFormed(last.segments[k]);
        }
      }
    }
  }

  /** `overall_average_duration`: the mean of all segment durations,
      flattened in record order; 0 when there is no segment at all. */
  method OverallAverageDuration(records: seq<DailySleepRecord>) returns (avg: real)
    ensures avg == Mean(AllDurations(records))
  {
    var durations: seq<real> := [];
    for i := 0 to |records|
      invariant durations == AllDurations(records[..i])
    {
      var record := records[i];
      for j := 0 to |record.segments|
        invariant durations == AllDurations(records[..i]) + Durations(record.segments[..j])
      {
        assert Durations(record.segments[..j + 1]) ==
          Durations(record.segments[..j]) + [record.segments[j].duration];
        durations := durations + [record.segments[j].duration];
      }
      assert record.segments[..|record.segments|] == record.segments;
      assert records[..i + 1][..i] == records[..i];
    }
    assert records[..|records|] == records;
    avg := Mean(durations);
  }

  /** The overall average duration of valid records is non-negative, and is
      0 when no record has a segment. */
  lemma OverallAverageDurationBounds(records: seq<DailySleepRecord>)
    requires AllValid(records)
    ensures 0.0 <= Mean(AllDurations(records))
    ensures (forall i :: 0 <= i < |records| ==> records[i].segments == []) ==>
      Mean(AllDurations(records)) == 0.0
  {
    AllDurationsNonNegative(records);
    MeanNonNegative(AllDurations(records));
    AllDurationsEmpty(records);
  }

  /** The sleep score of every segment of every record, flattened in record order. */
  function AllScores(records: seq<DailySleepRecord>): seq<real>
    reads records
    requires AllValid(records)
  {
    if records == [] then []
    else
      var last := records[|records| - 1];
      assert last.Valid();
      assert forall k :: 0 <= k < |last.segments| ==> WellFormed(last.segments[k]);
      AllScores(records[..|records| - 1]) + Scores(last.segments)
  }

  /** Every flattened score of valid records is in [0, 100]. */
  lemma {:induction false} AllScoresPercent(records: seq<DailySleepRecord>)
    requires AllValid(records)
    ensures forall k :: 0 <= k < |AllScores(records)| ==> 0.0 <= AllScores(records)[k] <= 100.0
  {
    if records != [] {
      var init := records[..|records| - 1];
      assert forall i :: 0 <= i < |init| ==> init[i] == records[i];
      AllScoresPercent(init);
      var last := records[|records| - 1];
      assert last.Valid();
      var scores := Scores(last.segments);
      forall k | 0 <= k < |scores| ensures 0.0 <= scores[k] <= 100.0 {
        assert WellFormed(last.segments[k]);
        SleepScorePercent(last.segments[k].duration, last.segments[k].quality);
      }
    }
  }

  /** `average_sleep_score_across_days`: the mean sleep score over all
      segments, flattened in record order; 0 when there is none; in [0, 100]. */
  method AverageSleepScoreAcrossDays(records: seq<DailySleepRecord>) returns (avg: real)
    requires AllValid(records)
    ensures avg == Mean(AllScores(records))
    ensures 0.0 <= avg <= 100.0
  {
    var scores: seq<real> := [];
    for i := 0 to |records|
      invariant scores == AllScores(records[..i])
    {
      var record := records[i];
      assert record.Valid();
      assert records[..i + 1][..i] == records[..i];
      for j := 0 to |record.segments|
        invariant scores == AllScores(records[..i]) + Scores(record.segments[..j])
      {
        assert WellFormed(record.segments[j]);
        var score := ComputeSleepScore(record.segments[j].duration, record.segments[j].quality);
        assert Scores(record.segments[..j + 1]) ==
          Scores(record.segments[..j]) + [score.value];
        scores := scores + [score.value];
      }
      assert record.segments[..|record.segments|] == record.segments;
    }
    assert records[..|records|] == records;
    AllScoresPercent(records);
    MeanPercent(scores);
    avg := Mean(scores);
  }

  // ------------------------------------------------------------ best day

  /** Record `k` has the highest average sleep score, and every earlier
      record scores strictly lower (ties go to the earliest record). */
  ghost predicate IsFirstBest(records: seq<DailySleepRecord>, k: int)
    reads records
    requires AllValid(records)
  {
    && 0 <= k < |records|
    && (forall j :: 0 <= j < |records| ==>
          records[j].AverageSleepScore() <= records[k].AverageSleepScore())
    && (forall j :: 0 <= j < k ==>
          records[j].AverageSleepScore() < records[k].AverageSleepScore())
  }

  /** `best_sleep_day`: None for no records, otherwise the date of the first
      record with the highest average sleep score. */
  method BestSleepDay(records: seq<DailySleepRecord>) returns (day: Option<string>)
    requires AllValid(records)
    ensures day.None? <==> records == []
    ensures day.Some? ==> exists k :: IsFirstBest(records, k) && day.value == records[k].date
  {
    if records == [] {
      return None;
    }
    var best := records[0];
    var bestScore := best.AverageSleepScore();
    ghost var k := 0;
    for i := 1 to |records|
      invariant 0 <= k < i && best == records[k] && bestScore == best.AverageSleepScore()
      invariant forall j :: 0 <= j < i ==> records[j].AverageSleepScore() <= bestScore
      invariant forall j :: 0 <= j < k ==> records[j].AverageSleepScore() < bestScore
    {
      var actual := records[i].AverageSleepScore();
      if actual > bestScore {
        bestScore := actual;
        best := records[i];
        k := i;
      }
    }
    assert IsFirstBest(records, k);
    return Some(best.date);
  }

  /** The first-best record is unique, so the result is fully determined. */
  lemma FirstBestUnique(records: seq<DailySleepRecord>, k1: int, k2: int)
    requires AllValid(records)
    requires IsFirstBest(records, k1) && IsFirstBest(records, k2)
    ensures k1 == k2
  {
    var s1, s2 := records[k1].AverageSleepScore(), records[k2].AverageSleepScore();
    assert s1 <= s2 && s2 <= s1;
    assert k1 < k2 ==> s1 < s2;
    assert k2 < k1 ==> s2 < s1;
  }

  /** With two equally scored records the first one wins. */
  lemma TieGoesToFirst(records: seq<DailySleepRecord>, k: int)
    requires AllValid(records) && |records| == 2
    requires records[0].AverageSleepScore() == records[1].AverageSleepScore()
    requires IsFirstBest(records, k)
    ensures k == 0
  {
  }

  // --------------------------------------------------------- under-sleep days

  predicate HasShortSegment(record: DailySleepRecord, threshold: real)
    reads record
  {
    exists i :: 0 <= i < |record.segments| && record.segments[i].duration < threshold
  }

  /** The dates of the records with some segment shorter than `threshold`,
      in input order, one entry per record. */
  function UnderSleepDates(records: seq<DailySleepRecord>, threshold: real): seq<string>
    reads records
  {
    if records == [] then []
    else
      var last := records[|records| - 1];
      UnderSleepDates(records[..|records| - 1], threshold)
        + (if HasShortSegment(last, threshold) then [last.date] else [])
  }

  /** `detect_under_sleep_days`: the first short segment of a record adds its
      date and moves on to the next record. */
  method DetectUnderSleepDays(records: seq<DailySleepRecord>, threshold: real)
    returns (days: seq<string>)
    ensures days == UnderSleepDates(records, threshold)
  {
    days := [];
    for i := 0 to |records|
      invariant days == UnderSleepDates(records[..i], threshold)
    {
      var record := records[i];
      assert records[..i + 1][..i] == records[..i];
      var j := 0;
      while j < |record.segments|
        invariant 0 <= j <= |record.segments|
        invariant days == UnderSleepDates(records[..i], threshold)
        invariant forall m :: 0 <= m < j ==> threshold <= record.segments[m].duration
      {
        if record.segments[j].duration < threshold {
          days := days + [record.date];
          break;
        }
        j := j + 1;
      }
    }
    assert records[..|records|] == records;
  }

  /** Each record contributes at most one date, each reported date belongs to
      a record with a short segment, and a record with one is always reported. */
  lemma {:induction false} UnderSleepDatesFaithful(records: seq<DailySleepRecord>, threshold: real)
    ensures |UnderSleepDates(records, threshold)| <= |records|
    ensures forall d :: d in UnderSleepDates(records, threshold) ==>
      exists i :: 0 <= i < |records| && records[i].date == d && HasShortSegment(records[i], threshold)
    ensures forall i :: 0 <= i < |records| && HasShortSegment(records[i], threshold) ==>
      records[i].date in UnderSleepDates(records, threshold)
  {
    if records != [] {
      var init := records[..|records| - 1];
      assert forall i :: 0 <= i < |init| ==> init[i] == records[i];
      UnderSleepDatesFaithful(init, threshold);
    }
  }

  /** With the default threshold 0 no valid record is ever reported. */
  lemma {:induction false} DefaultThresholdReportsNothing(records: seq<DailySleepRecord>)
    requires AllValid(records)
    ensures UnderSleepDates(records, 0.0) == []
  {
    if records != [] {
      var init := records[..|records| - 1];
      assert forall i :: 0 <= i < |init| ==> init[i] == records[i];
      DefaultThresholdReportsNothing(init);
      var last := records[|records| - 1];
      assert last.Valid();
      assert !HasShortSegment(last, 0.0) by {
        forall i | 0 <= i < |last.segments| ensures 0.0 <= last.segments[i].duration {
          assert WellFormed(last.segments[i]);
        }
      }
    }
  }

  // ------------------------------------------------------ spikes and trends

  function Abs(x: real): real {
    if x < 0.0 then -x else x
  }

  /** Some two neighbouring durations differ by at least `threshold`. */
  predicate HasSpike(durations: seq<real>, threshold: real) {
    exists i :: 1 <= i < |durations| && Abs(durations[i] - durations[i - 1]) >= threshold
  }

  /** `detect_spike` (default threshold 2): fails for fewer than two values,
      otherwise tells whether there is a spike. */
  method DetectSpike(durations: seq<real>, threshold: real) returns (r: Result<bool>)
    ensures r.Err? <==> |durations| < 2
    ensures r.Err? ==> r.error == TooFewValues
    ensures r.Ok? ==> (r.value <==> HasSpike(durations, threshold))
  {
    if |durations| < 2 {
      return Err(TooFewValues);
    }
    for i := 1 to |durations|
      invariant forall j :: 1 <= j < i ==> Abs(durations[j] - durations[j - 1]) < threshold
    {
      var difference := Abs(durations[i] - durations[i - 1]);
      if difference >= threshold {
        return Ok(true);
      }
    }
    return Ok(false);
  }

  /** A jump of 2.5 is a spike for threshold 2; a jump of 1 is not. */
  lemma SpikeExamples()
    ensures HasSpike([1.0, 3.5], 2.0)
    ensures !HasSpike([1.0, 2.0], 2.0)
  {
    assert Abs([1.0, 3.5][1] - [1.0, 3.5][0]) >= 2.0;
  }

  datatype Trend = Up | Down | Same

  /** `trend` has one entry per neighbouring pair of `durations`, saying
      whether the later value is larger, smaller or equal. */
  ghost predicate IsTrendOf(trend: seq<Trend>, durations: seq<real>) {
    && |trend| == |durations| - 1
    && forall i :: 0 <= i < |trend| ==>
         && (trend[i] == Up <==> durations[i] < durations[i + 1])
         && (trend[i] == Down <==> durations[i + 1] < durations[i])
  }

  /** `duration_trend`: fails for fewer than two values, otherwise the trend
      of each neighbouring pair. */
  method DurationTrend(durations: seq<real>) returns (r: Result<seq<Trend>>)
    ensures r.Err? <==> |durations| < 2
    ensures r.Err? ==> r.error == TooFewValues
    ensures r.Ok? ==> IsTrendOf(r.value, durations)
  {
    if |durations| < 2 {
      return Err(TooFewValues);
    }
    var trend: seq<Trend> := [];
    for i := 1 to |durations|
      invariant |trend| == i - 1
      invariant forall j :: 0 <= j < |trend| ==>
        && (trend[j] == Up <==> durations[j] < durations[j + 1])
        && (trend[j] == Down <==> durations[j + 1] < durations[j])
    {
      if durations[i] > durations[i - 1] {
        trend := trend + [Up];
      } else if durations[i] < durations[i - 1] {
        trend := trend + [Down];
      } else {
        trend := trend + [Same];
      }
    }
    return Ok(trend);
  }

  /** The trend is determined by the durations. */
  lemma TrendUnique(t1: seq<Trend>, t2: seq<Trend>, durations: seq<real>)
    requires IsTrendOf(t1, durations) && IsTrendOf(t2, durations)
    ensures t1 == t2
  {
    forall i | 0 <= i < |t1| ensures t1[i] == t2[i] {
      var a, b := durations[i], durations[i + 1];
      assert (t1[i] == Up <==> a < b) && (t1[i] == Down <==> b < a);
      assert (t2[i] == Up <==> a < b) && (t2[i] == Down <==> b < a);
    }
  }

  /** 6, 7, 7, 5 goes up, stays the same, then goes down. */
  lemma TrendExample(trend: seq<Trend>)
    requires IsTrendOf(trend, [6.0, 7.0, 7.0, 5.0])
    ensures IsTrendOf([Up, Same, Down], [6.0, 7.0, 7.0, 5.0])
    ensures trend == [Up, Same, Down]
  {
    TrendUnique(trend, [Up, Same, Down], [6.0, 7.0, 7.0, 5.0]);
  }
}
