/** Scoring utilities: the quality band of a score, the rescaling of a
    quality value to the 0-100 scale, and the composite sleep score. */
module Utils {
  import opened Errors
  import opened Numeric

  datatype QualityBand = Excellent | Good | Fair | Poor

  /** Position of a band from worst (0) to best (3). */
  function Rank(band: QualityBand): nat {
    match band
    case Poor => 0
    case Fair => 1
    case Good => 2
    case Excellent => 3
  }

  /** The band of a score; each band includes its lower bound. */
  function QualityLabel(score: real): (band: QualityBand)
    ensures band == Excellent <==> 85.0 <= score
    ensures band == Good <==> 70.0 <= score < 85.0
    ensures band == Fair <==> 50.0 <= score < 70.0
    ensures band == Poor <==> score < 50.0
  {
    if score >= 85.0 then Excellent
    else if score >= 70.0 then Good
    else if score >= 50.0 then Fair
    else Poor
  }

  /** A larger score never falls into a lower band. */
  lemma QualityLabelMonotone(s: real, t: real)
    requires s <= t
    ensures Rank(QualityLabel(s)) <= Rank(QualityLabel(t))
  {
  }

  /** Rescales `score` from [0, currentMax] to [0, 100], rounded to two decimals. */
  function NormalizeQuality(score: real, currentMax: real): (r: Result<real>)
    ensures r.Err? <==> currentMax <= 0.0
    ensures r.Err? ==> r.error == NonPositiveMax
    ensures r.Ok? ==> r.value - 0.005 <= score / currentMax * 100.0 <= r.value + 0.005
    ensures r.Ok? && 0.0 <= score <= currentMax ==> 0.0 <= r.value <= 100.0
    ensures r.Ok? && score == currentMax ==> r.value == 100.0
  {
    if currentMax <= 0.0 then Err(NonPositiveMax)
    else
      var scaled := score / currentMax * 100.0;
      Round2Close(scaled);
      assert 0.0 <= score <= currentMax ==> 0.0 <= scaled <= 100.0 by {
        if 0.0 <= score <= currentMax {
          DivideBounds(currentMax, 0.0, score);
          DivideBounds(currentMax, score, currentMax);
          MulDiv(currentMax, 1.0);
        }
      }
      assert 0.0 <= scaled <= 100.0 ==> 0.0 <= Round2(scaled) <= 100.0 by {
        if 0.0 <= scaled <= 100.0 { Round2Within(scaled, 0, 10000); }
      }
      assert score == currentMax ==> Round2(scaled) == 100.0 by {
        if score == currentMax {
          MulDiv(currentMax, 1.0);
          assert scaled == 100.0;
          Round2Exact(10000);
        }
      }
      Ok(Round2(scaled))
  }

  /** For a fixed positive maximum, a larger raw score never normalises lower. */
  lemma NormalizeQualityMonotone(s: real, t: real, currentMax: real)
    requires currentMax > 0.0 && s <= t
    ensures NormalizeQuality(s, currentMax).value <= NormalizeQuality(t, currentMax).value
  {
    DivideBounds(currentMax, s, t);
    Round2Monotone(s / currentMax * 100.0, t / currentMax * 100.0);
  }

  function Min(a: real, b: real): real {
    if a <= b then a else b
  }

  /** The weighted blend before capping and rounding: up to 60 points for
      duration (full credit from 8 hours) and 0.4 points per quality point. */
  function WeightedScore(duration: real, quality: real): real {
    Min(duration / 8.0, 1.0) * 60.0 + quality * 0.4
  }

  /** The composite sleep score, capped at 100 and rounded to two decimals. */
  function ComputeSleepScore(duration: real, quality: real): (r: Result<real>)
    ensures r.Err? <==> duration < 0.0
    ensures r.Err? ==> r.error == NegativeDuration
    ensures r.Ok? ==>
      var exact := Min(Min(duration / 8.0, 1.0) * 60.0 + quality * 0.4, 100.0);
      exact - 0.005 <= r.value <= exact + 0.005
    ensures r.Ok? ==> r.value <= 100.0
    ensures r.Ok? && 0.0 <= quality <= 100.0 ==> 0.0 <= r.value
  {
    if duration < 0.0 then Err(NegativeDuration)
    else
      var capped := Min(WeightedScore(duration, quality), 100.0);
      Round2Close(capped);
      Round2Monotone(capped, 100.0);
      Round2Exact(10000);
      assert 0.0 <= quality <= 100.0 ==> 0.0 <= Round2(capped) by {
        if 0.0 <= quality <= 100.0 {
          assert 0.0 <= capped;
          Round2Monotone(0.0, capped);
          Round2Exact(0);
        }
      }
      Ok(Round2(capped))
  }

  /** With quality in [0, 100] the score is in [0, 100] for any duration >= 0. */
  lemma SleepScorePercent(duration: real, quality: real)
    requires duration >= 0.0 && 0.0 <= quality <= 100.0
    ensures 0.0 <= ComputeSleepScore(duration, quality).value <= 100.0
  {
  }

  lemma WeightedScoreMonotone(d1: real, d2: real, q1: real, q2: real)
    requires 0.0 <= d1 <= d2 && q1 <= q2
    ensures WeightedScore(d1, q1) <= WeightedScore(d2, q2)
  {
    DivideBounds(8.0, d1, d2);
  }

  /** More sleep or better quality never lowers the score. */
  lemma SleepScoreMonotone(d1: real, d2: real, q1: real, q2: real)
    requires 0.0 <= d1 <= d2 && q1 <= q2
    ensures ComputeSleepScore(d1, q1).value <= ComputeSleepScore(d2, q2).value
  {
    WeightedScoreMonotone(d1, d2, q1, q2);
    Round2Monotone(Min(WeightedScore(d1, q1), 100.0), Min(WeightedScore(d2, q2), 100.0));
  }

  /** The weights: 8 hours at full quality scores 100, and no sleep at zero
      quality scores 0. */
  lemma SleepScoreExtremes(duration: real)
    requires duration >= 8.0
    ensures ComputeSleepScore(duration, 100.0) == Ok(100.0)
    ensures ComputeSleepScore(0.0, 0.0) == Ok(0.0)
  {
    assert duration / 8.0 >= 1.0;
    assert WeightedScore(duration, 100.0) == 100.0;
    Round2Exact(10000);
    Round2Exact(0);
  }

  /** From 8 hours on, extra duration does not change the score. */
  lemma SleepScoreSaturates(d1: real, d2: real, quality: real)
    requires 8.0 <= d1 && 8.0 <= d2
    ensures ComputeSleepScore(d1, quality) == ComputeSleepScore(d2, quality)
  {
    assert d1 / 8.0 >= 1.0 && d2 / 8.0 >= 1.0;
  }
}
