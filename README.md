# Sleep tracking toolkit, modelled in Dafny

A model of a small in-memory library for daily sleep records. A day is a
`DailySleepRecord`: a date `YYYY-MM-DD` and a non-empty, ordered list of
segments `(duration, quality)`. Durations are hours. Qualities are on a 0-100
scale, and they are rescaled at construction when the caller's scale
`quality_max` is not 100. The library has three parts:

- **scoring utilities** (`utils.dfy`, module `Utils`): the quality band of a
  score, the rescaling of a quality to 0-100, and the composite sleep score
  `min(d/8, 1)*60 + 0.4*q`, capped at 100;
- **the daily record** (`record.dfy`, module `Record`): the date check, the
  checked and normalising construction, and the per-day queries (average
  quality, total duration, restfulness, average sleep score, summary);
- **cross-day analytics** (`analytics.dfy`, module `Analytics`): flattened
  means over many records, the best day, under-sleep days, spike detection and
  the up/down/same trend of a list of durations.

`numeric.dfy` (module `Numeric`) holds `round(x, 2)`, `sum` and the guarded
mean `round(sum(xs)/len(xs), 2) if xs else 0`. `errors.dfy` (module `Errors`)
holds `Result`/`Option` and one `Error` constructor per check that can raise.

Modelling choices:
- Numbers are Dafny `real`.
- `round(x, 2)` is `Numeric.Round2`: the nearest hundredth, ties rounded up.
  Every lemma except `Numeric.MeanMayUndershoot` uses only three of its
  properties: it is monotone, it leaves hundredths alone, and it moves a
  value by at most 0.005. `MeanMayUndershoot` evaluates the definition at
  33.333, where Python's `round` also gives 33.33.
- A Python exception becomes an `Err` result. `Error.Kind()` gives the
  exception class: `TypeError` for an int duration, `ValueError` for every
  other error.
- The constructor, which can raise, is the static method
  `DailySleepRecord.Create`. Like the source, it:
  - runs the header checks;
  - allocates the object with the date and an empty segment list;
  - appends each normalised segment in a loop.
  It is proved against the function `Validate`, which states the same checks
  in the same order. Most lemmas about construction are lemmas about `Validate`.
- The analytics functions are methods with loops. Each is proved against a
  specification function: `AllDurations`, `AllScores` or `UnderSleepDates`
  (flattening and filtering in input order), or the predicates
  `IsFirstBest`, `HasSpike` and `IsTrendOf`.
- Default arguments are explicit parameters. The source's defaults are:
  - `is_restful`: thresholds 7 and 75;
  - `detect_under_sleep_days`: threshold 0;
  - `detect_spike`: threshold 2;
  - `quality_max`: 100.

Error behaviour of the constructor, as the code has it:
- An int duration raises `TypeError` (`record.py:24-25`), so a non-negative
  int duration is refused.
- The date, segment and range errors are all `ValueError`.
- `quality_max = 0` passes the range check (`record.py:15-16`) and fails at
  the first segment: with that segment's own error if it is malformed, an int
  or negative, otherwise with `NonPositiveMax` in normalisation
  (`utils.py:18-19`).

## Model

| member | source | states |
|---|---|---|
| `Utils.QualityLabel` | task1/sleep_tracking_toolkit/utils.py:1-11 | Excellent iff score ≥ 85, Good iff 70 ≤ score < 85, Fair iff 50 ≤ score < 70, Poor iff score < 50; every lower bound is inclusive |
| `Utils.QualityLabelMonotone` | task1/sleep_tracking_toolkit/utils.py:4-11 | a larger score never gets a lower band |
| `Utils.NormalizeQuality` | task1/sleep_tracking_toolkit/utils.py:13-20 | fails with the division guard exactly when the maximum is ≤ 0; otherwise within 0.005 of score/max*100, in [0,100] when 0 ≤ score ≤ max, and exactly 100 when score = max |
| `Utils.NormalizeQualityMonotone` | task1/sleep_tracking_toolkit/utils.py:20 | for a fixed positive maximum, a larger raw score never normalises lower |
| `Utils.ComputeSleepScore` | task1/sleep_tracking_toolkit/utils.py:22-30 | fails exactly for a negative duration; otherwise within 0.005 of min(min(d/8, 1)*60 + 0.4*q, 100), never above 100, and ≥ 0 when quality is in [0,100] |
| `Utils.SleepScoreExtremes` | task1/sleep_tracking_toolkit/utils.py:29-30 | 8 or more hours at quality 100 scores exactly 100; no sleep at quality 0 scores exactly 0 |
| `Utils.SleepScorePercent` | task1/sleep_tracking_toolkit/utils.py:29-30 | for duration ≥ 0 and quality in [0,100], the score is in [0,100] |
| `Utils.SleepScoreMonotone` | task1/sleep_tracking_toolkit/utils.py:29-30 | the score is non-decreasing in duration and in quality |
| `Utils.SleepScoreSaturates` | task1/sleep_tracking_toolkit/utils.py:29 | for a fixed quality, every duration ≥ 8 gives the same score |
| `Numeric.Round2` | task1/sleep_tracking_toolkit/utils.py:20 | no contract; `round(x, 2)` as the nearest hundredth, see `Numeric.Round2Monotone` and `Numeric.Round2Close` |
| `Numeric.Mean` | task1/sleep_tracking_toolkit/record.py:45 | no contract; `round(sum(xs)/len(xs), 2) if xs else 0`, see `Numeric.MeanBetween`, `Numeric.MeanPercent`, `Numeric.MeanNonNegative` |
| `Numeric.Round2Monotone` | task1/sleep_tracking_toolkit/utils.py:20 | rounding to two decimals is monotone |
| `Numeric.Round2Close` | task1/sleep_tracking_toolkit/utils.py:30 | rounding to two decimals moves a value by at most 0.005 |
| `Numeric.MeanBetween` | task1/sleep_tracking_toolkit/record.py:45 | the rounded mean of a non-empty list lies between the rounded lower and upper bounds of its elements |
| `Numeric.MeanMayUndershoot` | task1/sleep_tracking_toolkit/record.py:45 | the rounded mean of the single value 33.333 is 33.33, below that value, so the unrounded bounds do not hold |
| `Numeric.MeanPercent` | task1/sleep_tracking_toolkit/record.py:64 | the guarded mean of values in [0,100], 0 for no values, is in [0,100] |
| `Numeric.MeanNonNegative` | task1/sleep_tracking_toolkit/analytics.py:12 | the guarded mean of non-negative values is non-negative |
| `Record.Split` | task1/sleep_tracking_toolkit/record.py:85 | splitting always yields at least one piece |
| `Record.SplitOfJoin` | task1/sleep_tracking_toolkit/record.py:85 | splitting the join of dash-free pieces gives back exactly those pieces |
| `Record.JoinOfSplit` | task1/sleep_tracking_toolkit/record.py:85 | joining the pieces of a split gives back the string, and no piece holds a separator |
| `Record.IsValidDate` | task1/sleep_tracking_toolkit/record.py:81-114 | no contract; the split-based check as the source writes it, see `Record.IsValidDateIff` |
| `Record.IsValidDateIff` | task1/sleep_tracking_toolkit/record.py:81-114 | a date is accepted iff it is ten characters `DDDD-DD-DD` of ASCII digits with a month in 1..12 and a day in 1..the fixed days-in-month table |
| `Record.LeapDayAlwaysValid` | task1/sleep_tracking_toolkit/record.py:105-112 | "2023-02-29" is accepted, because February is always capped at 29 |
| `Record.FebruaryThirtiethInvalid` | task1/sleep_tracking_toolkit/record.py:105-112 | "2023-02-30" is rejected |
| `Record.AprilThirtyFirstInvalid` | task1/sleep_tracking_toolkit/record.py:105-112 | "2023-04-31" is rejected |
| `Record.NormalizeSegment` | task1/sleep_tracking_toolkit/record.py:20-40 | a segment that passes its checks is a pair, keeps its duration, and is stored with duration ≥ 0 and quality in [0,100] |
| `Record.NormalizeAllOk` | task1/sleep_tracking_toolkit/record.py:19-40 | the list normalises iff every segment does; the result then has the same length and order, segment by segment |
| `Record.NormalizeAllFirstError` | task1/sleep_tracking_toolkit/record.py:19-38 | a failure carries the error of the first failing segment; every earlier segment passes |
| `Record.Validate` | task1/sleep_tracking_toolkit/record.py:5-40 | no contract; the constructor's checks in the source's order, see `Record.ValidateOk`, `Record.ValidateRejects`, `Record.ValidateError` |
| `Record.ValidateOk` | task1/sleep_tracking_toolkit/record.py:5-40 | after successful construction: the date is valid, quality_max is in 1..100, and the stored segments match the input in length and order; each stored segment is well formed, keeps its duration, and holds the raw quality when quality_max = 100 and the normalised quality otherwise |
| `Record.ValidateRejects` | task1/sleep_tracking_toolkit/record.py:5-33 | construction fails for an empty or invalid date, missing or empty segments, quality_max outside [0,100], and quality_max = 0; unless quality_max = 0, the failure is raised as a `ValueError` |
| `Record.QualityMaxZeroFailsAtFirstSegment` | task1/sleep_tracking_toolkit/record.py:15-38 | with quality_max = 0 construction fails at the first segment, with that segment's own error, and with the division guard's error when the segment is a well-formed pair |
| `Record.ValidateError` | task1/sleep_tracking_toolkit/record.py:19-38 | once the header checks pass, construction fails iff some segment fails its checks, and the error is that of the first failing segment |
| `Record.RescaledQualityExample` | task1/sleep_tracking_toolkit/record.py:32-40 | raw quality 25 with quality_max 50 is stored as 50 |
| `Record.NegativeDurationExample` | task1/sleep_tracking_toolkit/record.py:26-27 | a duration of -1 aborts construction with the negative-duration error |
| `Record.DailySleepRecord.constructor` | task1/sleep_tracking_toolkit/record.py:17-18 | sets the date and starts with no segments |
| `Record.DailySleepRecord.Create` | task1/sleep_tracking_toolkit/record.py:4-40 | returns exactly the error the ordered checks give; on success returns a fresh record that keeps the invariant and holds the date and the validated segments |
| `Record.DailySleepRecord.IsRestful` | task1/sleep_tracking_toolkit/record.py:54-59 | true iff every segment has duration ≥ the duration threshold and quality ≥ the quality threshold |
| `Record.DailySleepRecord.AverageQuality` | task1/sleep_tracking_toolkit/record.py:43-45 | no contract; the guarded mean of the stored qualities, see `Record.AverageQualityBetween` |
| `Record.DailySleepRecord.TotalDuration` | task1/sleep_tracking_toolkit/record.py:48-50 | no contract; the rounded sum of the durations, 0 for none, see `Record.TotalDurationBounds` |
| `Record.AverageQualityBetween` | task1/sleep_tracking_toolkit/record.py:43-45 | the average quality lies between the rounded lower and upper bounds of the stored qualities, so between the rounded minimum and the rounded maximum; it can fall up to 0.005 below the minimum when a stored quality has more than two decimals |
| `Record.TotalDurationBounds` | task1/sleep_tracking_toolkit/record.py:48-50 | the total duration of a valid record is ≥ 0 and within 0.005 of the exact sum |
| `Record.DailySleepRecord.AverageSleepScore` | task1/sleep_tracking_toolkit/record.py:62-64 | the average sleep score of a valid record is in [0,100] |
| `Record.DailySleepRecord.Summary` | task1/sleep_tracking_toolkit/record.py:67-78 | each summary field equals its query, the label is the band of the average sleep score, and the bounds of the queries hold |
| `Analytics.OverallAverageDuration` | task1/sleep_tracking_toolkit/analytics.py:3-12 | the result is the guarded mean of all segment durations, flattened in record order |
| `Analytics.AllDurationsEmpty` | task1/sleep_tracking_toolkit/analytics.py:7-12 | the flattened durations are empty iff no record has a segment |
| `Analytics.OverallAverageDurationBounds` | task1/sleep_tracking_toolkit/analytics.py:7-12 | for valid records the overall average duration is ≥ 0, and it is 0 when no record has a segment |
| `Analytics.AllScoresPercent` | task1/sleep_tracking_toolkit/analytics.py:76-81 | every flattened sleep score of valid records is in [0,100] |
| `Analytics.AverageSleepScoreAcrossDays` | task1/sleep_tracking_toolkit/analytics.py:73-82 | the result is the guarded mean of the sleep scores of all segments in record order, and it is in [0,100] |
| `Analytics.BestSleepDay` | task1/sleep_tracking_toolkit/analytics.py:14-27 | None iff there are no records; otherwise the date of a record that scores ≥ every record and > every earlier one |
| `Analytics.FirstBestUnique` | task1/sleep_tracking_toolkit/analytics.py:21-25 | at most one record is first-best, so the answer is determined |
| `Analytics.TieGoesToFirst` | task1/sleep_tracking_toolkit/analytics.py:23-25 | of two records with equal average sleep score, the first is the best day |
| `Analytics.DetectUnderSleepDays` | task1/sleep_tracking_toolkit/analytics.py:29-39 | the result is, in input order, the date of each record that has a segment shorter than the threshold |
| `Analytics.UnderSleepDatesFaithful` | task1/sleep_tracking_toolkit/analytics.py:32-39 | at most one date per record; every reported date belongs to a record with a short segment; every such record is reported |
| `Analytics.DefaultThresholdReportsNothing` | task1/sleep_tracking_toolkit/analytics.py:29-36 | with threshold 0, valid records yield no dates |
| `Analytics.DetectSpike` | task1/sleep_tracking_toolkit/analytics.py:41-55 | fails iff there are fewer than two values; otherwise true iff some neighbouring pair differs by at least the threshold |
| `Analytics.SpikeExamples` | task1/sleep_tracking_toolkit/analytics.py:49-55 | [1.0, 3.5] has a spike for threshold 2; [1.0, 2.0] has none |
| `Analytics.DurationTrend` | task1/sleep_tracking_toolkit/analytics.py:57-71 | fails iff there are fewer than two values; otherwise one entry per neighbouring pair: Up iff the later value is larger, Down iff it is smaller, Same otherwise |
| `Analytics.TrendUnique` | task1/sleep_tracking_toolkit/analytics.py:63-71 | the durations determine the trend |
| `Analytics.TrendExample` | task1/sleep_tracking_toolkit/analytics.py:63-71 | [6, 7, 7, 5] has the trend [Up, Same, Down] |

## Left out

- Floating point: numbers are exact reals, so IEEE-754 representation and
  round-off are not modelled.
- Numeric.Round2: rounds exact ties up, whereas Python's `round` rounds them
  to even and works on the binary value of a float. The two can differ only
  on a value exactly halfway between two hundredths.
- Dynamic `isinstance` checks that Dafny's static types make unnecessary are
  not modelled, and neither are their `TypeError`/`ValueError` paths:
  - non-numeric scores and qualities;
  - a non-int `quality_max`;
  - a non-string date;
  - a `segments` value, or a `records` or `durations` argument, that is not a
    list.
  The int-versus-float duration check is kept, as a tag on the raw segment.
- `str.isdigit` accepts Unicode digits; the date check here accepts only
  ASCII `0`-`9`.
- The year of a date is converted with `int` and never used again, so it is
  not computed.
- `summary` returns a dictionary. Here it is the datatype `DaySummary` with
  the same five fields.
- Labels are datatypes instead of strings: `quality_label`'s `'Excellent'`,
  `'Good'`, `'Fair'`, `'Poor'` are `QualityBand`, and `duration_trend`'s
  `'up'`, `'down'`, `'same'` are `Trend`.
- Error messages are not modelled; an error is identified by its `Error`
  constructor.
- `AverageQuality`, `TotalDuration`, `AverageSleepScore` and `Summary` are
  functions on the segments; `IsRestful` is a method with the source's loop.
  `AverageQuality` and `TotalDuration` carry no contract of their own; their properties are the
  lemmas `AverageQualityBetween` and `TotalDurationBounds`.
- Record.DailySleepRecord.AverageSleepScore: requires the record invariant.
  The source would raise on a negative duration, but a constructed record
  never holds one.
- Record.DailySleepRecord.Summary: requires the record invariant, for the
  same reason.
- Analytics.BestSleepDay: requires the record invariant, for the same reason.
- Analytics.AverageSleepScoreAcrossDays: requires the record invariant, for
  the same reason.
- Module imports are not modelled.
