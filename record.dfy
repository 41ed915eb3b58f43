/** One day of sleep: date validation, construction of a record from raw
    (duration, quality) segments with normalisation, and the per-day queries. */
module Record {
  import opened Errors
  import opened Numeric
  import opened Utils

  // ---------------------------------------------------------------- dates

  /** Python's `s.split(sep)`: the pieces between separators, empty pieces kept. */
  function Split(s: string, sep: char): (parts: seq<string>)
    ensures |parts| >= 1
  {
    if s == [] then [[]]
    else
      var rest := Split(s[1..], sep);
      if s[0] == sep then [[]] + rest
      else [[s[0]] + rest[0]] + rest[1..]
  }

  /** `sep.join(parts)`, the inverse of `Split`. */
  function Join(parts: seq<string>, sep: char): string {
    if parts == [] then []
    else if |parts| == 1 then parts[0]
    else parts[0] + [sep] + Join(parts[1..], sep)
  }

  lemma {:induction false} SplitWithoutSeparator(p: string, sep: char)
    requires sep !in p
    ensures Split(p, sep) == [p]
  {
    if p != [] {
      SplitWithoutSeparator(p[1..], sep);
      assert [p[0]] + p[1..] == p;
    }
  }

  lemma {:induction false} SplitAtFirstSeparator(p: string, t: string, sep: char)
    requires sep !in p
    ensures Split(p + [sep] + t, sep) == [p] + Split(t, sep)
  {
    var s := p + [sep] + t;
    if p == [] {
      assert s[1..] == t;
    } else {
      assert s[1..] == p[1..] + [sep] + t;
      SplitAtFirstSeparator(p[1..], t, sep);
      assert [p[0]] + p[1..] == p;
    }
  }

  /** Splitting a join of separator-free pieces gives the pieces back. */
  lemma {:induction false} SplitOfJoin(parts: seq<string>, sep: char)
    requires |parts| >= 1
    requires forall i :: 0 <= i < |parts| ==> sep !in parts[i]
    ensures Split(Join(parts, sep), sep) == parts
  {
    if |parts| == 1 {
      SplitWithoutSeparator(parts[0], sep);
    } else {
      SplitOfJoin(parts[1..], sep);
      SplitAtFirstSeparator(parts[0], Join(parts[1..], sep), sep);
      assert [parts[0]] + parts[1..] == parts;
    }
  }

  /** Joining the pieces of a split gives the string back, and no piece holds a separator. */
  lemma {:induction false} JoinOfSplit(s: string, sep: char)
    ensures Join(Split(s, sep), sep) == s
    ensures forall i :: 0 <= i < |Split(s, sep)| ==> sep !in Split(s, sep)[i]
  {
    if s != [] {
      JoinOfSplit(s[1..], sep);
      var rest := Split(s[1..], sep);
      var parts := Split(s, sep);
      assert s == [s[0]] + s[1..];
      if s[0] == sep {
        assert parts == [[]] + rest;
        assert parts[1..] == rest;
      } else {
        assert parts == [[s[0]] + rest[0]] + rest[1..];
        assert parts[1..] == rest[1..];
        if |rest| > 1 {
          assert Join(rest, sep) == rest[0] + [sep] + Join(rest[1..], sep);
        }
      }
    }
  }

  predicate IsDigit(c: char) {
    '0' <= c <= '9'
  }

  /** `str.isdigit()` restricted to ASCII digits: non-empty and all digits. */
  predicate IsDigits(s: string) {
    |s| > 0 && forall i :: 0 <= i < |s| ==> IsDigit(s[i])
  }

  function DigitValue(c: char): int
    requires IsDigit(c)
  {
    c as int - '0' as int
  }

  /** `int(s)` for a string of decimal digits. */
  function ParseDigits(s: string): int
    requires forall i :: 0 <= i < |s| ==> IsDigit(s[i])
  {
    if s == [] then 0
    else ParseDigits(s[..|s| - 1]) * 10 + DigitValue(s[|s| - 1])
  }

  /** Days per month; February is always allowed 29 days, whatever the year. */
  const DaysInMonthTable: seq<int> := [31, 29, 31, 30, 31, 30, 31, 31, 30, 31, 30, 31]

  function DaysInMonth(month: int): int
    requires 1 <= month <= 12
  {
    DaysInMonthTable[month - 1]
  }

  /** `is_valid_date`: three dash-separated digit groups of widths 4, 2, 2, a
      month in 1..12 and a day in 1..DaysInMonth(month). The year is parsed by
      the source but never used. */
  predicate IsValidDate(date: string) {
    var parts := Split(date, '-');
    && |parts| == 3
    && IsDigits(parts[0]) && |parts[0]| == 4
    && IsDigits(parts[1]) && |parts[1]| == 2
    && IsDigits(parts[2]) && |parts[2]| == 2
    && var month := ParseDigits(parts[1]);
       var day := ParseDigits(parts[2]);
       1 <= month <= 12 && 1 <= day <= DaysInMonth(month)
  }

  /** Positional reading of a date: `YYYY-MM-DD`, ten characters with the
      dashes at 4 and 7 and digits everywhere else. */
  predicate DateShape(s: string) {
    && |s| == 10 && s[4] == '-' && s[7] == '-'
    && forall i :: 0 <= i < 10 && i != 4 && i != 7 ==> IsDigit(s[i])
  }

  function MonthOf(s: string): int
    requires DateShape(s)
  {
    10 * DigitValue(s[5]) + DigitValue(s[6])
  }

  function DayOf(s: string): int
    requires DateShape(s)
  {
    10 * DigitValue(s[8]) + DigitValue(s[9])
  }

  lemma ParseTwoDigits(s: string)
    requires |s| == 2 && IsDigits(s)
    ensures ParseDigits(s) == 10 * DigitValue(s[0]) + DigitValue(s[1])
  {
    var init := s[..1];
    assert |init| == 1 && init[0] == s[0] && init[..0] == [];
    assert ParseDigits(init) == DigitValue(s[0]);
    assert s[..|s| - 1] == init;
  }

  /** The split-based check accepts exactly the positional `YYYY-MM-DD` strings
      that name a month 1..12 and a day within that month's fixed limit. */
  lemma IsValidDateIff(s: string)
    ensures IsValidDate(s) <==>
      DateShape(s) && 1 <= MonthOf(s) <= 12 && 1 <= DayOf(s) <= DaysInMonth(MonthOf(s))
  {
    var parts := Split(s, '-');
    if IsValidDate(s) {
      JoinOfSplit(s, '-');
      assert Join(parts[1..], '-') == parts[1] + ['-'] + parts[2];
      assert s == parts[0] + ['-'] + parts[1] + ['-'] + parts[2];
      assert s[..4] == parts[0] && s[5..7] == parts[1] && s[8..] == parts[2];
      forall i | 0 <= i < 10 && i != 4 && i != 7 ensures IsDigit(s[i]) {
        if i < 4 { assert s[i] == parts[0][i]; }
        else if i < 7 { assert s[i] == parts[1][i - 5]; }
        else { assert s[i] == parts[2][i - 8]; }
      }
      ParseTwoDigits(parts[1]);
      ParseTwoDigits(parts[2]);
    }
    if DateShape(s) && 1 <= MonthOf(s) <= 12 && 1 <= DayOf(s) <= DaysInMonth(MonthOf(s)) {
      var ps := [s[..4], s[5..7], s[8..]];
      forall i | 0 <= i < 3 ensures '-' !in ps[i] && IsDigits(ps[i]) {
        assert forall k :: 0 <= k < |ps[i]| ==> ps[i][k] == s[[0, 5, 8][i] + k];
      }
      assert ps[1..] == [s[5..7], s[8..]] && ps[1..][1..] == [s[8..]];
      assert Join(ps[1..], '-') == s[5..7] + ['-'] + s[8..];
      assert s == s[..4] + [s[4]] + s[5..7] + [s[7]] + s[8..];
      assert Join(ps, '-') == s;
      SplitOfJoin(ps, '-');
      ParseTwoDigits(ps[1]);
      ParseTwoDigits(ps[2]);
    }
  }

  /** Checks a literal date through its positional reading. */
  lemma DateLiteral(s: string, month: int, day: int)
    requires |s| == 10 && s[4] == '-' && s[7] == '-'
    requires forall i :: 0 <= i < 10 && i != 4 && i != 7 ==> IsDigit(s[i])
    requires 10 * DigitValue(s[5]) + DigitValue(s[6]) == month && 1 <= month <= 12
    requires 10 * DigitValue(s[8]) + DigitValue(s[9]) == day
    ensures IsValidDate(s) <==> 1 <= day <= DaysInMonth(month)
  {
    IsValidDateIff(s);
  }

  /** February is capped at 29 in every year. */
  lemma LeapDayAlwaysValid()
    ensures IsValidDate("2023-02-29")
  {
    DateLiteral("2023-02-29", 2, 29);
  }

  /** A day past February's fixed limit of 29 is rejected. */
  lemma FebruaryThirtiethInvalid()
    ensures !IsValidDate("2023-02-30")
  {
    DateLiteral("2023-02-30", 2, 30);
  }

  /** A day past a 30-day month's limit is rejected. */
  lemma AprilThirtyFirstInvalid()
    ensures !IsValidDate("2023-04-31")
  {
    DateLiteral("2023-04-31", 4, 31);
  }

  // ------------------------------------------------------------- segments

  /** A stored segment: hours slept and quality on the 0-100 scale. */
  datatype Segment = Segment(duration: real, quality: real)

  /** A segment as the caller passes it. `NotAPair` is anything that is not a
      2-tuple; `durationIsFloat` tells a Python float from an int. */
  datatype RawSegment =
    | Pair(duration: real, durationIsFloat: bool, quality: real)
    | NotAPair

  /** The invariant of every stored segment. */
  predicate WellFormed(seg: Segment) {
    seg.duration >= 0.0 && 0.0 <= seg.quality <= 100.0
  }

  /** The per-segment checks of the constructor, in the source's order,
      followed by normalisation of the quality to the 0-100 scale. */
  function NormalizeSegment(raw: RawSegment, qualityMax: int): (r: Result<Segment>)
    ensures r.Ok? ==> raw.Pair? && WellFormed(r.value) && r.value.duration == raw.duration
  {
    if raw.NotAPair? then Err(MalformedSegment)
    else if !raw.durationIsFloat then Err(DurationNotFloat)
    else if raw.duration < 0.0 then Err(NegativeDuration)
    else
      var normalized :=
        if qualityMax != 100 then NormalizeQuality(raw.quality, qualityMax as real)
        else Ok(raw.quality);
      if normalized.Err? then Err(normalized.error)
      else if !(0.0 <= normalized.value <= 100.0) then Err(QualityOutOfRange)
      else Ok(Segment(raw.duration, normalized.value))
  }

  /** Normalises the raw segments one after another; the first failure wins. */
  function NormalizeAll(raws: seq<RawSegment>, qualityMax: int): Result<seq<Segment>> {
    if raws == [] then Ok([])
    else
      match NormalizeAll(raws[..|raws| - 1], qualityMax)
      case Err(e) => Err(e)
      case Ok(done) =>
        match NormalizeSegment(raws[|raws| - 1], qualityMax)
        case Err(e) => Err(e)
        case Ok(seg) => Ok(done + [seg])
  }

  /** The whole list normalises iff every segment does, and then it is the
      segments' normalisations in the same order. */
  lemma {:induction false} NormalizeAllOk(raws: seq<RawSegment>, qualityMax: int)
    ensures NormalizeAll(raws, qualityMax).Ok? <==>
      forall i :: 0 <= i < |raws| ==> NormalizeSegment(raws[i], qualityMax).Ok?
    ensures NormalizeAll(raws, qualityMax).Ok? ==>
      var stored := NormalizeAll(raws, qualityMax).value;
      |stored| == |raws| &&
      forall i :: 0 <= i < |raws| ==> NormalizeSegment(raws[i], qualityMax) == Ok(stored[i])
  {
    if raws != [] {
      var init := raws[..|raws| - 1];
      NormalizeAllOk(init, qualityMax);
      assert forall i :: 0 <= i < |init| ==> init[i] == raws[i];
    }
  }

  /** A failure reports the error of the first segment that fails. */
  lemma {:induction false} NormalizeAllFirstError(raws: seq<RawSegment>, qualityMax: int)
    requires NormalizeAll(raws, qualityMax).Err?
    ensures exists k :: (
      && 0 <= k < |raws|
      && NormalizeSegment(raws[k], qualityMax) == Err(NormalizeAll(raws, qualityMax).error)
      && forall i :: 0 <= i < k ==> NormalizeSegment(raws[i], qualityMax).Ok?)
  {
    var init := raws[..|raws| - 1];
    assert forall i :: 0 <= i < |init| ==> init[i] == raws[i];
    if NormalizeAll(init, qualityMax).Err? {
      NormalizeAllFirstError(init, qualityMax);
    } else {
      NormalizeAllOk(init, qualityMax);
      var k := |raws| - 1;
      assert NormalizeSegment(raws[k], qualityMax) == Err(NormalizeAll(raws, qualityMax).error);
    }
  }

  /** Once a prefix fails, the whole list fails with the same error. */
  lemma {:induction false} NormalizeAllPrefixError(raws: seq<RawSegment>, n: nat, qualityMax: int)
    requires n <= |raws| && NormalizeAll(raws[..n], qualityMax).Err?
    ensures NormalizeAll(raws, qualityMax) == NormalizeAll(raws[..n], qualityMax)
  {
    if n < |raws| {
      assert raws[..|raws| - 1][..n] == raws[..n];
      NormalizeAllPrefixError(raws[..|raws| - 1], n, qualityMax);
    } else {
      assert raws[..n] == raws;
    }
  }

  /** The constructor's checks in the source's order: the date, the presence
      and non-emptiness of the segments, the range of `quality_max`, then
      each segment. On success, the segments to be stored. */
  function Validate(date: string, segments: Option<seq<RawSegment>>, qualityMax: int): Result<seq<Segment>> {
    if date == [] then Err(MissingDate)
    else if !IsValidDate(date) then Err(InvalidDate)
    else if segments.None? then Err(MissingSegments)
    else if segments.value == [] then Err(EmptySegments)
    else if !(0 <= qualityMax <= 100) then Err(QualityMaxOutOfRange)
    else NormalizeAll(segments.value, qualityMax)
  }

  /** What a successful construction stores: a valid date, as many segments as
      were given, in the same order, each well formed, with the duration kept
      and the quality either taken as is (scale 100) or normalised. */
  lemma ValidateOk(date: string, segments: Option<seq<RawSegment>>, qualityMax: int)
    requires Validate(date, segments, qualityMax).Ok?
    ensures IsValidDate(date) && segments.Some? && 0 < qualityMax <= 100
    ensures var stored := Validate(date, segments, qualityMax).value;
      var raws := segments.value;
      && |stored| == |raws| > 0
      && forall i :: 0 <= i < |raws| ==>
           && raws[i].Pair?
           && WellFormed(stored[i])
           && stored[i].duration == raws[i].duration
           && (qualityMax == 100 ==> stored[i].quality == raws[i].quality)
           && (qualityMax != 100 ==>
                 stored[i].quality == NormalizeQuality(raws[i].quality, qualityMax as real).value)
  {
    var raws := segments.value;
    NormalizeAllOk(raws, qualityMax);
    assert NormalizeSegment(raws[0], qualityMax).Ok?;
  }

  /** Construction fails for an empty or invalid date, missing or empty
      segments, `quality_max` outside [0, 100], and also for `quality_max`
      of 0, which passes the range check but cannot normalise any segment. */
  lemma ValidateRejects(date: string, segments: Option<seq<RawSegment>>, qualityMax: int)
    requires
      || date == [] || !IsValidDate(date)
      || segments.None? || segments.value == []
      || qualityMax < 0 || qualityMax > 100 || qualityMax == 0
    ensures Validate(date, segments, qualityMax).Err?
    ensures qualityMax != 0 ==> Validate(date, segments, qualityMax).error.Kind() == ValueError
  {
    if Validate(date, segments, qualityMax).Ok? {
      ValidateOk(date, segments, qualityMax);
    }
  }

  /** With `quality_max` 0 construction fails at the first segment: with that
      segment's own error, or else in normalisation. */
  lemma QualityMaxZeroFailsAtFirstSegment(date: string, raws: seq<RawSegment>)
    requires date != [] && IsValidDate(date) && raws != []
    ensures NormalizeSegment(raws[0], 0).Err?
    ensures Validate(date, Some(raws), 0) == Err(NormalizeSegment(raws[0], 0).error)
    ensures raws[0].Pair? && raws[0].durationIsFloat && raws[0].duration >= 0.0 ==>
      Validate(date, Some(raws), 0) == Err(NonPositiveMax)
  {
    var first := raws[..1];
    assert first[..0] == [] && first[0] == raws[0];
    NormalizeAllPrefixError(raws, 1, 0);
  }

  /** Construction fails iff one of the header checks fails or some segment
      fails its own checks, and then with the first failing check's error. */
  lemma ValidateError(date: string, raws: seq<RawSegment>, qualityMax: int)
    requires date != [] && IsValidDate(date) && raws != [] && 0 <= qualityMax <= 100
    ensures Validate(date, Some(raws), qualityMax).Err? <==>
      exists i :: 0 <= i < |raws| && NormalizeSegment(raws[i], qualityMax).Err?
    ensures Validate(date, Some(raws), qualityMax).Err? ==>
      exists k :: (
        && 0 <= k < |raws|
        && NormalizeSegment(raws[k], qualityMax) == Err(Validate(date, Some(raws), qualityMax).error)
        && forall i :: 0 <= i < k ==> NormalizeSegment(raws[i], qualityMax).Ok?)
  {
    NormalizeAllOk(raws, qualityMax);
    if NormalizeAll(raws, qualityMax).Err? {
      NormalizeAllFirstError(raws, qualityMax);
    }
  }

  /** A quality of 25 on a 0-50 scale is stored as 50. */
  lemma RescaledQualityExample()
    ensures Validate("2023-05-01", Some([Pair(7.5, true, 25.0)]), 50) == Ok([Segment(7.5, 50.0)])
  {
    IsValidDateIff("2023-05-01");
    var raws := [Pair(7.5, true, 25.0)];
    assert raws[..0] == [];
    assert 25.0 / 50.0 * 100.0 == 5000 as real / 100.0;
    Round2Exact(5000);
    assert NormalizeQuality(25.0, 50.0) == Ok(50.0);
    assert NormalizeSegment(raws[0], 50) == Ok(Segment(7.5, 50.0));
    assert NormalizeAll(raws[..0], 50) == Ok([]);
    assert raws[..|raws| - 1] == raws[..0] && raws[|raws| - 1] == raws[0];
    var stored: seq<Segment> := [];
    assert stored + [Segment(7.5, 50.0)] == [Segment(7.5, 50.0)];
  }

  /** A negative duration is refused. */
  lemma NegativeDurationExample()
    ensures Validate("2023-05-01", Some([Pair(-1.0, true, 80.0)]), 100) == Err(NegativeDuration)
  {
    IsValidDateIff("2023-05-01");
    var raws := [Pair(-1.0, true, 80.0)];
    assert raws[..0] == [];
  }

  // ---------------------------------------------------------------- queries

  function Qualities(segments: seq<Segment>): (qs: seq<real>)
    ensures |qs| == |segments|
  {
    seq(|segments|, i requires 0 <= i < |segments| => segments[i].quality)
  }

  function Durations(segments: seq<Segment>): (ds: seq<real>)
    ensures |ds| == |segments|
  {
    seq(|segments|, i requires 0 <= i < |segments| => segments[i].duration)
  }

  /** The sleep score of a stored segment; stored durations are never negative. */
  function SegmentScore(seg: Segment): real
    requires seg.duration >= 0.0
  {
    ComputeSleepScore(seg.duration, seg.quality).value
  }

  function Scores(segments: seq<Segment>): (scores: seq<real>)
    requires forall i :: 0 <= i < |segments| ==> segments[i].duration >= 0.0
    ensures |scores| == |segments|
  {
    seq(|segments|, i requires 0 <= i < |segments| && segments[i].duration >= 0.0 =>
      SegmentScore(segments[i]))
  }

  /** The per-day summary: the source's dictionary with the same five keys. */
  datatype DaySummary = DaySummary(
    date: string,
    avgQuality: real,
    totalDuration: real,
    avgSleepScore: real,
    qualityLabel: QualityBand)

  class DailySleepRecord {
    const date: string
    var segments: seq<Segment>

    /** The object invariant established by `Create`: a valid date and a
        non-empty list of well-formed segments. */
    ghost predicate Valid()
      reads this
    {
      && IsValidDate(date)
      && |segments| > 0
      && forall i :: 0 <= i < |segments| ==> WellFormed(segments[i])
    }

    /** Sets the date and starts with no segments: only the allocation step
        of `Create`, and not yet `Valid()`. */
    constructor (date: string)
      ensures this.date == date && segments == []
    {
      this.date := date;
      segments := [];
    }

    /** `DailySleepRecord(date, segments, quality_max)`: runs the header checks,
        then appends each segment's normalisation in turn; any failed check
        aborts and no record is handed out. */
    static method Create(date: string, segments: Option<seq<RawSegment>>, qualityMax: int)
      returns (r: Result<DailySleepRecord>)
      ensures Validate(date, segments, qualityMax).Err? ==>
        r == Err(Validate(date, segments, qualityMax).error)
      ensures Validate(date, segments, qualityMax).Ok? ==>
        && r.Ok? && fresh(r.value) && r.value.Valid()
        && r.value.date == date
        && r.value.segments == Validate(date, segments, qualityMax).value
    {
      if date == [] { return Err(MissingDate); }
      if !IsValidDate(date) { return Err(InvalidDate); }
      if segments.None? { return Err(MissingSegments); }
      if segments.value == [] { return Err(EmptySegments); }
      if !(0 <= qualityMax <= 100) { return Err(QualityMaxOutOfRange); }
      var rec := new DailySleepRecord(date);
      var raws := segments.value;
      for i := 0 to |raws|
        invariant fresh(rec) && rec.date == date
        invariant NormalizeAll(raws[..i], qualityMax) == Ok(rec.segments)
      {
        assert raws[..i + 1][..i] == raws[..i];
        var raw := raws[i];
        if raw.NotAPair? {
          NormalizeAllPrefixError(raws, i + 1, qualityMax);
          return Err(MalformedSegment);
        }
        if !raw.durationIsFloat {
          NormalizeAllPrefixError(raws, i + 1, qualityMax);
          return Err(DurationNotFloat);
        }
        if raw.duration < 0.0 {
          NormalizeAllPrefixError(raws, i + 1, qualityMax);
          return Err(NegativeDuration);
        }
        var normalized: real;
        if qualityMax != 100 {
          var n := NormalizeQuality(raw.quality, qualityMax as real);
          if n.Err? {
            NormalizeAllPrefixError(raws, i + 1, qualityMax);
            return Err(n.error);
          }
          normalized := n.value;
        } else {
          normalized := raw.quality;
        }
        if !(0.0 <= normalized <= 100.0) {
          NormalizeAllPrefixError(raws, i + 1, qualityMax);
          return Err(QualityOutOfRange);
        }
        rec.segments := rec.segments + [Segment(raw.duration, normalized)];
      }
      assert raws[..|raws|] == raws;
      ValidateOk(date, segments, qualityMax);
      return Ok(rec);
    }

    /** Mean stored quality, rounded; 0 when there are no segments. */
    function AverageQuality(): real
      reads this
    {
      Mean(Qualities(segments))
    }

    /** Sum of the durations, rounded; 0 when there are no segments. */
    function TotalDuration(): real
      reads this
    {
      if segments == [] then 0.0 else Round2(Sum(Durations(segments)))
    }

    /** True iff every segment meets both the duration and the quality
        threshold (the source's defaults are 7 and 75). */
    method IsRestful(durationThreshold: real, qualityThreshold: real) returns (restful: bool)
      ensures restful <==> forall i :: 0 <= i < |segments| ==>
        durationThreshold <= segments[i].duration && qualityThreshold <= segments[i].quality
    {
      for i := 0 to |segments|
        invariant forall j :: 0 <= j < i ==>
          durationThreshold <= segments[j].duration && qualityThreshold <= segments[j].quality
      {
        var seg := segments[i];
        if seg.duration < durationThreshold || seg.quality < qualityThreshold {
          return false;
        }
      }
      return true;
    }

    /** Mean sleep score of the segments, rounded; always in [0, 100]. */
    function AverageSleepScore(): (avg: real)
      reads this
      requires Valid()
      ensures 0.0 <= avg <= 100.0
    {
      var scores := Scores(segments);
      assert forall i :: 0 <= i < |scores| ==> 0.0 <= scores[i] <= 100.0 by {
        forall i | 0 <= i < |scores| ensures 0.0 <= scores[i] <= 100.0 {
          SleepScorePercent(segments[i].duration, segments[i].quality);
        }
      }
      MeanPercent(scores);
      Mean(scores)
    }

    /** The day's summary: each field is the matching query, and the label is
        the band of the average sleep score. */
    function Summary(): (s: DaySummary)
      reads this
      requires Valid()
      ensures s.date == date
      ensures s.avgQuality == AverageQuality() && 0.0 <= s.avgQuality <= 100.0
      ensures s.totalDuration == TotalDuration() && 0.0 <= s.totalDuration
      ensures s.avgSleepScore == AverageSleepScore() && 0.0 <= s.avgSleepScore <= 100.0
      ensures s.qualityLabel == QualityLabel(s.avgSleepScore)
    {
      AverageQualityBetween(this, 0.0, 100.0);
      Round2Exact(0);
      Round2Exact(10000);
      TotalDurationBounds(this);
      var avgSleepScore := AverageSleepScore();
      DaySummary(date, AverageQuality(), TotalDuration(), avgSleepScore, QualityLabel(avgSleepScore))
    }
  }

  /** The average quality lies between any bounds of the stored qualities
      after rounding: between the rounded minimum and the rounded maximum.
      It can fall up to 0.005 below the minimum when a stored quality has more
      than two decimals (see `MeanMayUndershoot`). */
  lemma AverageQualityBetween(rec: DailySleepRecord, lo: real, hi: real)
    requires rec.segments != []
    requires forall i :: 0 <= i < |rec.segments| ==> lo <= rec.segments[i].quality <= hi
    ensures Round2(lo) <= rec.AverageQuality() <= Round2(hi)
  {
    MeanBetween(Qualities(rec.segments), lo, hi);
  }

  /** The total duration of a valid record is non-negative and within rounding
      of the exact sum. */
  lemma TotalDurationBounds(rec: DailySleepRecord)
    requires rec.Valid()
    ensures 0.0 <= rec.TotalDuration()
    ensures Sum(Durations(rec.segments)) - 0.005 <= rec.TotalDuration() <= Sum(Durations(rec.segments)) + 0.005
  {
    var ds := Durations(rec.segments);
    SumNonNegative(ds);
    Round2Monotone(0.0, Sum(ds));
    Round2Exact(0);
    Round2Close(Sum(ds));
  }
}
