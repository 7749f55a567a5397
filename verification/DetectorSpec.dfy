/**
 What the anomaly detector reports about one user, and which of its findings can
 ever occur: the last day is part of the baseline window it is compared with.
 */
module DetectorSpec {
  import opened Options
  import opened SessionLog
  import opened Statistics
  import opened Tallies

  const DAY := 86400
  const THRESHOLD := 2.5

  /** The hour of the day and the calendar day of a Unix time, in UTC. */
  function HourOf(time: int): int { (time % DAY) / 3600 }
  function DayOf(time: int): int { time / DAY }

  /** The rows of a user since a time, oldest first; an empty user or a zero time does not filter. */
  function Rows(log: seq<Session>, user: string, since: int): seq<Session> {
    if log == [] then [] else
      var before, s := Rows(log[..|log| - 1], user, since), log[|log| - 1];
      if (user == "" || s.user == user) && (since == 0 || s.timestamp >= since) then before + [s] else before
  }

  function Connects(rows: seq<Session>): seq<Session> {
    if rows == [] then [] else
      var before, s := Connects(rows[..|rows| - 1]), rows[|rows| - 1];
      if s.event == CONNECTED then before + [s] else before
  }

  function Hours(rows: seq<Session>): (h: seq<int>)
    ensures |h| == |rows|
  {
    seq(|rows|, i requires 0 <= i < |rows| => HourOf(rows[i].timestamp))
  }

  function Days(rows: seq<Session>): (d: seq<int>)
    ensures |d| == |rows|
  {
    seq(|rows|, i requires 0 <= i < |rows| => DayOf(rows[i].timestamp))
  }

  /** Sessions started on each active day. */
  function Daily(rows: seq<Session>): seq<nat> {
    Tally(Days(Connects(rows)))
  }

  function Reals(s: seq<int>): (r: seq<real>)
    ensures |r| == |s|
  {
    seq(|s|, i requires 0 <= i < |s| => s[i] as real)
  }

  // ---------------------------------------------------------------- findings

  /** A finding with the square of its z-score, negative for a negative score. */
  datatype Anomaly =
    | UnusualTime(hour: int, fraction: real, zz: real)
    | HighFrequency(count: int, zz: real)
    | LongDuration(duration: int, zz: real)

  datatype Kind = UNUSUAL_TIME | HIGH_FREQUENCY | LONG_DURATION

  function KindOf(a: Anomaly): Kind {
    match a
    case UnusualTime(_, _, _) => UNUSUAL_TIME
    case HighFrequency(_, _) => HIGH_FREQUENCY
    case LongDuration(_, _) => LONG_DURATION
  }

  /** 4.0 for an hour never seen, otherwise 1 / fraction with the fraction at least 0.001. */
  function RareHourScore(fraction: real): real {
    if fraction == 0.0 then 4.0 else 1.0 / (if fraction > 0.001 then fraction else 0.001)
  }

  /** The share of keys that equal k. */
  function Share(keys: seq<int>, k: int): real
    requires keys != []
  {
    CountOf(keys, k) as real / |keys| as real
  }

  /** Connects at hours that hold less than 2% of the baseline. */
  function UnusualTimes(recent: seq<Session>, hours: seq<int>): seq<Anomaly> {
    if recent == [] || hours == [] then [] else
      var n := |recent| - 1;
      var hour := HourOf(recent[n].timestamp);
      var share := Share(hours, hour);
      UnusualTimes(recent[..n], hours)
      + if share < 0.02 then [UnusualTime(hour, share, Square(RareHourScore(share)))] else []
  }

  /** The signed square of the z-score. */
  function SignedScore(values: seq<real>, x: real): real
    requires Variance(values) > 0.0
  {
    Signed(x - Mean(values)) / Variance(values)
  }

  function HighFrequencies(recent: seq<int>, baseline: seq<real>, threshold: real): seq<Anomaly> {
    if recent == [] then [] else
      var n := |recent| - 1;
      var x := recent[n] as real;
      HighFrequencies(recent[..n], baseline, threshold)
      + if ZAbove(baseline, x, threshold) then [HighFrequency(recent[n], SignedScore(baseline, x))] else []
  }

  function LongDurations(recent: seq<int>, baseline: seq<real>, threshold: real): seq<Anomaly> {
    if recent == [] then [] else
      var n := |recent| - 1;
      var x := recent[n] as real;
      LongDurations(recent[..n], baseline, threshold)
      + if ZAbove(baseline, x, threshold) then [LongDuration(recent[n], SignedScore(baseline, x))] else []
  }

  function Findings(base: seq<Session>, recent: seq<Session>, threshold: real): seq<Anomaly> {
    UnusualTimes(Connects(recent), Hours(Connects(base)))
    + HighFrequencies(Daily(recent), Reals(Daily(base)), threshold)
    + LongDurations(Durations(recent), Reals(Durations(base)), threshold)
  }

  // ---------------------------------------------------------------- the report

  datatype Severity = LOW | MEDIUM | HIGH
  datatype Verdict = Composite | Only(kind: Kind)
  datatype Report = Report(verdict: Verdict, severity: Severity, details: seq<Anomaly>)

  /** Some finding's z-score lies above the square root of zz. */
  predicate Reaches(found: seq<Anomaly>, zz: real) {
    exists i :: 0 <= i < |found| && found[i].zz > zz
  }

  predicate TwoKinds(found: seq<Anomaly>) {
    exists i, j :: 0 <= i < j < |found| && KindOf(found[i]) != KindOf(found[j])
  }

  /** z above 4.5 is high, above 3.5 medium; two kinds of finding raise it by one. */
  function SeverityOf(found: seq<Anomaly>): Severity {
    if Reaches(found, 20.25) then HIGH
    else if Reaches(found, 12.25) then if TwoKinds(found) then HIGH else MEDIUM
    else if TwoKinds(found) then MEDIUM else LOW
  }

  function ReportOf(found: seq<Anomaly>): Option<Report> {
    if found == [] then None
    else Some(Report(if TwoKinds(found) then Composite else Only(KindOf(found[0])), SeverityOf(found), found))
  }

  function Baseline(log: seq<Session>, user: string, now: int, days: nat): seq<Session> {
    Rows(log, user, now - days * DAY)
  }

  function Recent(log: seq<Session>, user: string, now: int): seq<Session> {
    Rows(log, user, now - DAY)
  }

  function Analysis(log: seq<Session>, user: string, now: int, days: nat, threshold: real): Option<Report> {
    var base := Baseline(log, user, now, days);
    if |base| < 5 then None else ReportOf(Findings(base, Recent(log, user, now), threshold))
  }

  // ---------------------------------------------------------------- the last day is part of the baseline

  lemma {:induction false} NoRows(log: seq<Session>, user: string, since: int)
    requires since != 0 && forall i :: 0 <= i < |log| ==> log[i].timestamp < since
    ensures Rows(log, user, since) == []
  {
    if log != [] {
      NoRows(log[..|log| - 1], user, since);
    }
  }

  /** On a sorted log, the rows since a later time end the rows since an earlier one. */
  lemma {:induction false} LaterRowsAreSuffix(log: seq<Session>, user: string, early: int, late: int)
    returns (prefix: seq<Session>)
    requires Sorted(log) && early <= late && late > 0
    ensures Rows(log, user, early) == prefix + Rows(log, user, late)
  {
    prefix := [];
    if log != [] {
      var n := |log| - 1;
      if log[n].timestamp < late {
        NoRows(log, user, late);
        prefix := Rows(log, user, early);
      } else {
        prefix := LaterRowsAreSuffix(log[..n], user, early, late);
      }
    }
  }

  lemma {:induction false} ConnectsConcat(a: seq<Session>, b: seq<Session>)
    ensures Connects(a + b) == Connects(a) + Connects(b)
  {
    if b == [] {
      assert a + b == a;
    } else {
      assert (a + b)[..|a + b| - 1] == a + b[..|b| - 1];
      ConnectsConcat(a, b[..|b| - 1]);
    }
  }

  /** Each day counted in a suffix has at least that count in the whole. */
  lemma DailySuffix(a: seq<Session>, b: seq<Session>, i: nat)
    requires i < |Daily(b)|
    ensures Bounded(Daily(b)[i], Daily(a + b))
  {
    ConnectsConcat(a, b);
    var x, y := Days(Connects(a)), Days(Connects(b));
    assert Days(Connects(a + b)) == x + y;
    TallySuffix(x, y, i);
    var j :| 0 <= j < |Tally(x + y)| && Tally(y)[i] <= Tally(x + y)[j];
    assert Daily(b)[i] <= Daily(a + b)[j];
  }

  /** Each hour of a suffix's connects has been counted in the whole. */
  lemma HourSuffix(a: seq<Session>, b: seq<Session>, i: nat)
    requires i < |Connects(b)|
    ensures CountOf(Hours(Connects(a + b)), HourOf(Connects(b)[i].timestamp)) >= 1
  {
    ConnectsConcat(a, b);
    var hours := Hours(Connects(a + b));
    assert hours[|Connects(a)| + i] == HourOf(Connects(b)[i].timestamp);
  }

  // ---------------------------------------------------------------- what each finding proves about the baseline

  lemma {:induction false} UnusualTimeNeeds(recent: seq<Session>, hours: seq<int>, x: Anomaly)
    requires forall i :: 0 <= i < |recent| ==> CountOf(hours, HourOf(recent[i].timestamp)) >= 1
    requires x in UnusualTimes(recent, hours)
    ensures x.UnusualTime? && 0.0 < x.fraction < 0.02 && x.zz > 2500.0
    ensures |hours| > 50
  {
    var n := |recent| - 1;
    if x in UnusualTimes(recent[..n], hours) {
      UnusualTimeNeeds(recent[..n], hours, x);
    } else {
      ShareBounds(hours, HourOf(recent[n].timestamp));
    }
  }

  lemma ShareBounds(hours: seq<int>, hour: int)
    requires hours != [] && CountOf(hours, hour) >= 1 && Share(hours, hour) < 0.02
    ensures Share(hours, hour) > 0.0 && |hours| > 50
    ensures Square(RareHourScore(Share(hours, hour))) > 2500.0
  {
    ShareArith(CountOf(hours, hour) as real, |hours| as real, Share(hours, hour));
    ScoreArith(Share(hours, hour));
  }

  lemma AtMost(a: real, b: real)
    requires a >= 0.0 && b >= 0.0
    ensures a * b >= 0.0
  {
  }

  lemma ShareArith(c: real, n: real, f: real)
    requires c >= 1.0 && n > 0.0 && f == c / n && f < 0.02
    ensures f > 0.0 && n > 50.0
  {
    assert f * n == c;
    if n <= 50.0 {
      AtMost(0.02 - f, n);
    }
  }

  lemma ScoreArith(f: real)
    requires 0.0 < f < 0.02
    ensures Square(RareHourScore(f)) > 2500.0
  {
    var g := if f > 0.001 then f else 0.001;
    var z := 1.0 / g;
    assert z * g == 1.0;
    if z <= 50.0 {
      AtMost(50.0 - z, g);
    }
    assert (z - 50.0) * (z + 50.0) > 0.0;
  }

  ghost predicate Bounded(x: int, baseline: seq<int>) {
    exists j :: 0 <= j < |baseline| && x <= baseline[j]
  }

  /** A list of readings, none of which is above every baseline value. */
  ghost predicate Covered(recent: seq<int>, baseline: seq<int>) {
    forall i :: 0 <= i < |recent| ==> Bounded(recent[i], baseline)
  }

  lemma CoveredNotAbove(recent: seq<int>, baseline: seq<int>, i: nat, t: real)
    requires Covered(recent, baseline) && i < |recent| && TooFewFor(|baseline|, t)
    ensures !ZAbove(Reals(baseline), recent[i] as real, t)
  {
    var j :| 0 <= j < |baseline| && recent[i] <= baseline[j];
    NotAbove(Reals(baseline), j, recent[i] as real, t);
  }

  lemma {:induction false} HighFrequencyNeeds(recent: seq<int>, baseline: seq<int>, t: real, x: Anomaly)
    requires Covered(recent, baseline) && x in HighFrequencies(recent, Reals(baseline), t)
    ensures x.HighFrequency? && !TooFewFor(|baseline|, t)
    ensures forall u :: u > 0.0 && TooFewFor(|baseline|, u) ==> x.zz <= u * u
  {
    var n := |recent| - 1;
    if x in HighFrequencies(recent[..n], Reals(baseline), t) {
      HighFrequencyNeeds(recent[..n], baseline, t, x);
    } else {
      ReadingNeeds(recent, baseline, n, t, x.zz);
    }
  }

  lemma {:induction false} LongDurationNeeds(recent: seq<int>, baseline: seq<int>, t: real, x: Anomaly)
    requires Covered(recent, baseline) && x in LongDurations(recent, Reals(baseline), t)
    ensures x.LongDuration? && !TooFewFor(|baseline|, t)
    ensures forall u :: u > 0.0 && TooFewFor(|baseline|, u) ==> x.zz <= u * u
  {
    var n := |recent| - 1;
    if x in LongDurations(recent[..n], Reals(baseline), t) {
      LongDurationNeeds(recent[..n], baseline, t, x);
    } else {
      ReadingNeeds(recent, baseline, n, t, x.zz);
    }
  }

  lemma ReadingNeeds(recent: seq<int>, baseline: seq<int>, n: nat, t: real, zz: real)
    requires Covered(recent, baseline) && n < |recent| && ZAbove(Reals(baseline), recent[n] as real, t)
    requires zz == SignedScore(Reals(baseline), recent[n] as real)
    ensures !TooFewFor(|baseline|, t)
    ensures forall u :: u > 0.0 && TooFewFor(|baseline|, u) ==> zz <= u * u
  {
    if TooFewFor(|baseline|, t) {
      CoveredNotAbove(recent, baseline, n, t);
    }
    forall u | u > 0.0 && TooFewFor(|baseline|, u) ensures zz <= u * u {
      CoveredNotAbove(recent, baseline, n, u);
      var v := Variance(Reals(baseline));
      var d := recent[n] as real - Mean(Reals(baseline));
      assert Signed(u) == u * u;
      hide Variance, Mean, TooFewFor, Signed;
      QuotientAtMost(Signed(d), v, u * u, zz);
    }
  }

  lemma QuotientAtMost(dd: real, v: real, uu: real, zz: real)
    requires v > 0.0 && dd <= uu * v && zz == dd / v
    ensures zz <= uu
  {
    assert zz * v == dd;
    assert v * (uu - zz) >= 0.0;
    PositiveFactor(v, uu - zz);
  }

  lemma SubsequenceCovered(recent: seq<int>, baseline: seq<int>)
    requires Subsequence(recent, baseline)
    ensures Covered(recent, baseline)
  {
    forall i | 0 <= i < |recent| ensures Bounded(recent[i], baseline) {
      SubsequenceMember(recent, baseline, recent[i]);
      var j :| 0 <= j < |baseline| && baseline[j] == recent[i];
      assert recent[i] <= baseline[j];
    }
  }

  lemma DailyCovered(a: seq<Session>, b: seq<Session>)
    ensures Covered(Daily(b), Daily(a + b))
  {
    hide Daily;
    forall i | 0 <= i < |Daily(b)| ensures Bounded(Daily(b)[i], Daily(a + b)) {
      DailySuffix(a, b, i);
    }
  }

  /** The readings of the last day are covered by those of the baseline window. */
  lemma RecentIsCovered(log: seq<Session>, user: string, now: int, days: nat)
    requires Sorted(log) && now > DAY && days >= 1
    ensures var base, recent := Baseline(log, user, now, days), Recent(log, user, now);
            && Covered(Durations(recent), Durations(base))
            && Covered(Daily(recent), Daily(base))
            && forall i :: 0 <= i < |Connects(recent)| ==>
                 CountOf(Hours(Connects(base)), HourOf(Connects(recent)[i].timestamp)) >= 1
  {
    var base, recent := Baseline(log, user, now, days), Recent(log, user, now);
    var a := LaterRowsAreSuffix(log, user, now - days * DAY, now - DAY);
    assert base == a + recent;
    SuffixDurations(a, recent);
    SubsequenceCovered(Durations(recent), Durations(base));
    DailyCovered(a, recent);
    forall i | 0 <= i < |Connects(recent)|
      ensures CountOf(Hours(Connects(base)), HourOf(Connects(recent)[i].timestamp)) >= 1
    {
      HourSuffix(a, recent, i);
    }
  }

  /**
   What the findings of one analysis say about the baseline: an unusual hour needs more
   than 50 connects and always has z above 50, never the score 4.0 of an unseen hour;
   the two z-tests need enough values, and their scores stay within the member bound.
   */
  lemma FindingNeeds(log: seq<Session>, user: string, now: int, days: nat, t: real, x: Anomaly)
    requires Sorted(log) && now > DAY && days >= 1
    requires x in Findings(Baseline(log, user, now, days), Recent(log, user, now), t)
    ensures var base := Baseline(log, user, now, days);
            match x
            case UnusualTime(_, fraction, zz) =>
              |Connects(base)| > 50 && 0.0 < fraction < 0.02 && zz > 2500.0
            case HighFrequency(_, zz) =>
              && !TooFewFor(|Daily(base)|, t)
              && forall u :: u > 0.0 && TooFewFor(|Daily(base)|, u) ==> zz <= u * u
            case LongDuration(_, zz) =>
              && !TooFewFor(|Durations(base)|, t)
              && forall u :: u > 0.0 && TooFewFor(|Durations(base)|, u) ==> zz <= u * u
  {
    RecentIsCovered(log, user, now, days);
    var base, recent := Baseline(log, user, now, days), Recent(log, user, now);
    hide Rows, Connects, Daily, Durations, Hours, TooFewFor, UnusualTimes, HighFrequencies, LongDurations;
    if x in UnusualTimes(Connects(recent), Hours(Connects(base))) {
      UnusualTimeNeeds(Connects(recent), Hours(Connects(base)), x);
    } else if x in HighFrequencies(Daily(recent), Reals(Daily(base)), t) {
      HighFrequencyNeeds(Daily(recent), Daily(base), t, x);
    } else {
      LongDurationNeeds(Durations(recent), Durations(base), t, x);
    }
  }

  /**
   At the default threshold the detector says nothing about a user with at most 50
   connects, 8 active days and 8 finished sessions in the window, whatever they did.
   */
  lemma QuietOnLittleHistory(log: seq<Session>, user: string, now: int, days: nat)
    requires Sorted(log) && now > DAY && days >= 1
    requires var base := Baseline(log, user, now, days);
             |Connects(base)| <= 50 && |Daily(base)| <= 8 && |Durations(base)| <= 8
    ensures Analysis(log, user, now, days, THRESHOLD) == None
  {
    var base := Baseline(log, user, now, days);
    var found := Findings(base, Recent(log, user, now), THRESHOLD);
    DefaultLimits(|Daily(base)|);
    DefaultLimits(|Durations(base)|);
    if found != [] {
      assert found[0] in found;
      FindingNeeds(log, user, now, days, THRESHOLD, found[0]);
    }
  }

  /** With at most 22 days and durations and 50 connects, only two kinds together are reported as high. */
  lemma HighNeedsHistory(log: seq<Session>, user: string, now: int, days: nat)
    requires Sorted(log) && now > DAY && days >= 1
    requires var base := Baseline(log, user, now, days);
             |Connects(base)| <= 50 && |Daily(base)| <= 22 && |Durations(base)| <= 22
    ensures var r := Analysis(log, user, now, days, THRESHOLD);
            r.Some? && r.value.severity == HIGH ==>
              r.value.verdict == Composite && Reaches(r.value.details, 12.25)
  {
    var base := Baseline(log, user, now, days);
    var found := Findings(base, Recent(log, user, now), THRESHOLD);
    DefaultLimits(|Daily(base)|);
    DefaultLimits(|Durations(base)|);
    if Reaches(found, 20.25) {
      var i :| 0 <= i < |found| && found[i].zz > 20.25;
      assert found[i] in found;
      FindingNeeds(log, user, now, days, THRESHOLD, found[i]);
    }
  }

  /** An unusual hour is always reported as high. */
  lemma UnusualTimeIsHigh(log: seq<Session>, user: string, now: int, days: nat, t: real)
    requires Sorted(log) && now > DAY && days >= 1
    ensures var r := Analysis(log, user, now, days, t);
            r.Some? && (exists i :: 0 <= i < |r.value.details| && r.value.details[i].UnusualTime?)
            ==> r.value.severity == HIGH
  {
    var r := Analysis(log, user, now, days, t);
    if r.Some? && exists i :: 0 <= i < |r.value.details| && r.value.details[i].UnusualTime? {
      var i :| 0 <= i < |r.value.details| && r.value.details[i].UnusualTime?;
      var x := r.value.details[i];
      assert x in r.value.details;
      FindingNeeds(log, user, now, days, t, x);
      assert x.zz > 20.25;
      assert Reaches(r.value.details, 20.25);
    }
  }
}
