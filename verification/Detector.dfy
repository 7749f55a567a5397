/** The detector's loops over the rows of the session log. */
module Detector {
  import opened DetectorSpec
  import opened Options
  import opened SessionLog
  import opened Statistics
  import opened Tallies

  method BucketByHour(sessions: seq<Session>) returns (buckets: Counter)
    ensures Holds(buckets, Hours(sessions))
  {
    buckets := Counter([], map[]);
    var i := 0;
    while i < |sessions|
      invariant 0 <= i <= |sessions|
      invariant Holds(buckets, Hours(sessions[..i]))
    {
      hide Holds, Bump;
      var hour := HourOf(sessions[i].timestamp);
      assert Hours(sessions[..i + 1]) == Hours(sessions[..i]) + [hour];
      BumpHolds(buckets, Hours(sessions[..i]), hour);
      buckets := Bump(buckets, hour);
      i := i + 1;
    }
    assert sessions[..|sessions|] == sessions;
  }

  method SessionsPerDay(sessions: seq<Session>) returns (counts: seq<nat>)
    ensures counts == Tally(Days(sessions))
  {
    var days := Counter([], map[]);
    var i := 0;
    while i < |sessions|
      invariant 0 <= i <= |sessions|
      invariant Holds(days, Days(sessions[..i]))
    {
      hide Holds, Bump;
      var day := DayOf(sessions[i].timestamp);
      assert Days(sessions[..i + 1]) == Days(sessions[..i]) + [day];
      BumpHolds(days, Days(sessions[..i]), day);
      days := Bump(days, day);
      i := i + 1;
    }
    assert sessions[..|sessions|] == sessions;
    hide Holds;
    ValuesAreTally(days, Days(sessions));
    counts := Values(days);
  }

  lemma FractionIsShare(buckets: Counter, hours: seq<int>, hour: int)
    requires Holds(buckets, hours) && hours != []
    ensures var fraction := if hour in buckets.counts then buckets.counts[hour] as real / |hours| as real else 0.0;
            fraction == Share(hours, hour)
  {
  }

  /** Section 1 of the analysis. */
  method FindUnusualTimes(baseline: seq<Session>, recent: seq<Session>) returns (anomalies: seq<Anomaly>)
    ensures anomalies == UnusualTimes(recent, Hours(baseline))
  {
    anomalies := [];
    var buckets := BucketByHour(baseline);
    if recent == [] || baseline == [] {
      return;
    }
    hide Holds, Share, Tally, FirstSeen, Square, RareHourScore;
    ghost var hours := Hours(baseline);
    ValuesAreTally(buckets, hours);
    TallyTotal(hours);
    var total := CountTotal(Values(buckets));
    var i := 0;
    while i < |recent|
      invariant 0 <= i <= |recent|
      invariant anomalies == UnusualTimes(recent[..i], hours)
    {
      var hour := HourOf(recent[i].timestamp);
      var fraction := if hour in buckets.counts then buckets.counts[hour] as real / total as real else 0.0;
      FractionIsShare(buckets, hours, hour);
      assert recent[..i + 1][..i] == recent[..i];
      if fraction < 0.02 {
        anomalies := anomalies + [UnusualTime(hour, fraction, Square(RareHourScore(fraction)))];
      }
      i := i + 1;
    }
    assert recent[..|recent|] == recent;
  }

  /** Section 2, and section 3 with the other constructor. */
  method FindHighFrequencies(baseline: seq<real>, recent: seq<int>, threshold: real) returns (anomalies: seq<Anomaly>)
    ensures anomalies == HighFrequencies(recent, baseline, threshold)
  {
    anomalies := [];
    var i := 0;
    while i < |recent|
      invariant 0 <= i <= |recent|
      invariant anomalies == HighFrequencies(recent[..i], baseline, threshold)
    {
      assert recent[..i + 1][..i] == recent[..i];
      if ZAbove(baseline, recent[i] as real, threshold) {
        anomalies := anomalies + [HighFrequency(recent[i], SignedScore(baseline, recent[i] as real))];
      }
      i := i + 1;
    }
    assert recent[..|recent|] == recent;
  }

  method FindLongDurations(baseline: seq<real>, recent: seq<int>, threshold: real) returns (anomalies: seq<Anomaly>)
    ensures anomalies == LongDurations(recent, baseline, threshold)
  {
    anomalies := [];
    var i := 0;
    while i < |recent|
      invariant 0 <= i <= |recent|
      invariant anomalies == LongDurations(recent[..i], baseline, threshold)
    {
      assert recent[..i + 1][..i] == recent[..i];
      if ZAbove(baseline, recent[i] as real, threshold) {
        anomalies := anomalies + [LongDuration(recent[i], SignedScore(baseline, recent[i] as real))];
      }
      i := i + 1;
    }
    assert recent[..|recent|] == recent;
  }

  /** The largest square of a score and the kinds present. */
  method Summarise(found: seq<Anomaly>) returns (max: real, types: set<Kind>)
    requires found != []
    ensures forall t :: Reaches(found, t) <==> max > t
    ensures |types| > 1 <==> TwoKinds(found)
    ensures KindOf(found[0]) in types
  {
    max, types := found[0].zz, {KindOf(found[0])};
    var i := 1;
    while i < |found|
      invariant 1 <= i <= |found|
      invariant exists k :: 0 <= k < i && found[k].zz == max
      invariant forall k :: 0 <= k < i ==> found[k].zz <= max
      invariant types == set k | 0 <= k < i :: KindOf(found[k])
    {
      if found[i].zz > max {
        max := found[i].zz;
      }
      types := types + {KindOf(found[i])};
      i := i + 1;
    }
    assert KindOf(found[0]) in types;
    if |types| > 1 {
      var rest := types - {KindOf(found[0])};
      assert |rest| > 0;
      var k :| k in rest;
      var j :| 0 <= j < |found| && KindOf(found[j]) == k;
      assert KindOf(found[0]) != KindOf(found[j]);
    } else if TwoKinds(found) {
      var k, j :| 0 <= k < j < |found| && KindOf(found[k]) != KindOf(found[j]);
      assert {KindOf(found[k]), KindOf(found[j])} <= types;
      OneMember(types, KindOf(found[k]), KindOf(found[j]));
    }
  }

  lemma OneMember<T>(s: set<T>, a: T, b: T)
    requires |s| <= 1 && a in s && b in s
    ensures a == b
  {
    var rest := s - {a};
    assert |rest| == 0;
  }

  /** analyze_user, without the text of the summary. */
  method AnalyzeUser(log: seq<Session>, user: string, now: int, days: nat, threshold: real)
    returns (report: Option<Report>)
    ensures report == Analysis(log, user, now, days, threshold)
  {
    var baselineSessions := Rows(log, user, now - days * DAY);
    var recentSessions := Rows(log, user, now - DAY);
    if |baselineSessions| < 5 {
      return None;
    }
    var baselineConnects, recentConnects := Connects(baselineSessions), Connects(recentSessions);
    var anomalies := FindUnusualTimes(baselineConnects, recentConnects);
    var baselineDaily := SessionsPerDay(baselineConnects);
    var recentDaily := SessionsPerDay(recentConnects);
    var frequent := FindHighFrequencies(Reals(baselineDaily), recentDaily, threshold);
    var baselineDurations := ComputeDurations(baselineSessions);
    var recentDurations := ComputeDurations(recentSessions);
    var long := FindLongDurations(Reals(baselineDurations), recentDurations, threshold);
    anomalies := anomalies + frequent + long;
    if anomalies == [] {
      return None;
    }
    var maxSquare, types := Summarise(anomalies);
    var severity := if maxSquare > 20.25 then HIGH else if maxSquare > 12.25 then MEDIUM else LOW;
    var verdict;
    if |types| > 1 {
      verdict := Composite;
      severity := match severity case LOW => MEDIUM case MEDIUM => HIGH case HIGH => HIGH;
    } else {
      var kind :| kind in types;
      OneMember(types, kind, KindOf(anomalies[0]));
      verdict := Only(kind);
    }
    report := Some(Report(verdict, severity, anomalies));
  }
}
