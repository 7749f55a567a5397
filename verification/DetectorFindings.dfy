/**
 Exactly which findings an analysis reports, in terms of the rows, their mean and their
 standard deviation, and exactly how severe the report is.
 */
module DetectorFindings {
  import opened DetectorSpec
  import opened Options
  import opened SessionLog
  import opened Statistics
  import opened Tallies

  /** The findings of a report, none if there is no report. */
  function Details(r: Option<Report>): seq<Anomaly> {
    match r
    case None => []
    case Some(report) => report.details
  }

  /** sd is the sample standard deviation, 0 for fewer than two values. */
  ghost predicate IsStdDev(values: seq<real>, sd: real) {
    sd >= 0.0 && sd * sd == Variance(values)
  }

  function ZScore(values: seq<real>, sd: real, x: int): real
    requires sd > 0.0
  {
    (x as real - Mean(values)) / sd
  }

  /** A score and its square with its sign determine each other. */
  lemma ScoreIsSquare(values: seq<real>, sd: real, x: int, t: real)
    requires IsStdDev(values, sd)
    ensures ZAbove(values, x as real, t) <==> sd > 0.0 && ZScore(values, sd, x) > t
    ensures sd > 0.0 ==> Variance(values) > 0.0 && SignedScore(values, x as real) == Signed(ZScore(values, sd, x))
  {
    hide Mean, Variance, Signed;
    if sd > 0.0 {
      ZAboveIsQuotient(values, x as real, t, sd);
    }
  }

  lemma {:induction false} CountSnocAnomaly(s: seq<Anomaly>, x: Anomaly, a: Anomaly)
    ensures multiset(s + [x])[a] == multiset(s)[a] + if a == x then 1 else 0
  {
  }

  lemma SplitRecent<T>(s: seq<T>)
    requires s != []
    ensures s == s[..|s| - 1] + [s[|s| - 1]]
  {
  }

  /** How often a finding is listed: once for each reading that gives it. */
  lemma {:induction false} CountHigh(recent: seq<int>, baseline: seq<real>, t: real, a: Anomaly)
    ensures multiset(HighFrequencies(recent, baseline, t))[a]
            == if a.HighFrequency? && ZAbove(baseline, a.count as real, t)
                  && a.zz == SignedScore(baseline, a.count as real)
               then multiset(recent)[a.count] else 0
  {
    hide ZAbove, SignedScore, Variance;
    if recent != [] {
      var n := |recent| - 1;
      SplitRecent(recent);
      CountHigh(recent[..n], baseline, t, a);
      ZAboveHasVariance(baseline, recent[n] as real, t);
      if ZAbove(baseline, recent[n] as real, t) {
        var x := HighFrequency(recent[n], SignedScore(baseline, recent[n] as real));
        CountSnocAnomaly(HighFrequencies(recent[..n], baseline, t), x, a);
      }
    }
  }

  lemma ZAboveHasVariance(s: seq<real>, x: real, t: real)
    ensures ZAbove(s, x, t) ==> Variance(s) > 0.0
  {
  }

  lemma {:induction false} CountLong(recent: seq<int>, baseline: seq<real>, t: real, a: Anomaly)
    ensures multiset(LongDurations(recent, baseline, t))[a]
            == if a.LongDuration? && ZAbove(baseline, a.duration as real, t)
                  && a.zz == SignedScore(baseline, a.duration as real)
               then multiset(recent)[a.duration] else 0
  {
    hide ZAbove, SignedScore, Variance;
    if recent != [] {
      var n := |recent| - 1;
      SplitRecent(recent);
      CountLong(recent[..n], baseline, t, a);
      ZAboveHasVariance(baseline, recent[n] as real, t);
      if ZAbove(baseline, recent[n] as real, t) {
        var x := LongDuration(recent[n], SignedScore(baseline, recent[n] as real));
        CountSnocAnomaly(LongDurations(recent[..n], baseline, t), x, a);
      }
    }
  }

  /** The score of an hour that holds the given share of the baseline connects. */
  function HourScore(share: real): real {
    if share == 0.0 then 4.0 else 1.0 / if share > 0.001 then share else 0.001
  }

  /** What the finding about a connect at an hour would be. */
  ghost predicate IsRare(a: Anomaly, hours: seq<int>) {
    a.UnusualTime? && hours != [] && a.fraction == multiset(hours)[a.hour] as real / |hours| as real
    && a.fraction < 0.02 && a.zz == Signed(HourScore(a.fraction))
  }

  lemma {:induction false} CountUnusual(recent: seq<Session>, hours: seq<int>, a: Anomaly)
    ensures multiset(UnusualTimes(recent, hours))[a] == if IsRare(a, hours) then multiset(Hours(recent))[a.hour] else 0
  {
    if recent != [] && hours != [] {
      var n := |recent| - 1;
      var hour := HourOf(recent[n].timestamp);
      CountUnusual(recent[..n], hours, a);
      assert Hours(recent) == Hours(recent[..n]) + [hour];
      hide RareHourScore, Signed, Square, HourOf, Hours, Share, IsRare;
      var share := Share(hours, hour);
      var x := UnusualTime(hour, share, Square(RareHourScore(share)));
      RareAt(hours, hour, a);
      if share < 0.02 {
        CountSnocAnomaly(UnusualTimes(recent[..n], hours), x, a);
      }
    }
  }

  lemma RareAt(hours: seq<int>, hour: int, a: Anomaly)
    requires hours != []
    ensures var share := Share(hours, hour);
            share < 0.02 && a == UnusualTime(hour, share, Square(RareHourScore(share)))
            <==> IsRare(a, hours) && a.hour == hour
  {
    ScorePositive(Share(hours, hour));
    hide RareHourScore, HourScore, Signed, Square;
  }

  lemma ScorePositive(share: real)
    ensures Square(RareHourScore(share)) == Signed(HourScore(share))
  {
    if share != 0.0 {
      var f := if share > 0.001 then share else 0.001;
      var z := 1.0 / f;
      assert z * f == 1.0;
      if z < 0.0 {
        ProductPositive(-z, f);
      }
    }
  }

  lemma CountOfThree(a: seq<Anomaly>, b: seq<Anomaly>, c: seq<Anomaly>, x: Anomaly)
    ensures multiset(a + b + c)[x] == multiset(a)[x] + multiset(b)[x] + multiset(c)[x]
  {
  }

  /** The findings of an analysis, if the baseline has at least five rows. */
  lemma DetailsAre(log: seq<Session>, user: string, now: int, days: nat, t: real, x: Anomaly)
    ensures var base, recent := Baseline(log, user, now, days), Recent(log, user, now);
            multiset(Details(Analysis(log, user, now, days, t)))[x]
            == if |base| < 5 then 0
               else multiset(UnusualTimes(Connects(recent), Hours(Connects(base))))[x]
                    + multiset(HighFrequencies(Daily(recent), Reals(Daily(base)), t))[x]
                    + multiset(LongDurations(Durations(recent), Reals(Durations(base)), t))[x]
  {
    var base, recent := Baseline(log, user, now, days), Recent(log, user, now);
    hide Baseline, Recent, Connects, Daily, Durations, UnusualTimes, HighFrequencies, LongDurations;
    hide TwoKinds, SeverityOf, Reals, Hours;
    CountOfThree(UnusualTimes(Connects(recent), Hours(Connects(base))),
                 HighFrequencies(Daily(recent), Reals(Daily(base)), t),
                 LongDurations(Durations(recent), Reals(Durations(base)), t), x);
  }

  /** Each kind of finding comes from its own readings. */
  lemma FoundOnlyAs(log: seq<Session>, user: string, now: int, days: nat, t: real, x: Anomaly)
    ensures var base, recent := Baseline(log, user, now, days), Recent(log, user, now);
            var counts: seq<int> := Daily(recent);
            multiset(Details(Analysis(log, user, now, days, t)))[x]
            == if |base| < 5 then 0 else
                 match x
                 case UnusualTime(hour, f, zz) =>
                   var hours := Hours(Connects(base));
                   if hours != [] && f == multiset(hours)[hour] as real / |hours| as real
                      && f < 0.02 && zz == Signed(HourScore(f))
                   then multiset(Hours(Connects(recent)))[hour] else 0
                 case HighFrequency(count, zz) =>
                   var values := Reals(Daily(base));
                   if ZAbove(values, count as real, t) && zz == SignedScore(values, count as real)
                   then multiset(counts)[count] else 0
                 case LongDuration(duration, zz) =>
                   var values := Reals(Durations(base));
                   if ZAbove(values, duration as real, t) && zz == SignedScore(values, duration as real)
                   then multiset(Durations(recent))[duration] else 0
  {
    var base, recent := Baseline(log, user, now, days), Recent(log, user, now);
    DetailsAre(log, user, now, days, t, x);
    CountUnusual(Connects(recent), Hours(Connects(base)), x);
    CountHigh(Daily(recent), Reals(Daily(base)), t, x);
    CountLong(Durations(recent), Reals(Durations(base)), t, x);
    hide Baseline, Recent, Connects, Daily, Durations, UnusualTimes, HighFrequencies, LongDurations;
    hide Reals, Hours, Analysis, Details, ZAbove, SignedScore, Signed, HourScore;
  }

  /**
   Daily counts: there is a finding for each day of the last 24 hours whose count lies more
   than t standard deviations above the mean of the baseline days, with that count and
   its score, and there is no other.
   */
  lemma HighFrequencyFound(log: seq<Session>, user: string, now: int, days: nat, t: real, sd: real,
                           count: int, zz: real)
    requires IsStdDev(Reals(Daily(Baseline(log, user, now, days))), sd)
    ensures var base, counts: seq<int> := Baseline(log, user, now, days), Daily(Recent(log, user, now));
            var values := Reals(Daily(base));
            multiset(Details(Analysis(log, user, now, days, t)))[HighFrequency(count, zz)]
            == if |base| >= 5 && sd > 0.0 && ZScore(values, sd, count) > t && zz == Signed(ZScore(values, sd, count))
               then multiset(counts)[count] else 0
  {
    ScoreIsSquare(Reals(Daily(Baseline(log, user, now, days))), sd, count, t);
    hide Baseline, Recent, Daily, Reals, Signed, ZAbove, SignedScore, ZScore, Analysis, Details, IsStdDev;
    FoundOnlyAs(log, user, now, days, t, HighFrequency(count, zz));
  }

  /** Durations: the same for each session that ended in the last 24 hours, against the baseline durations. */
  lemma LongDurationFound(log: seq<Session>, user: string, now: int, days: nat, t: real, sd: real,
                          duration: int, zz: real)
    requires IsStdDev(Reals(Durations(Baseline(log, user, now, days))), sd)
    ensures var base, recent := Baseline(log, user, now, days), Recent(log, user, now);
            var values := Reals(Durations(base));
            multiset(Details(Analysis(log, user, now, days, t)))[LongDuration(duration, zz)]
            == if |base| >= 5 && sd > 0.0 && ZScore(values, sd, duration) > t
                  && zz == Signed(ZScore(values, sd, duration))
               then multiset(Durations(recent))[duration] else 0
  {
    ScoreIsSquare(Reals(Durations(Baseline(log, user, now, days))), sd, duration, t);
    hide Baseline, Recent, Durations, Reals, Signed, ZAbove, SignedScore, ZScore, Analysis, Details, IsStdDev;
    FoundOnlyAs(log, user, now, days, t, LongDuration(duration, zz));
  }

  /**
   Hours: there is a finding for each connect of the last 24 hours at an hour that holds
   less than 2% of the baseline connects, with that share and its score, and no other.
   */
  lemma UnusualTimeFound(log: seq<Session>, user: string, now: int, days: nat, t: real,
                         hour: int, fraction: real, zz: real)
    ensures var base, recent := Baseline(log, user, now, days), Recent(log, user, now);
            var hours := Hours(Connects(base));
            multiset(Details(Analysis(log, user, now, days, t)))[UnusualTime(hour, fraction, zz)]
            == if |base| >= 5 && hours != [] && fraction == multiset(hours)[hour] as real / |hours| as real
                  && fraction < 0.02 && zz == Signed(HourScore(fraction))
               then multiset(Hours(Connects(recent)))[hour] else 0
  {
    hide Baseline, Recent, Connects, Hours, Signed, HourScore, Analysis, Details;
    FoundOnlyAs(log, user, now, days, t, UnusualTime(hour, fraction, zz));
  }

  // ---------------------------------------------------------------- the order of the findings

  /** The reading behind a finding. */
  function ReadingOf(a: Anomaly): int {
    match a
    case UnusualTime(hour, _, _) => hour
    case HighFrequency(count, _) => count
    case LongDuration(duration, _) => duration
  }

  /** The readings behind the findings of one kind, in order. */
  function ReadingsOf(found: seq<Anomaly>, kind: Kind): seq<int> {
    if found == [] then [] else
      var before, a := ReadingsOf(found[..|found| - 1], kind), found[|found| - 1];
      if KindOf(a) == kind then before + [ReadingOf(a)] else before
  }

  /** One more finding of a kind, behind others of the same kind. */
  lemma OneMore(before: seq<Anomaly>, a: Anomaly, readings: seq<int>)
    requires Subsequence(ReadingsOf(before, KindOf(a)), readings)
    requires forall kind :: kind != KindOf(a) ==> ReadingsOf(before, kind) == []
    requires forall b :: b in before ==> KindOf(b) == KindOf(a)
    ensures var found := before + [a];
            && Subsequence(ReadingsOf(found, KindOf(a)), readings + [ReadingOf(a)])
            && (forall kind :: kind != KindOf(a) ==> ReadingsOf(found, kind) == [])
            && forall b :: b in found ==> KindOf(b) == KindOf(a)
  {
    assert (before + [a])[..|before|] == before;
    SubsequenceSnoc(ReadingsOf(before, KindOf(a)), readings, ReadingOf(a));
  }

  /** The findings are of one kind, and their readings are in the order of these. */
  ghost predicate InOrder(found: seq<Anomaly>, kind: Kind, readings: seq<int>) {
    && Subsequence(ReadingsOf(found, kind), readings)
    && (forall k :: k != kind ==> ReadingsOf(found, k) == [])
    && forall b :: b in found ==> KindOf(b) == kind
  }

  lemma InOrderSnoc(before: seq<Anomaly>, kind: Kind, readings: seq<int>, reading: int, more: seq<Anomaly>)
    requires InOrder(before, kind, readings)
    requires more == [] || (|more| == 1 && KindOf(more[0]) == kind && ReadingOf(more[0]) == reading)
    ensures InOrder(before + more, kind, readings + [reading])
  {
    if more == [] {
      assert before + more == before;
      SubsequenceSnoc(ReadingsOf(before, kind), readings, reading);
    } else {
      assert more == [more[0]];
      OneMore(before, more[0], readings);
    }
  }

  function RankOf(a: Anomaly): nat {
    match a
    case UnusualTime(_, _, _) => 0
    case HighFrequency(_, _) => 1
    case LongDuration(_, _) => 2
  }

  lemma {:induction false} ReadingsConcat(a: seq<Anomaly>, b: seq<Anomaly>, kind: Kind)
    ensures ReadingsOf(a + b, kind) == ReadingsOf(a, kind) + ReadingsOf(b, kind)
  {
    if b == [] {
      assert a + b == a;
    } else {
      assert (a + b)[..|a + b| - 1] == a + b[..|b| - 1];
      ReadingsConcat(a, b[..|b| - 1], kind);
    }
  }

  lemma NothingInOrder(kind: Kind)
    ensures InOrder([], kind, [])
  {
  }

  lemma {:induction false} HighReadings(recent: seq<int>, baseline: seq<real>, t: real)
    ensures InOrder(HighFrequencies(recent, baseline, t), HIGH_FREQUENCY, recent)
  {
    hide ZAbove, SignedScore, Variance, InOrder;
    if recent == [] {
      NothingInOrder(HIGH_FREQUENCY);
    } else {
      var n := |recent| - 1;
      HighReadings(recent[..n], baseline, t);
      SplitRecent(recent);
      ZAboveHasVariance(baseline, recent[n] as real, t);
      var more := if ZAbove(baseline, recent[n] as real, t)
                  then [HighFrequency(recent[n], SignedScore(baseline, recent[n] as real))] else [];
      InOrderSnoc(HighFrequencies(recent[..n], baseline, t), HIGH_FREQUENCY, recent[..n], recent[n], more);
    }
  }

  lemma {:induction false} LongReadings(recent: seq<int>, baseline: seq<real>, t: real)
    ensures InOrder(LongDurations(recent, baseline, t), LONG_DURATION, recent)
  {
    hide ZAbove, SignedScore, Variance, InOrder;
    if recent == [] {
      NothingInOrder(LONG_DURATION);
    } else {
      var n := |recent| - 1;
      LongReadings(recent[..n], baseline, t);
      SplitRecent(recent);
      ZAboveHasVariance(baseline, recent[n] as real, t);
      var more := if ZAbove(baseline, recent[n] as real, t)
                  then [LongDuration(recent[n], SignedScore(baseline, recent[n] as real))] else [];
      InOrderSnoc(LongDurations(recent[..n], baseline, t), LONG_DURATION, recent[..n], recent[n], more);
    }
  }

  lemma {:induction false} UnusualReadings(recent: seq<Session>, hours: seq<int>)
    ensures hours != [] ==> InOrder(UnusualTimes(recent, hours), UNUSUAL_TIME, Hours(recent))
    ensures hours == [] ==> UnusualTimes(recent, hours) == []
  {
    hide Share, Square, RareHourScore, HourOf, InOrder;
    if recent == [] {
      NothingInOrder(UNUSUAL_TIME);
      assert Hours(recent) == [];
    } else if hours != [] {
      var n := |recent| - 1;
      var hour := HourOf(recent[n].timestamp);
      UnusualReadings(recent[..n], hours);
      assert Hours(recent) == Hours(recent[..n]) + [hour];
      var share := Share(hours, hour);
      var more := if share < 0.02 then [UnusualTime(hour, share, Square(RareHourScore(share)))] else [];
      InOrderSnoc(UnusualTimes(recent[..n], hours), UNUSUAL_TIME, Hours(recent[..n]), hour, more);
    }
  }

  /**
   A report lists the hours first, then the daily counts, then the durations, each in the
   order of the rows they come from.
   */
  lemma DetailsInOrder(log: seq<Session>, user: string, now: int, days: nat, t: real)
    ensures var recent, found := Recent(log, user, now), Details(Analysis(log, user, now, days, t));
            && Subsequence(ReadingsOf(found, UNUSUAL_TIME), Hours(Connects(recent)))
            && Subsequence(ReadingsOf(found, HIGH_FREQUENCY), Daily(recent))
            && Subsequence(ReadingsOf(found, LONG_DURATION), Durations(recent))
            && forall i, j :: 0 <= i < j < |found| ==> RankOf(found[i]) <= RankOf(found[j])
  {
    var base, recent := Baseline(log, user, now, days), Recent(log, user, now);
    var u := UnusualTimes(Connects(recent), Hours(Connects(base)));
    var h := HighFrequencies(Daily(recent), Reals(Daily(base)), t);
    var d := LongDurations(Durations(recent), Reals(Durations(base)), t);
    UnusualReadings(Connects(recent), Hours(Connects(base)));
    HighReadings(Daily(recent), Reals(Daily(base)), t);
    LongReadings(Durations(recent), Reals(Durations(base)), t);
    NothingFound(Hours(Connects(recent)));
    NothingFound(Daily(recent));
    NothingFound(Durations(recent));
    hide Baseline, Recent, Connects, Daily, Durations, UnusualTimes, HighFrequencies, LongDurations, Hours, Reals;
    hide SeverityOf, TwoKinds, InOrder, Subsequence;
    ThreeInOrder(u, h, d, Hours(Connects(recent)), Daily(recent), Durations(recent));
  }

  lemma {:induction false} NothingFound(s: seq<int>)
    ensures Subsequence([], s) && InOrder([], UNUSUAL_TIME, s) && forall kind :: ReadingsOf([], kind) == []
  {
  }

  lemma ThreeInOrder(u: seq<Anomaly>, h: seq<Anomaly>, d: seq<Anomaly>,
                     hours: seq<int>, counts: seq<int>, lengths: seq<int>)
    requires InOrder(u, UNUSUAL_TIME, hours) && InOrder(h, HIGH_FREQUENCY, counts) && InOrder(d, LONG_DURATION, lengths)
    ensures var found := u + h + d;
            && Subsequence(ReadingsOf(found, UNUSUAL_TIME), hours)
            && Subsequence(ReadingsOf(found, HIGH_FREQUENCY), counts)
            && Subsequence(ReadingsOf(found, LONG_DURATION), lengths)
            && forall i, j :: 0 <= i < j < |found| ==> RankOf(found[i]) <= RankOf(found[j])
  {
    hide Subsequence, ReadingsOf;
    ReadingsOfThree(u, h, d, UNUSUAL_TIME);
    ReadingsOfThree(u, h, d, HIGH_FREQUENCY);
    ReadingsOfThree(u, h, d, LONG_DURATION);
    assert ReadingsOf(u, UNUSUAL_TIME) + [] + [] == ReadingsOf(u, UNUSUAL_TIME);
    assert [] + ReadingsOf(h, HIGH_FREQUENCY) + [] == ReadingsOf(h, HIGH_FREQUENCY);
    assert [] + [] + ReadingsOf(d, LONG_DURATION) == ReadingsOf(d, LONG_DURATION);
    RanksInOrder(u, h, d);
  }

  lemma ReadingsOfThree(u: seq<Anomaly>, h: seq<Anomaly>, d: seq<Anomaly>, kind: Kind)
    ensures ReadingsOf(u + h + d, kind) == ReadingsOf(u, kind) + ReadingsOf(h, kind) + ReadingsOf(d, kind)
  {
    hide ReadingsOf;
    ReadingsConcat(u + h, d, kind);
    ReadingsConcat(u, h, kind);
  }

  lemma RanksInOrder(u: seq<Anomaly>, h: seq<Anomaly>, d: seq<Anomaly>)
    requires forall a :: a in u ==> a.UnusualTime?
    requires forall a :: a in h ==> a.HighFrequency?
    requires forall a :: a in d ==> a.LongDuration?
    ensures var found := u + h + d;
            forall i, j :: 0 <= i < j < |found| ==> RankOf(found[i]) <= RankOf(found[j])
  {
    var found := u + h + d;
    forall i | 0 <= i < |found| ensures RankOf(found[i]) == if i < |u| then 0 else if i < |u| + |h| then 1 else 2 {
      if i < |u| {
        assert found[i] == u[i] && u[i] in u;
      } else if i < |u| + |h| {
        assert found[i] == h[i - |u|] && h[i - |u|] in h;
      } else {
        assert found[i] == d[i - |u| - |h|] && d[i - |u| - |h|] in d;
      }
    }
  }

  // ---------------------------------------------------------------- the report

  /** There is a report exactly when there is a finding. */
  lemma ReportedIff(log: seq<Session>, user: string, now: int, days: nat, t: real)
    ensures Analysis(log, user, now, days, t).Some? <==> Details(Analysis(log, user, now, days, t)) != []
  {
    hide Findings, SeverityOf, TwoKinds;
  }

  /** A score above u among the findings, for u not negative. */
  ghost predicate SomeAbove(found: seq<Anomaly>, u: real) {
    exists a :: a in found && a.zz > Signed(u)
  }

  ghost predicate Mixed(found: seq<Anomaly>) {
    exists a, b :: a in found && b in found && KindOf(a) != KindOf(b)
  }

  /**
   A report is high with a score above 4.5, or above 3.5 and two kinds of finding; medium
   with a score above 3.5 or two kinds; low otherwise.  Its type is that of its findings,
   or composite.
   */
  lemma SeverityIs(log: seq<Session>, user: string, now: int, days: nat, t: real)
    requires Analysis(log, user, now, days, t).Some?
    ensures var r := Analysis(log, user, now, days, t).value;
            var found := r.details;
            && r.severity == (if SomeAbove(found, 4.5) || (SomeAbove(found, 3.5) && Mixed(found)) then HIGH
                              else if SomeAbove(found, 3.5) || Mixed(found) then MEDIUM else LOW)
            && (if Mixed(found) then r.verdict == Composite
                else forall a :: a in found ==> r.verdict == Only(KindOf(a)))
  {
    var found := Analysis(log, user, now, days, t).value.details;
    assert Signed(4.5) == 20.25 && Signed(3.5) == 12.25;
    hide Findings, Rows, Signed;
    ReachesIff(found, 4.5);
    ReachesIff(found, 3.5);
    MixedIff(found);
    hide Reaches, SomeAbove, TwoKinds;
    assert found[0] in found;
  }

  lemma ReachesIff(found: seq<Anomaly>, u: real)
    ensures Reaches(found, Signed(u)) <==> SomeAbove(found, u)
  {
    hide Signed;
    if a :| a in found && a.zz > Signed(u) {
      var i :| 0 <= i < |found| && found[i] == a;
    }
    if Reaches(found, Signed(u)) {
      var i :| 0 <= i < |found| && found[i].zz > Signed(u);
      assert found[i] in found;
    }
  }

  lemma MixedIff(found: seq<Anomaly>)
    ensures TwoKinds(found) <==> Mixed(found)
  {
    if a, b :| a in found && b in found && KindOf(a) != KindOf(b) {
      var i :| 0 <= i < |found| && found[i] == a;
      var j :| 0 <= j < |found| && found[j] == b;
      assert i < j || j < i;
    }
    if TwoKinds(found) {
      var i, j :| 0 <= i < j < |found| && KindOf(found[i]) != KindOf(found[j]);
      assert found[i] in found && found[j] in found;
    }
  }

  // ---------------------------------------------------------------- the rows and the clock

  /** The rows of a user since a time are exactly those of the log, in its order. */
  lemma {:induction false} RowsAre(log: seq<Session>, user: string, since: int)
    ensures Subsequence(Rows(log, user, since), log)
    ensures forall s :: multiset(Rows(log, user, since))[s]
                        == if (user == "" || s.user == user) && (since == 0 || s.timestamp >= since)
                           then multiset(log)[s] else 0
  {
    if log != [] {
      var n := |log| - 1;
      RowsAre(log[..n], user, since);
      SplitRecent(log);
      SubsequenceSnoc(Rows(log[..n], user, since), log[..n], log[n]);
    }
  }

  /** The connects among rows are exactly those, in their order. */
  lemma {:induction false} ConnectsAre(rows: seq<Session>)
    ensures Subsequence(Connects(rows), rows)
    ensures forall s :: multiset(Connects(rows))[s] == if s.event == "ssh_connected" then multiset(rows)[s] else 0
  {
    if rows != [] {
      var n := |rows| - 1;
      ConnectsAre(rows[..n]);
      SplitRecent(rows);
      SubsequenceSnoc(Connects(rows[..n]), rows[..n], rows[n]);
    }
  }

  /** The window: rows of the last days, and of the last 24 hours. */
  lemma WindowsAre(log: seq<Session>, user: string, now: int, days: nat, s: Session)
    requires user != "" && now > days * 86400 && now > 86400
    ensures s in Baseline(log, user, now, days) <==> s in log && s.user == user && s.timestamp >= now - days * 86400
    ensures s in Recent(log, user, now) <==> s in log && s.user == user && s.timestamp >= now - 86400
  {
    RowsAre(log, user, now - days * 86400);
    RowsAre(log, user, now - 86400);
    hide Rows;
    assert s in Baseline(log, user, now, days) <==> multiset(Baseline(log, user, now, days))[s] > 0;
    assert s in Recent(log, user, now) <==> multiset(Recent(log, user, now))[s] > 0;
    assert s in log <==> multiset(log)[s] > 0;
  }

  /** Days of 24 hours of 3600 seconds, counted from the epoch. */
  lemma ClockIs(time: int)
    ensures 0 <= HourOf(time) < 24
    ensures 0 <= time - DayOf(time) * 86400 - HourOf(time) * 3600 < 3600
  {
  }

  /** The daily counts: for each day with a connect, how many connects it has. */
  lemma DailyIs(rows: seq<Session>)
    ensures var days := Days(Connects(rows));
            && |Daily(rows)| == |FirstSeen(days)|
            && (forall d :: d in FirstSeen(days) <==> d in days)
            && (forall i, j :: 0 <= i < j < |FirstSeen(days)| ==> FirstSeen(days)[i] != FirstSeen(days)[j])
            && forall i :: 0 <= i < |Daily(rows)| ==> Daily(rows)[i] == multiset(days)[FirstSeen(days)[i]]
  {
    FirstSeenIsExact(Days(Connects(rows)));
    hide FirstSeen;
  }
}
