/** Logs on which the limits of the z-tests are attained: equal sessions and a longer last one. */
module DetectorLimits {
  import opened DetectorSpec
  import opened SessionLog
  import opened Statistics

  const USER := "user"
  const CONTAINER := "container"
  const KEY: Key := (USER, CONTAINER)

  /** A session that starts at a time and lasts some seconds. */
  function Visit(from: int, seconds: int): (rows: seq<Session>)
    ensures |rows| == 2
  {
    [Session(USER, CONTAINER, CONNECTED, from), Session(USER, CONTAINER, DISCONNECTED, from + seconds)]
  }

  /** n sessions of one second, ten seconds apart. */
  function Steady(start: int, n: nat): (log: seq<Session>)
    ensures |log| == 2 * n
  {
    if n == 0 then [] else Steady(start, n - 1) + Visit(start + 10 * (n - 1), 1)
  }

  /** n - 1 sessions of one second and a last one of two. */
  function SpikeLog(start: int, n: nat): (log: seq<Session>)
    requires n > 0
    ensures |log| == 2 * n
  {
    Steady(start, n - 1) + Visit(start + 10 * (n - 1), 2)
  }

  function Ones(n: nat): (s: seq<int>)
    ensures |s| == n
  {
    seq(n, _ => 1)
  }

  lemma VisitPairs(p: Pairing, from: int, seconds: int)
    requires p.pending == map[] && seconds > 0
    ensures PairFrom(p, Visit(from, seconds)) == Pairing(p.intervals + [Interval(KEY, from, from + seconds)], map[])
  {
    var rows := Visit(from, seconds);
    assert rows[..1] == [rows[0]] && [rows[0]][..0] == [];
    assert PairFrom(p, [rows[0]]) == Advance(p, rows[0]);
    assert CONNECTED != DISCONNECTED;
    assert map[KEY := from] - {KEY} == map[];
  }

  lemma LengthsSnoc(s: seq<Interval>, i: Interval)
    ensures Lengths(s + [i]) == Lengths(s) + [i.to - i.from]
  {
  }

  lemma {:induction false} SteadyDurations(start: int, n: nat)
    ensures Pair(Steady(start, n)).pending == map[] && Durations(Steady(start, n)) == Ones(n)
  {
    if n > 0 {
      SteadyDurations(start, n - 1);
      AddVisit(Steady(start, n - 1), start + 10 * (n - 1), 1);
    }
  }

  lemma AddVisit(log: seq<Session>, from: int, seconds: int)
    requires Pair(log).pending == map[] && seconds > 0
    ensures var more := log + Visit(from, seconds);
            Pair(more).pending == map[] && Durations(more) == Durations(log) + [seconds]
  {
    PairConcat(Pairing([], map[]), log, Visit(from, seconds));
    VisitPairs(Pair(log), from, seconds);
    hide PairFrom;
    LengthsSnoc(Pair(log).intervals, Interval(KEY, from, from + seconds));
  }

  lemma SpikeDurations(start: int, n: nat)
    requires n > 0
    ensures Durations(SpikeLog(start, n)) == Ones(n - 1) + [2]
  {
    SteadyDurations(start, n - 1);
    AddVisit(Steady(start, n - 1), start + 10 * (n - 1), 2);
  }

  /** All rows are the user's and lie in times [start, start + 10 n), in order. */
  lemma {:induction false} SteadyRows(start: int, n: nat)
    ensures forall i :: 0 <= i < 2 * n ==>
              var s := Steady(start, n)[i];
              s.user == USER && start <= s.timestamp < start + 10 * n
    ensures Sorted(Steady(start, n))
  {
    if n > 0 {
      SteadyRows(start, n - 1);
    }
  }

  lemma SpikeRows(start: int, n: nat)
    requires n > 0
    ensures forall i :: 0 <= i < 2 * n ==> SpikeLog(start, n)[i].user == USER && SpikeLog(start, n)[i].timestamp >= start
    ensures Sorted(SpikeLog(start, n))
  {
    SteadyRows(start, n - 1);
  }

  lemma {:induction false} AllRows(log: seq<Session>, user: string, since: int)
    requires forall i :: 0 <= i < |log| ==> log[i].user == user && log[i].timestamp >= since
    ensures Rows(log, user, since) == log
  {
    if log != [] {
      AllRows(log[..|log| - 1], user, since);
    }
  }

  /** The durations are the spike sample moved up by one second. */
  lemma SpikeScores(n: nat, t: real)
    requires n >= 2
    ensures var values := Reals(Ones(n - 1) + [2]);
            && (ZAbove(values, 2.0, t) <==> !TooFewFor(n, t))
            && (Variance(values) > 0.0 ==> (SignedScore(values, 2.0) > Signed(t) <==> !TooFewFor(n, t)))
  {
    var values := Reals(Ones(n - 1) + [2]);
    assert values == Shifted(Spike(n), 1.0);
    ShiftedScore(Spike(n), 1.0);
    LimitIsSharp(n, t);
    hide Mean, Variance, TooFewFor, Reals, Shifted, Spike, Ones;
    assert 2.0 - Mean(values) == 1.0 - Mean(Spike(n));
    hide Signed;
    if Variance(values) > 0.0 {
      QuotientCompares(Signed(2.0 - Mean(values)), Variance(values), Signed(t));
    }
  }

  lemma QuotientCompares(a: real, v: real, b: real)
    requires v > 0.0
    ensures a / v > b <==> a > b * v
  {
    var q := a / v;
    assert q * v == a;
    OrderScales(q, b, v);
  }

  lemma LastDuration(recent: seq<int>, baseline: seq<real>, t: real)
    requires recent != [] && ZAbove(baseline, recent[|recent| - 1] as real, t)
    ensures var x := recent[|recent| - 1];
            LongDuration(x, SignedScore(baseline, x as real)) in LongDurations(recent, baseline, t)
  {
    hide Mean, Variance, SignedScore;
    var n, x := |recent| - 1, recent[|recent| - 1];
    var a := LongDuration(x, SignedScore(baseline, x as real));
    assert LongDurations(recent, baseline, t) == LongDurations(recent[..n], baseline, t) + [a];
  }

  /** The last session is found, with a score above every u for which n values are enough. */
  lemma SpikeFound(log: seq<Session>, n: nat, t: real) returns (x: Anomaly)
    requires n >= 2 && Durations(log) == Ones(n - 1) + [2] && !TooFewFor(n, t)
    ensures x in Findings(log, log, t) && x.LongDuration? && x.duration == 2
    ensures forall u :: !TooFewFor(n, u) ==> x.zz > Signed(u)
  {
    var durations := Ones(n - 1) + [2];
    var values := Reals(durations);
    SpikeScores(n, t);
    hide Ones, Reals, Variance, Mean, TooFewFor, Connects, Daily, Hours, Durations, SignedScore;
    assert durations[n - 1] == 2 && durations != [];
    LastDuration(durations, values, t);
    x := LongDuration(2, SignedScore(values, 2.0));
    forall u | !TooFewFor(n, u) ensures x.zz > Signed(u) {
      SpikeScores(n, u);
    }
  }

  lemma SpikeAnalysis(start: int, n: nat, days: nat, t: real)
    requires n >= 3 && start > 0 && days >= 1
    ensures var log := SpikeLog(start, n);
            && Sorted(log) && Baseline(log, USER, start + DAY, days) == log
            && Analysis(log, USER, start + DAY, days, t) == ReportOf(Findings(log, log, t))
  {
    var log := SpikeLog(start, n);
    SpikeRows(start, n);
    hide SpikeLog, Findings, Sorted, Rows;
    AllRows(log, USER, start);
    AllRows(log, USER, start + DAY - days * DAY);
  }

  /**
   The last session of the log is reported as long exactly when n values are enough
   for the threshold, with a score above every u for which n values are enough.
   */
  lemma SpikeLogReports(start: int, n: nat, days: nat, t: real)
    requires n >= 3 && start > 0 && days >= 1
    ensures var r := Analysis(SpikeLog(start, n), USER, start + DAY, days, t);
            (r.Some? && exists x :: x in r.value.details && x.LongDuration?) <==> !TooFewFor(n, t)
    ensures var r := Analysis(SpikeLog(start, n), USER, start + DAY, days, t);
            !TooFewFor(n, t) ==>
              && r.Some?
              && exists x :: x in r.value.details && x.LongDuration? && x.duration == 2
                             && forall u :: !TooFewFor(n, u) ==> x.zz > Signed(u)
  {
    var log, now := SpikeLog(start, n), start + DAY;
    SpikeDurations(start, n);
    SpikeAnalysis(start, n, days, t);
    assert |Durations(log)| == n;
    hide SpikeLog, Findings, Sorted, Durations, Ones, TooFewFor, Analysis, Baseline, Signed;
    if !TooFewFor(n, t) {
      var x := SpikeFound(log, n, t);
      assert Findings(log, log, t) != [];
    } else {
      var r := Analysis(log, USER, now, days, t);
      if r.Some? && exists x :: x in r.value.details && x.LongDuration? {
        var x :| x in r.value.details && x.LongDuration?;
        NoLongDuration(log, now, days, t, x);
      }
    }
  }

  lemma NoLongDuration(log: seq<Session>, now: int, days: nat, t: real, x: Anomaly)
    requires Sorted(log) && now > DAY && days >= 1 && x.LongDuration?
    requires Analysis(log, USER, now, days, t).Some? && x in Analysis(log, USER, now, days, t).value.details
    ensures !TooFewFor(|Durations(Baseline(log, USER, now, days))|, t)
  {
    hide Findings, Baseline, Recent, TooFewFor, Sorted, Durations;
    FindingNeeds(log, USER, now, days, t, x);
  }

  /** Nine sessions are enough at the default threshold, and 23 for a high severity. */
  lemma DefaultLimitsAttained(start: int, days: nat)
    requires start > 0 && days >= 1
    ensures Analysis(SpikeLog(start, 9), USER, start + DAY, days, THRESHOLD).Some?
    ensures var r := Analysis(SpikeLog(start, 23), USER, start + DAY, days, THRESHOLD);
            r.Some? && r.value.severity == HIGH
  {
    DefaultLimits(9);
    DefaultLimits(23);
    SpikeLogReports(start, 9, days, THRESHOLD);
    SpikeLogReports(start, 23, days, THRESHOLD);
    hide SpikeLog, Analysis, TooFewFor;
    var r := Analysis(SpikeLog(start, 23), USER, start + DAY, days, THRESHOLD);
    var x :| x in r.value.details && x.LongDuration? && forall u :: !TooFewFor(23, u) ==> x.zz > Signed(u);
    assert x.zz > Signed(4.5);
    HighWhenReached(SpikeLog(start, 23), start + DAY, days, x);
  }

  lemma HighWhenReached(log: seq<Session>, now: int, days: nat, x: Anomaly)
    requires var r := Analysis(log, USER, now, days, THRESHOLD); r.Some? && x in r.value.details && x.zz > Signed(4.5)
    ensures Analysis(log, USER, now, days, THRESHOLD).value.severity == HIGH
  {
    hide Findings, Rows;
    assert Signed(4.5) == 20.25;
    var found := Analysis(log, USER, now, days, THRESHOLD).value.details;
    var i :| 0 <= i < |found| && found[i] == x;
    assert Reaches(found, 20.25);
  }
}
