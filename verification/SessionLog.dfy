/** The session log and the pairing of connects with the ends of their sessions. */
module SessionLog {

  datatype Session = Session(user: string, container: string, event: string, timestamp: int)

  const CONNECTED := "ssh_connected"
  const DISCONNECTED := "ssh_disconnected"
  const TIMEOUT := "timeout"

  type Key = (string, string)

  function KeyOf(s: Session): Key {
    (s.user, s.container)
  }

  /** A connect and the event that ended it. */
  datatype Interval = Interval(key: Key, from: int, to: int)

  /** The loop state of compute_durations; intervals records which pairs the durations come from. */
  datatype Pairing = Pairing(intervals: seq<Interval>, pending: map<Key, int>)

  function Advance(p: Pairing, s: Session): Pairing {
    if s.event == CONNECTED then p.(pending := p.pending[KeyOf(s) := s.timestamp])
    else if (s.event == DISCONNECTED || s.event == TIMEOUT) && KeyOf(s) in p.pending then
      var from := p.pending[KeyOf(s)];
      Pairing(if s.timestamp - from > 0 then p.intervals + [Interval(KeyOf(s), from, s.timestamp)] else p.intervals,
              p.pending - {KeyOf(s)})
    else p
  }

  function PairFrom(p: Pairing, log: seq<Session>): Pairing {
    if log == [] then p else Advance(PairFrom(p, log[..|log| - 1]), log[|log| - 1])
  }

  function Pair(log: seq<Session>): Pairing {
    PairFrom(Pairing([], map[]), log)
  }

  function Lengths(intervals: seq<Interval>): (d: seq<int>)
    ensures |d| == |intervals|
  {
    seq(|intervals|, i requires 0 <= i < |intervals| => intervals[i].to - intervals[i].from)
  }

  function Durations(log: seq<Session>): seq<int> {
    Lengths(Pair(log).intervals)
  }

  /** compute_durations. */
  method ComputeDurations(sessions: seq<Session>) returns (durations: seq<int>)
    ensures durations == Durations(sessions)
  {
    durations := [];
    var pending: map<Key, int> := map[];
    var i := 0;
    while i < |sessions|
      invariant 0 <= i <= |sessions|
      invariant pending == Pair(sessions[..i]).pending
      invariant durations == Lengths(Pair(sessions[..i]).intervals)
    {
      var s := sessions[i];
      var key := (s.user, s.container);
      assert sessions[..i + 1][..i] == sessions[..i];
      if s.event == CONNECTED {
        pending := pending[key := s.timestamp];
      } else if s.event == DISCONNECTED || s.event == TIMEOUT {
        if key in pending {
          var duration := s.timestamp - pending[key];
          pending := pending - {key};
          if duration > 0 {
            durations := durations + [duration];
          }
        }
      }
      i := i + 1;
    }
    assert sessions[..|sessions|] == sessions;
  }

  lemma {:induction false} PairConcat(p: Pairing, a: seq<Session>, b: seq<Session>)
    ensures PairFrom(p, a + b) == PairFrom(PairFrom(p, a), b)
  {
    if b == [] {
      assert a + b == a;
    } else {
      assert (a + b)[..|a + b| - 1] == a + b[..|b| - 1];
      PairConcat(p, a, b[..|b| - 1]);
    }
  }

  // ---------------------------------------------------------------- which rows make a duration

  predicate OfSession(s: Session, k: Key) {
    s.user == k.0 && s.container == k.1
    && (s.event == "ssh_connected" || s.event == "ssh_disconnected" || s.event == "timeout")
  }

  /** Row i connects a session of k, and no row after it connects or ends one. */
  ghost predicate OpenAt(log: seq<Session>, i: int, k: Key) {
    && 0 <= i < |log| && OfSession(log[i], k) && log[i].event == "ssh_connected"
    && forall j :: i < j < |log| ==> !OfSession(log[j], k)
  }

  /** The pending connect of a key is its last connect, if no row of the key has come since. */
  lemma {:induction false} PendingIs(log: seq<Session>, k: Key)
    ensures k in Pair(log).pending <==> exists i :: OpenAt(log, i, k)
    ensures forall i :: OpenAt(log, i, k) ==> k in Pair(log).pending && Pair(log).pending[k] == log[i].timestamp
  {
    if log != [] {
      var n := |log| - 1;
      PendingIs(log[..n], k);
      OpenStep(log, k);
      PendingAfter(Pair(log[..n]), log[n], k);
      hide OfSession, OpenAt, Advance;
      if OfSession(log[n], k) {
        assert OpenAt(log, n, k) <==> log[n].event == "ssh_connected";
      } else if i :| OpenAt(log[..n], i, k) {
        assert OpenAt(log, i, k);
      }
    }
  }

  lemma PendingAfter(p: Pairing, s: Session, k: Key)
    ensures !OfSession(s, k) ==> (k in Advance(p, s).pending <==> k in p.pending)
                                 && (k in p.pending ==> Advance(p, s).pending[k] == p.pending[k])
    ensures OfSession(s, k) ==> (k in Advance(p, s).pending <==> s.event == "ssh_connected")
                                && (s.event == "ssh_connected" ==> Advance(p, s).pending[k] == s.timestamp)
  {
  }

  /** A row of the key opens a session or leaves none open; other rows leave things as they are. */
  lemma OpenStep(log: seq<Session>, k: Key)
    requires log != []
    ensures var n := |log| - 1;
            forall i :: OpenAt(log, i, k) <==>
                          if OfSession(log[n], k) then i == n && log[n].event == "ssh_connected"
                          else OpenAt(log[..n], i, k)
  {
  }

  /**
   Durations, row by row: the end of a session gives one, the time since the connect that
   is still open for its user and container, if there is one and the time is positive.
   No other row gives any.
   */
  lemma DurationOfRow(log: seq<Session>, s: Session)
    ensures var k := (s.user, s.container);
            var ends := s.event == "ssh_disconnected" || s.event == "timeout";
            && (!ends || (forall i :: !OpenAt(log, i, k)) ==> Durations(log + [s]) == Durations(log))
            && forall i :: ends && OpenAt(log, i, k) ==>
                             Durations(log + [s])
                             == Durations(log) + if s.timestamp > log[i].timestamp
                                                 then [s.timestamp - log[i].timestamp] else []
  {
    var k := (s.user, s.container);
    PendingIs(log, k);
    assert (log + [s])[..|log|] == log;
    hide OpenAt;
    assert Pair(log + [s]) == Advance(Pair(log), s);
  }

  // ---------------------------------------------------------------- a suffix of the log

  /** a arises from b by leaving elements out. */
  ghost predicate Subsequence<T>(a: seq<T>, b: seq<T>) {
    if a == [] then true
    else if b == [] then false
    else Subsequence(a, b[..|b| - 1])
         || (a[|a| - 1] == b[|b| - 1] && Subsequence(a[..|a| - 1], b[..|b| - 1]))
  }

  lemma {:induction false} SubsequenceMember<T>(a: seq<T>, b: seq<T>, x: T)
    requires Subsequence(a, b) && x in a
    ensures x in b
  {
    if !Subsequence(a, b[..|b| - 1]) {
      if x != a[|a| - 1] {
        assert a == a[..|a| - 1] + [a[|a| - 1]];
        SubsequenceMember(a[..|a| - 1], b[..|b| - 1], x);
      }
    } else {
      SubsequenceMember(a, b[..|b| - 1], x);
    }
  }

  lemma SubsequenceSnoc<T>(a: seq<T>, b: seq<T>, x: T)
    requires Subsequence(a, b)
    ensures Subsequence(a, b + [x]) && Subsequence(a + [x], b + [x])
  {
    assert (a + [x])[..|a + [x]| - 1] == a && (b + [x])[..|b + [x]| - 1] == b;
  }

  /** The suffix has seen fewer connects and found fewer pairs. */
  ghost predicate Behind(p: Pairing, q: Pairing) {
    && (forall k :: k in p.pending ==> k in q.pending && q.pending[k] == p.pending[k])
    && Subsequence(p.intervals, q.intervals)
  }

  lemma AdvanceBehind(p: Pairing, q: Pairing, s: Session)
    requires Behind(p, q)
    ensures Behind(Advance(p, s), Advance(q, s))
  {
    var k := KeyOf(s);
    if k in q.pending {
      SubsequenceSnoc(p.intervals, q.intervals, Interval(k, q.pending[k], s.timestamp));
    }
  }

  lemma {:induction false} PairBehind(p: Pairing, q: Pairing, log: seq<Session>)
    requires Behind(p, q)
    ensures Behind(PairFrom(p, log), PairFrom(q, log))
  {
    if log != [] {
      PairBehind(p, q, log[..|log| - 1]);
      AdvanceBehind(PairFrom(p, log[..|log| - 1]), PairFrom(q, log[..|log| - 1]), log[|log| - 1]);
    }
  }

  lemma {:induction false} SubsequenceLengths(a: seq<Interval>, b: seq<Interval>)
    requires Subsequence(a, b)
    ensures Subsequence(Lengths(a), Lengths(b))
  {
    if a != [] {
      var a', b' := a[..|a| - 1], b[..|b| - 1];
      assert Lengths(a)[..|a| - 1] == Lengths(a') && Lengths(b)[..|b| - 1] == Lengths(b');
      if Subsequence(a, b') {
        SubsequenceLengths(a, b');
      } else {
        SubsequenceLengths(a', b');
      }
    }
  }

  /** The durations of a suffix of the log are a subsequence of the durations of the log. */
  lemma SuffixDurations(a: seq<Session>, b: seq<Session>)
    ensures Subsequence(Durations(b), Durations(a + b))
  {
    var start := Pairing([], map[]);
    PairConcat(start, a, b);
    PairBehind(start, PairFrom(start, a), b);
    SubsequenceLengths(Pair(b).intervals, Pair(a + b).intervals);
  }

  // ---------------------------------------------------------------- intervals of one key

  ghost predicate Sorted(log: seq<Session>) {
    forall i, j :: 0 <= i < j < |log| ==> log[i].timestamp <= log[j].timestamp
  }

  /** The intervals of one (user, container), in order. */
  function OfKey(intervals: seq<Interval>, k: Key): seq<Interval> {
    if intervals == [] then [] else
      var last := intervals[|intervals| - 1];
      var rest := OfKey(intervals[..|intervals| - 1], k);
      if last.key == k then rest + [last] else rest
  }

  ghost predicate Disjoint(s: seq<Interval>) {
    && (forall i :: 0 <= i < |s| ==> s[i].from < s[i].to)
    && forall i, j :: 0 <= i < j < |s| ==> s[i].to <= s[j].from
  }

  function Total(s: seq<Interval>): int {
    if s == [] then 0 else Total(s[..|s| - 1]) + s[|s| - 1].to - s[|s| - 1].from
  }

  /** Where the next interval of k can start: its pending connect, or now. */
  function Horizon(p: Pairing, k: Key, now: int): int {
    if k in p.pending then p.pending[k] else now
  }

  /** The intervals of k lie one after another between first and the horizon, and fill at most that. */
  ghost predicate Ordered(p: Pairing, k: Key, first: int, now: int) {
    var s := OfKey(p.intervals, k);
    && Disjoint(s)
    && first <= Horizon(p, k, now) <= now
    && (forall i :: 0 <= i < |s| ==> first <= s[i].from && s[i].to <= Horizon(p, k, now))
    && Total(s) <= Horizon(p, k, now) - first
  }

  lemma OfKeySnoc(s: seq<Interval>, last: Interval, k: Key)
    ensures OfKey(s + [last], k) == OfKey(s, k) + if last.key == k then [last] else []
  {
    assert (s + [last])[..|s|] == s;
  }

  /** An interval that starts at the old horizon or later, and the new horizon is where it ends. */
  lemma AppendOrdered(s: seq<Interval>, last: Interval, first: int)
    requires Disjoint(s) && last.from < last.to && first <= last.from && Total(s) <= last.from - first
    requires forall i :: 0 <= i < |s| ==> first <= s[i].from && s[i].to <= last.from
    ensures var t := s + [last];
            && Disjoint(t) && Total(t) <= last.to - first
            && forall i :: 0 <= i < |t| ==> first <= t[i].from && t[i].to <= last.to
  {
    assert (s + [last])[..|s|] == s;
  }

  lemma AdvanceOrdered(p: Pairing, s: Session, k: Key, first: int, now: int)
    requires Ordered(p, k, first, now) && now <= s.timestamp
    ensures Ordered(Advance(p, s), k, first, s.timestamp)
  {
    hide OfKey, Disjoint, Total;
    var q, mine := Advance(p, s), OfKey(p.intervals, k);
    if q.intervals != p.intervals {
      var last := Interval(KeyOf(s), p.pending[KeyOf(s)], s.timestamp);
      OfKeySnoc(p.intervals, last, k);
      if last.key == k {
        AppendOrdered(mine, last, first);
      } else {
        assert OfKey(q.intervals, k) == mine;
      }
    }
  }

  lemma {:induction false} PairOrdered(log: seq<Session>, k: Key)
    requires log != [] && Sorted(log)
    ensures Ordered(Pair(log), k, log[0].timestamp, log[|log| - 1].timestamp)
  {
    var n := |log| - 1;
    if n == 0 {
      assert log[..0] == [];
      AdvanceOrdered(Pair([]), log[0], k, log[0].timestamp, log[0].timestamp);
    } else {
      PairOrdered(log[..n], k);
      AdvanceOrdered(Pair(log[..n]), log[n], k, log[0].timestamp, log[n - 1].timestamp);
    }
  }

  ghost predicate AllPositive(s: seq<Interval>) {
    forall i :: 0 <= i < |s| ==> s[i].from < s[i].to
  }

  lemma AdvancePositive(p: Pairing, s: Session)
    requires AllPositive(p.intervals)
    ensures AllPositive(Advance(p, s).intervals)
  {
  }

  lemma {:induction false} IntervalsPositive(log: seq<Session>)
    ensures AllPositive(Pair(log).intervals)
  {
    if log != [] {
      var n := |log| - 1;
      IntervalsPositive(log[..n]);
      AdvancePositive(Pair(log[..n]), log[n]);
    }
  }

  /**
   On a time-sorted log every duration is positive, the intervals of one key are
   disjoint, and together they are no longer than the log.
   */
  lemma SortedLogPairs(log: seq<Session>, k: Key)
    requires log != [] && Sorted(log)
    ensures forall i :: 0 <= i < |Durations(log)| ==> Durations(log)[i] > 0
    ensures Disjoint(OfKey(Pair(log).intervals, k))
    ensures Total(OfKey(Pair(log).intervals, k)) <= log[|log| - 1].timestamp - log[0].timestamp
  {
    PairOrdered(log, k);
    IntervalsPositive(log);
  }
}
