/**
 What one call of the manager's client handler logs, and how the log of a whole
 run pairs up.  Every reply from outside (socket, database, LXD, the connection
 count) is part of the visit.
 */
module ServerSpec {
  import opened SessionLog

  const AUTH_FAIL := "auth_fail"
  const AUTH_OK := "auth_ok"

  const CONNECT_POLLS := 60
  const SESSION_POLLS := 86400

  /** A poll of the connection count: the command or its output failed, or a number was read. */
  datatype Probe = Failed | Reading(connections: int)

  datatype Visit = Visit(
    user: string,
    container: string,
    introduced: bool,       // user id, challenge, container id, signature and both public keys came through
    verified: bool,
    hasContainerKey: bool,
    homeEncrypted: bool,
    homeCreated: bool,
    homeOpened: bool,
    sshPrepared: bool,
    containerStarted: bool,
    containerCreated: bool,
    userCreated: bool,
    sshdRunning: bool,
    sshPort: int,
    connectPolls: nat -> Probe,
    sessionPolls: nat -> Probe,
    at: nat -> int)         // when its first, second, third event is logged

  // ---------------------------------------------------------------- the two polling loops

  predicate Positive(p: Probe) {
    p.Reading? && p.connections > 0
  }

  predicate Zero(p: Probe) {
    p.Reading? && p.connections == 0
  }

  predicate Traffic(p: Probe) {
    p.Reading? && p.connections != 0
  }

  predicate Connects(polls: nat -> Probe) {
    exists k: nat :: k < CONNECT_POLLS && Positive(polls(k))
  }

  /** None of the polls from..to saw a connection. */
  predicate Quiet(polls: nat -> Probe, from: nat, to: nat) {
    forall k: nat :: from <= k < to ==> !Traffic(polls(k))
  }

  /** After k polls, three of them have read zero and none has seen a connection since the first of those. */
  predicate ThreeZeros(polls: nat -> Probe, k: nat) {
    exists a: nat, b: nat, c: nat :: a < b < c < k && Zero(polls(a)) && Zero(polls(b)) && Zero(polls(c))
      && Quiet(polls, a, k)
  }

  predicate Closes(polls: nat -> Probe) {
    exists k: nat :: k <= SESSION_POLLS && ThreeZeros(polls, k)
  }

  /** empty_count after k polls. */
  function EmptyCount(polls: nat -> Probe, k: nat): nat {
    if k == 0 then 0
    else if Zero(polls(k - 1)) then EmptyCount(polls, k - 1) + 1
    else if Traffic(polls(k - 1)) then 0
    else EmptyCount(polls, k - 1)
  }

  ghost predicate OneZero(polls: nat -> Probe, k: nat) {
    exists a: nat :: a < k && Zero(polls(a)) && Quiet(polls, a, k)
  }

  ghost predicate TwoZeros(polls: nat -> Probe, k: nat) {
    exists a: nat, b: nat :: a < b < k && Zero(polls(a)) && Zero(polls(b)) && Quiet(polls, a, k)
  }

  lemma QuietStep(polls: nat -> Probe, a: nat, k: nat)
    requires a <= k
    ensures Quiet(polls, a, k + 1) <==> Quiet(polls, a, k) && !Traffic(polls(k))
  {
  }

  lemma OneZeroStep(polls: nat -> Probe, n: nat)
    ensures OneZero(polls, n + 1) <==> Zero(polls(n)) || (!Traffic(polls(n)) && OneZero(polls, n))
  {
    if Zero(polls(n)) {
      assert Quiet(polls, n, n + 1);
    } else if !Traffic(polls(n)) && OneZero(polls, n) {
      var a: nat :| a < n && Zero(polls(a)) && Quiet(polls, a, n);
      QuietStep(polls, a, n);
    }
    if OneZero(polls, n + 1) {
      var a: nat :| a < n + 1 && Zero(polls(a)) && Quiet(polls, a, n + 1);
      QuietStep(polls, a, n);
    }
  }

  lemma TwoZerosStep(polls: nat -> Probe, n: nat)
    ensures TwoZeros(polls, n + 1) <==>
              !Traffic(polls(n)) && (TwoZeros(polls, n) || (Zero(polls(n)) && OneZero(polls, n)))
  {
    if Zero(polls(n)) && OneZero(polls, n) {
      var a: nat :| a < n && Zero(polls(a)) && Quiet(polls, a, n);
      QuietStep(polls, a, n);
    }
    if !Traffic(polls(n)) && TwoZeros(polls, n) {
      var a: nat, b: nat :| a < b < n && Zero(polls(a)) && Zero(polls(b)) && Quiet(polls, a, n);
      QuietStep(polls, a, n);
    }
    if TwoZeros(polls, n + 1) {
      var a: nat, b: nat :| a < b < n + 1 && Zero(polls(a)) && Zero(polls(b)) && Quiet(polls, a, n + 1);
      QuietStep(polls, a, n);
    }
  }

  lemma ThreeZerosNow(polls: nat -> Probe, n: nat)
    requires Zero(polls(n)) && TwoZeros(polls, n)
    ensures ThreeZeros(polls, n + 1)
  {
    var a: nat, b: nat :| a < b < n && Zero(polls(a)) && Zero(polls(b)) && Quiet(polls, a, n);
    QuietStep(polls, a, n);
    hide Zero, Quiet;
    assert a < b < n < n + 1;
  }

  lemma ThreeZerosStay(polls: nat -> Probe, n: nat)
    requires !Traffic(polls(n)) && ThreeZeros(polls, n)
    ensures ThreeZeros(polls, n + 1)
  {
    var a: nat, b: nat, c: nat :|
      a < b < c < n && Zero(polls(a)) && Zero(polls(b)) && Zero(polls(c)) && Quiet(polls, a, n);
    QuietStep(polls, a, n);
    hide Zero, Quiet;
    assert a < b < c < n + 1;
  }

  lemma ThreeZerosBefore(polls: nat -> Probe, n: nat)
    requires ThreeZeros(polls, n + 1)
    ensures !Traffic(polls(n)) && (ThreeZeros(polls, n) || (Zero(polls(n)) && TwoZeros(polls, n)))
  {
    var a: nat, b: nat, c: nat :|
      a < b < c < n + 1 && Zero(polls(a)) && Zero(polls(b)) && Zero(polls(c)) && Quiet(polls, a, n + 1);
    QuietStep(polls, a, n);
    hide Zero, Quiet, Traffic;
    if c < n {
      assert ThreeZeros(polls, n);
    }
  }

  lemma {:induction false} CountTwo(polls: nat -> Probe, k: nat)
    ensures EmptyCount(polls, k) >= 1 <==> OneZero(polls, k)
    ensures EmptyCount(polls, k) >= 2 <==> TwoZeros(polls, k)
  {
    if k > 0 {
      CountTwo(polls, k - 1);
      OneZeroStep(polls, k - 1);
      TwoZerosStep(polls, k - 1);
      hide OneZero, TwoZeros;
    }
  }

  /** The counter reaches three exactly when the third zero since the last connection has been read. */
  lemma {:induction false} CountThree(polls: nat -> Probe, k: nat)
    ensures EmptyCount(polls, k) >= 3 <==> ThreeZeros(polls, k)
  {
    if k > 0 {
      var n := k - 1;
      CountThree(polls, n);
      CountTwo(polls, n);
      if ThreeZeros(polls, k) {
        ThreeZerosBefore(polls, n);
      } else if !Traffic(polls(n)) {
        if ThreeZeros(polls, n) {
          ThreeZerosStay(polls, n);
        }
        if Zero(polls(n)) && TwoZeros(polls, n) {
          ThreeZerosNow(polls, n);
        }
      }
      hide ThreeZeros, TwoZeros, OneZero;
    }
  }

  /** Stopping when the counter first reaches three is stopping at the first third zero. */
  lemma StopsAtThirdZero(polls: nat -> Probe, polled: nat, closed: bool)
    requires polled <= SESSION_POLLS && (!closed ==> polled == SESSION_POLLS)
    requires EmptyCount(polls, polled) >= 3 <==> closed
    requires forall k: nat :: k < polled ==> EmptyCount(polls, k) < 3
    ensures closed <==> Closes(polls)
    ensures closed <==> ThreeZeros(polls, polled)
    ensures forall k: nat :: k < polled ==> !ThreeZeros(polls, k)
  {
    forall k: nat ensures EmptyCount(polls, k) >= 3 <==> ThreeZeros(polls, k) {
      CountThree(polls, k);
    }
    hide ThreeZeros, EmptyCount;
  }

  // ---------------------------------------------------------------- the events of a visit

  /** Everything between a good signature and the line with the port succeeded. */
  predicate Provisioned(v: Visit) {
    && v.hasContainerKey
    && (v.homeEncrypted || v.homeCreated)
    && v.homeOpened
    && v.sshPrepared
    && (v.containerStarted || v.containerCreated)
    && v.userCreated
    && v.sshdRunning
    && v.sshPort > 0
  }

  predicate SessionStarts(v: Visit) {
    v.introduced && v.verified && Provisioned(v) && Connects(v.connectPolls)
  }

  function Row(v: Visit, container: string, event: string, i: nat): Session {
    Session(v.user, container, event, v.at(i))
  }

  /** How a session that started ends. */
  function EndEvent(v: Visit): string {
    if Closes(v.sessionPolls) then DISCONNECTED else TIMEOUT
  }

  function RowsOf(v: Visit): seq<Session> {
    if !v.introduced then []
    else if !v.verified then [Row(v, "", AUTH_FAIL, 0)]
    else if !Provisioned(v) then [Row(v, "", AUTH_OK, 0)]
    else if !Connects(v.connectPolls) then [Row(v, "", AUTH_OK, 0), Row(v, v.container, TIMEOUT, 1)]
    else [Row(v, "", AUTH_OK, 0), Row(v, v.container, CONNECTED, 1), Row(v, v.container, EndEvent(v), 2)]
  }

  /** Some of the first 60 polls read a connection. */
  ghost predicate ConnectsWithinAMinute(v: Visit) {
    exists k: nat :: k < 60 && match v.connectPolls(k) case Failed => false case Reading(n) => n > 0
  }

  /** Polls a, b and c read no connection, and no poll from a to c read one. */
  ghost predicate ClosedBy(v: Visit, a: nat, b: nat, c: nat) {
    && a < b < c
    && v.sessionPolls(a) == Reading(0) && v.sessionPolls(b) == Reading(0) && v.sessionPolls(c) == Reading(0)
    && forall k: nat :: a <= k < c ==> v.sessionPolls(k) == Failed || v.sessionPolls(k) == Reading(0)
  }

  ghost predicate ClosesWithinADay(v: Visit) {
    exists a, b, c :: c < 86400 && ClosedBy(v, a, b, c)
  }

  /** Every step between a good signature and the port number succeeded. */
  predicate SetUp(v: Visit) {
    && v.hasContainerKey && (!v.homeEncrypted ==> v.homeCreated) && v.homeOpened && v.sshPrepared
    && (!v.containerStarted ==> v.containerCreated) && v.userCreated && v.sshdRunning && v.sshPort > 0
  }

  /**
   What a visit logs: nothing before the signature is checked; then whether it was good;
   and after a complete set-up how the session went.
   */
  lemma VisitLogs(v: Visit)
    ensures var authOk := Session(v.user, "", "auth_ok", v.at(0));
            RowsOf(v)
            == if !v.introduced then []
               else if !v.verified then [Session(v.user, "", "auth_fail", v.at(0))]
               else if !SetUp(v) then [authOk]
               else if !ConnectsWithinAMinute(v) then [authOk, Session(v.user, v.container, "timeout", v.at(1))]
               else [authOk, Session(v.user, v.container, "ssh_connected", v.at(1)),
                     Session(v.user, v.container,
                             if ClosesWithinADay(v) then "ssh_disconnected" else "timeout", v.at(2))]
  {
    ConnectsIff(v);
    ClosesIff(v);
    hide Connects, Closes, ConnectsWithinAMinute, ClosesWithinADay;
    assert Provisioned(v) <==> SetUp(v);
    hide Provisioned, SetUp;
  }

  lemma ConnectsIff(v: Visit)
    ensures Connects(v.connectPolls) <==> ConnectsWithinAMinute(v)
  {
    if k: nat :| k < CONNECT_POLLS && Positive(v.connectPolls(k)) {
      assert k < 60 && match v.connectPolls(k) case Failed => false case Reading(n) => n > 0;
    }
    if k: nat :| k < 60 && match v.connectPolls(k) case Failed => false case Reading(n) => n > 0 {
      assert Positive(v.connectPolls(k));
    }
  }

  lemma ClosesIff(v: Visit)
    ensures Closes(v.sessionPolls) <==> ClosesWithinADay(v)
  {
    hide ThreeZeros, ClosedBy;
    if n: nat :| n <= SESSION_POLLS && ThreeZeros(v.sessionPolls, n) {
      var a, b, c := ZerosClose(v, n);
    }
    if a: nat, b: nat, c: nat :| c < 86400 && ClosedBy(v, a, b, c) {
      CloseZeros(v, a, b, c);
    }
  }

  lemma ZerosClose(v: Visit, n: nat) returns (a: nat, b: nat, c: nat)
    requires ThreeZeros(v.sessionPolls, n)
    ensures c < n && ClosedBy(v, a, b, c)
  {
    var polls := v.sessionPolls;
    a, b, c :| a < b < c < n && Zero(polls(a)) && Zero(polls(b)) && Zero(polls(c)) && Quiet(polls, a, n);
    hide ThreeZeros;
    forall k: nat | a <= k < c ensures polls(k) == Failed || polls(k) == Reading(0) {
      assert !Traffic(polls(k));
    }
  }

  lemma CloseZeros(v: Visit, a: nat, b: nat, c: nat)
    requires ClosedBy(v, a, b, c)
    ensures ThreeZeros(v.sessionPolls, c + 1)
  {
    assert Quiet(v.sessionPolls, a, c + 1);
    assert Zero(v.sessionPolls(a)) && Zero(v.sessionPolls(b)) && Zero(v.sessionPolls(c));
  }

  function LogOf(visits: seq<Visit>): seq<Session> {
    if visits == [] then [] else LogOf(visits[..|visits| - 1]) + RowsOf(visits[|visits| - 1])
  }

  /** The event after i ends the session that i connects. */
  ghost predicate Ends(log: seq<Session>, i: nat)
    requires i < |log|
  {
    && i + 1 < |log|
    && (log[i + 1].event == DISCONNECTED || log[i + 1].event == TIMEOUT)
    && KeyOf(log[i + 1]) == KeyOf(log[i])
  }

  ghost predicate BracketedAt(log: seq<Session>, i: nat)
    requires i < |log|
  {
    && (log[i].event == CONNECTED ==> Ends(log, i))
    && (log[i].event == DISCONNECTED ==> i > 0 && log[i - 1].event == CONNECTED && Ends(log, i - 1))
  }

  /** Every connect is directly followed by the end of its session, every disconnect directly follows its connect. */
  ghost predicate Bracketed(log: seq<Session>) {
    forall i :: 0 <= i < |log| ==> BracketedAt(log, i)
  }

  lemma BracketedConcat(a: seq<Session>, b: seq<Session>)
    requires Bracketed(a) && Bracketed(b)
    ensures Bracketed(a + b)
  {
    var s := a + b;
    forall i | 0 <= i < |s| ensures BracketedAt(s, i) {
      if i < |a| {
        assert BracketedAt(a, i) && s[i] == a[i];
        assert i + 1 < |a| ==> s[i + 1] == a[i + 1];
        assert i > 0 ==> s[i - 1] == a[i - 1];
      } else {
        var j := i - |a|;
        assert BracketedAt(b, j) && s[i] == b[j];
        assert j + 1 < |b| ==> s[i + 1] == b[j + 1];
        assert j > 0 ==> s[i - 1] == b[j - 1];
      }
    }
  }

  lemma {:induction false} RunIsBracketed(visits: seq<Visit>)
    ensures Bracketed(LogOf(visits))
  {
    if visits != [] {
      var n := |visits| - 1;
      RunIsBracketed(visits[..n]);
      VisitIsBracketed(visits[n]);
      BracketedConcat(LogOf(visits[..n]), RowsOf(visits[n]));
    }
  }

  lemma EventNames()
    ensures CONNECTED != DISCONNECTED && CONNECTED != TIMEOUT && DISCONNECTED != TIMEOUT
    ensures AUTH_OK != CONNECTED && AUTH_OK != DISCONNECTED && AUTH_OK != TIMEOUT
    ensures AUTH_FAIL != CONNECTED && AUTH_FAIL != DISCONNECTED && AUTH_FAIL != TIMEOUT
  {
    assert |AUTH_OK| == 7 == |TIMEOUT| && AUTH_OK[0] == 'a' && TIMEOUT[0] == 't';
  }

  lemma VisitIsBracketed(v: Visit)
    ensures Bracketed(RowsOf(v))
  {
    hide Connects, Closes, Provisioned;
    EventNames();
  }

  // ---------------------------------------------------------------- the log pairs up

  /** The interval a visit contributes: from its connect to its end, if that is later. */
  function IntervalsOf(v: Visit): seq<Interval> {
    if SessionStarts(v) && v.at(2) > v.at(1)
    then [Interval((v.user, v.container), v.at(1), v.at(2))] else []
  }

  function AllIntervals(visits: seq<Visit>): seq<Interval> {
    if visits == [] then [] else AllIntervals(visits[..|visits| - 1]) + IntervalsOf(visits[|visits| - 1])
  }

  function Starts(visits: seq<Visit>): nat {
    if visits == [] then 0
    else Starts(visits[..|visits| - 1]) + if SessionStarts(visits[|visits| - 1]) then 1 else 0
  }

  function ConnectCount(log: seq<Session>): nat {
    if log == [] then 0
    else ConnectCount(log[..|log| - 1]) + if log[|log| - 1].event == CONNECTED then 1 else 0
  }

  lemma PairUpTo3(p: Pairing, a: Session, b: Session, c: Session)
    ensures PairFrom(p, []) == p
    ensures PairFrom(p, [a]) == Advance(p, a)
    ensures PairFrom(p, [a, b]) == Advance(Advance(p, a), b)
    ensures PairFrom(p, [a, b, c]) == Advance(Advance(Advance(p, a), b), c)
  {
    hide Advance;
    assert [a][..0] == [] && [a, b][..1] == [a] && [a, b, c][..2] == [a, b];
    assert PairFrom(p, [a]) == Advance(p, a);
    assert PairFrom(p, [a, b]) == Advance(Advance(p, a), b);
  }

  /** A visit leaves nothing pending and adds its own interval. */
  lemma VisitPairs(p: Pairing, v: Visit)
    requires p.pending == map[]
    ensures PairFrom(p, RowsOf(v)) == Pairing(p.intervals + IntervalsOf(v), map[])
  {
    hide Connects, Closes, Provisioned, PairFrom;
    PairUpTo3(p, Row(v, "", AUTH_OK, 0), Row(v, v.container, CONNECTED, 1), Row(v, v.container, EndEvent(v), 2));
    PairUpTo3(p, Row(v, "", AUTH_OK, 0), Row(v, v.container, TIMEOUT, 1), Row(v, "", AUTH_FAIL, 0));
    PairUpTo3(p, Row(v, "", AUTH_FAIL, 0), Row(v, "", AUTH_FAIL, 0), Row(v, "", AUTH_FAIL, 0));
    EventNames();
    if SessionStarts(v) {
      StartedPairs(p, v);
    }
  }

  lemma StartedPairs(p: Pairing, v: Visit)
    requires p.pending == map[]
    requires AUTH_OK != CONNECTED && AUTH_OK != DISCONNECTED && AUTH_OK != TIMEOUT
    requires CONNECTED != DISCONNECTED && CONNECTED != TIMEOUT
    ensures var k := (v.user, v.container);
            Advance(Advance(Advance(p, Row(v, "", AUTH_OK, 0)), Row(v, v.container, CONNECTED, 1)),
                    Row(v, v.container, EndEvent(v), 2))
            == Pairing(p.intervals + (if v.at(2) > v.at(1) then [Interval(k, v.at(1), v.at(2))] else []), map[])
  {
    var k := (v.user, v.container);
    var q := Advance(p, Row(v, "", AUTH_OK, 0));
    assert q == p;
    var r := Advance(q, Row(v, v.container, CONNECTED, 1));
    assert r == Pairing(p.intervals, map[k := v.at(1)]);
    assert map[k := v.at(1)] - {k} == map[];
  }

  /** In the order of logging, the rows of a run pair up to its sessions, and nothing stays pending. */
  lemma {:induction false} LogPairs(visits: seq<Visit>)
    ensures Pair(LogOf(visits)) == Pairing(AllIntervals(visits), map[])
  {
    if visits != [] {
      var n := |visits| - 1;
      LogPairs(visits[..n]);
      PairConcat(Pairing([], map[]), LogOf(visits[..n]), RowsOf(visits[n]));
      VisitPairs(Pair(LogOf(visits[..n])), visits[n]);
    }
  }

  lemma {:induction false} ConnectCountConcat(a: seq<Session>, b: seq<Session>)
    ensures ConnectCount(a + b) == ConnectCount(a) + ConnectCount(b)
  {
    if b == [] {
      assert a + b == a;
    } else {
      assert (a + b)[..|a + b| - 1] == a + b[..|b| - 1];
      ConnectCountConcat(a, b[..|b| - 1]);
    }
  }

  lemma ConnectCountUpTo3(a: Session, b: Session, c: Session)
    ensures var one := (s: Session) => if s.event == CONNECTED then 1 else 0;
            && ConnectCount([]) == 0
            && ConnectCount([a]) == one(a)
            && ConnectCount([a, b]) == one(a) + one(b)
            && ConnectCount([a, b, c]) == one(a) + one(b) + one(c)
  {
    assert [a][..0] == [] && [a, b][..1] == [a] && [a, b, c][..2] == [a, b];
    assert ConnectCount([a]) == if a.event == CONNECTED then 1 else 0;
  }

  lemma VisitConnects(v: Visit)
    ensures ConnectCount(RowsOf(v)) == if SessionStarts(v) then 1 else 0
  {
    hide Connects, Closes, Provisioned, ConnectCount;
    ConnectCountUpTo3(Row(v, "", AUTH_OK, 0), Row(v, v.container, CONNECTED, 1), Row(v, v.container, EndEvent(v), 2));
    ConnectCountUpTo3(Row(v, "", AUTH_OK, 0), Row(v, v.container, TIMEOUT, 1), Row(v, "", AUTH_FAIL, 0));
    ConnectCountUpTo3(Row(v, "", AUTH_FAIL, 0), Row(v, "", AUTH_FAIL, 0), Row(v, "", AUTH_FAIL, 0));
  }

  ghost predicate AllEndLater(visits: seq<Visit>) {
    forall i :: 0 <= i < |visits| && SessionStarts(visits[i]) ==> visits[i].at(1) < visits[i].at(2)
  }

  lemma AllEndLaterSnoc(visits: seq<Visit>)
    requires visits != []
    ensures var n := |visits| - 1;
            AllEndLater(visits) <==>
              AllEndLater(visits[..n]) && (SessionStarts(visits[n]) ==> visits[n].at(1) < visits[n].at(2))
  {
    hide SessionStarts;
    var n := |visits| - 1;
    assert visits == visits[..n] + [visits[n]];
  }

  lemma {:induction false} IntervalCount(visits: seq<Visit>)
    ensures ConnectCount(LogOf(visits)) == Starts(visits)
    ensures |AllIntervals(visits)| <= Starts(visits)
    ensures |AllIntervals(visits)| == Starts(visits) <==> AllEndLater(visits)
  {
    if visits != [] {
      var n := |visits| - 1;
      IntervalCount(visits[..n]);
      ConnectCountConcat(LogOf(visits[..n]), RowsOf(visits[n]));
      VisitConnects(visits[n]);
      AllEndLaterSnoc(visits);
      hide SessionStarts, RowsOf, AllEndLater, ConnectCount, LogOf;
      assert LogOf(visits) == LogOf(visits[..n]) + RowsOf(visits[n]);
    }
  }

  // ---------------------------------------------------------------- the rows in the order of the query

  /** Rows as ORDER BY timestamp may return them: rows of the same second in any order. */
  ghost predicate Fetched(rows: seq<Session>, log: seq<Session>) {
    Sorted(rows) && multiset(rows) == multiset(log)
  }

  function Insert(rows: seq<Session>, s: Session): seq<Session> {
    if rows == [] || rows[|rows| - 1].timestamp <= s.timestamp then rows + [s]
    else Insert(rows[..|rows| - 1], s) + [rows[|rows| - 1]]
  }

  /** The rows by time, those of the same second in the order of logging. */
  function ByTime(log: seq<Session>): seq<Session> {
    if log == [] then [] else Insert(ByTime(log[..|log| - 1]), log[|log| - 1])
  }

  lemma {:induction false} InsertFetches(rows: seq<Session>, s: Session)
    requires Sorted(rows)
    ensures Fetched(Insert(rows, s), rows + [s])
  {
    if rows != [] && rows[|rows| - 1].timestamp > s.timestamp {
      var n := |rows| - 1;
      var r := Insert(rows[..n], s);
      InsertFetches(rows[..n], s);
      assert rows == rows[..n] + [rows[n]];
      forall i | 0 <= i < |r| ensures r[i].timestamp <= rows[n].timestamp {
        assert r[i] in multiset(r) && r[i] in multiset(rows[..n] + [s]);
      }
    }
  }

  lemma {:induction false} ByTimeFetches(log: seq<Session>)
    ensures Fetched(ByTime(log), log)
  {
    if log != [] {
      var n := |log| - 1;
      ByTimeFetches(log[..n]);
      InsertFetches(ByTime(log[..n]), log[n]);
      assert log == log[..n] + [log[n]];
    }
  }

  lemma SplitLast(a: seq<Session>)
    requires a != []
    ensures a == a[..|a| - 1] + [a[|a| - 1]]
  {
  }

  /** A log whose times never go back is returned as it was written. */
  lemma {:induction false} ByTimeKeeps(log: seq<Session>)
    requires Sorted(log)
    ensures ByTime(log) == log
  {
    if log != [] {
      var n := |log| - 1;
      SplitLast(log);
      SortedStep(log);
      hide Sorted;
      ByTimeKeeps(log[..n]);
      InsertLatest(log[..n], log[n]);
      hide Insert;
    }
  }

  lemma SortedStep(log: seq<Session>)
    requires log != [] && Sorted(log)
    ensures var n := |log| - 1; Sorted(log[..n]) && (n > 0 ==> log[..n][n - 1].timestamp <= log[n].timestamp)
  {
  }

  lemma InsertLatest(rows: seq<Session>, s: Session)
    requires rows != [] ==> rows[|rows| - 1].timestamp <= s.timestamp
    ensures Insert(rows, s) == rows + [s]
  {
  }

  /**
   When the clock does not go back, the rows of any run pair up to one interval per
   session that ended later than it started, in order, and nothing stays pending.
   */
  lemma RunPairs(visits: seq<Visit>)
    requires Sorted(LogOf(visits))
    ensures Pair(ByTime(LogOf(visits))) == Pairing(AllIntervals(visits), map[])
  {
    ByTimeKeeps(LogOf(visits));
    LogPairs(visits);
  }

  /** There is then exactly one duration per ssh_connected if and only if every session ended later than it started. */
  lemma OneDurationPerConnect(visits: seq<Visit>)
    requires Sorted(LogOf(visits))
    ensures var rows := ByTime(LogOf(visits));
            |Durations(rows)| == ConnectCount(rows) <==> AllEndLater(visits)
  {
    ByTimeKeeps(LogOf(visits));
    LogPairs(visits);
    IntervalCount(visits);
  }

  /** Whatever the clock does, a pending connect and a duration each account for one ssh_connected. */
  lemma {:induction false} AtMostOneDuration(rows: seq<Session>)
    ensures |Durations(rows)| + |Pair(rows).pending| <= ConnectCount(rows)
  {
    if rows != [] {
      var n := |rows| - 1;
      AtMostOneDuration(rows[..n]);
      PendingStep(Pair(rows[..n]), rows[n]);
    }
  }

  lemma PendingStep(p: Pairing, s: Session)
    ensures var q := Advance(p, s);
            |q.intervals| + |q.pending| <= |p.intervals| + |p.pending| + if s.event == CONNECTED then 1 else 0
  {
    var k := KeyOf(s);
    if s.event == CONNECTED {
      assert p.pending[k := s.timestamp].Keys == p.pending.Keys + {k};
    } else if k in p.pending {
      assert (p.pending - {k}).Keys == p.pending.Keys - {k};
    }
  }

  // ---------------------------------------------------------------- rows of the same second

  ghost predicate StrictlyIncreasing(log: seq<Session>) {
    forall i, j :: 0 <= i < j < |log| ==> log[i].timestamp < log[j].timestamp
  }

  /** The events that the pairing looks at. */
  predicate IsSsh(s: Session) {
    s.event == CONNECTED || s.event == DISCONNECTED || s.event == TIMEOUT
  }

  function SshRows(log: seq<Session>): seq<Session> {
    if log == [] then [] else SshRows(log[..|log| - 1]) + if IsSsh(log[|log| - 1]) then [log[|log| - 1]] else []
  }

  lemma {:induction false} SshRowsPair(p: Pairing, log: seq<Session>)
    ensures PairFrom(p, SshRows(log)) == PairFrom(p, log)
  {
    if log != [] {
      var n := |log| - 1;
      SshRowsPair(p, log[..n]);
      hide Advance;
      var before := SshRows(log[..n]);
      assert (before + [log[n]])[..|before|] == before && before + [] == before;
      if !IsSsh(log[n]) {
        OtherRow(PairFrom(p, log[..n]), log[n]);
      }
    }
  }

  lemma OtherRow(p: Pairing, s: Session)
    requires !IsSsh(s)
    ensures Advance(p, s) == p
  {
  }

  lemma {:induction false} SshRowsCount(log: seq<Session>, s: Session)
    ensures multiset(SshRows(log))[s] == if IsSsh(s) then multiset(log)[s] else 0
  {
    if log != [] {
      var n := |log| - 1;
      SshRowsCount(log[..n], s);
      assert log == log[..n] + [log[n]];
    }
  }

  lemma {:induction false} SshRowsSorted(log: seq<Session>)
    requires Sorted(log)
    ensures Sorted(SshRows(log))
    ensures forall s :: s in SshRows(log) ==> s.timestamp <= log[|log| - 1].timestamp
  {
    if log != [] {
      SshRowsSorted(log[..|log| - 1]);
    }
  }

  lemma LatestLast(a: seq<Session>, b: seq<Session>)
    requires StrictlyIncreasing(a) && Sorted(b) && multiset(a) == multiset(b) && a != []
    ensures |a| == |b| && a[|a| - 1] == b[|b| - 1]
  {
    var n := |a| - 1;
    assert |a| == |multiset(a)| == |multiset(b)| == |b|;
    assert a[n] in multiset(a) && b[n] in multiset(b);
    var i :| 0 <= i < |b| && b[i] == a[n];
    var j :| 0 <= j < |a| && a[j] == b[n];
  }

  lemma WithoutLast(a: seq<Session>)
    requires a != []
    ensures multiset(a[..|a| - 1]) == multiset(a) - multiset{a[|a| - 1]}
  {
    assert a == a[..|a| - 1] + [a[|a| - 1]];
  }

  lemma Prefixes(a: seq<Session>, b: seq<Session>)
    requires a != [] && b != [] && StrictlyIncreasing(a) && Sorted(b)
    ensures StrictlyIncreasing(a[..|a| - 1]) && Sorted(b[..|b| - 1])
  {
  }

  /** Times that all differ leave only one order. */
  lemma {:induction false} OneOrder(a: seq<Session>, b: seq<Session>)
    requires StrictlyIncreasing(a) && Sorted(b) && multiset(a) == multiset(b)
    ensures a == b
    decreases |a|
  {
    if a == [] {
      assert |multiset(b)| == |b|;
    } else {
      LatestLast(a, b);
      Prefixes(a, b);
      hide StrictlyIncreasing, Sorted;
      WithoutLast(a);
      WithoutLast(b);
      OneOrder(a[..|a| - 1], b[..|b| - 1]);
      SplitLast(a);
      SplitLast(b);
    }
  }

  /**
   If no two of the connects and ends of a run fall into the same second and they are
   logged in the order of their times, then however the query orders the rest, every
   ssh_connected gets its duration, in order.
   */
  lemma IncreasingLogPairs(visits: seq<Visit>, rows: seq<Session>)
    requires StrictlyIncreasing(SshRows(LogOf(visits))) && Fetched(rows, LogOf(visits))
    ensures Pair(rows) == Pairing(AllIntervals(visits), map[])
    ensures |Durations(rows)| == ConnectCount(LogOf(visits))
  {
    var log := LogOf(visits);
    forall s ensures multiset(SshRows(rows))[s] == multiset(SshRows(log))[s] {
      SshRowsCount(rows, s);
      SshRowsCount(log, s);
    }
    SshRowsSorted(rows);
    OneOrder(SshRows(log), SshRows(rows));
    SshRowsPair(Pairing([], map[]), rows);
    SshRowsPair(Pairing([], map[]), log);
    LogPairs(visits);
    IntervalCount(visits);
    SessionsEndLater(visits);
  }

  /** Where a visit's connect and end lie among the events. */
  lemma {:induction false} SshRowsConcat(a: seq<Session>, b: seq<Session>)
    ensures SshRows(a + b) == SshRows(a) + SshRows(b)
  {
    if b == [] {
      assert a + b == a;
    } else {
      assert (a + b)[..|a + b| - 1] == a + b[..|b| - 1];
      SshRowsConcat(a, b[..|b| - 1]);
    }
  }

  lemma StartedRows(v: Visit)
    requires SessionStarts(v)
    ensures SshRows(RowsOf(v)) == [Row(v, v.container, CONNECTED, 1), Row(v, v.container, EndEvent(v), 2)]
  {
    hide Connects, Closes, Provisioned;
    var rows := RowsOf(v);
    EventNames();
    assert rows[..2][..1] == [rows[0]] && rows[..2][1] == rows[1] && rows[..1][..0] == [];
    assert SshRows(rows[..1]) == [];
    assert SshRows(rows[..2]) == [rows[1]];
  }

  lemma {:induction false} SessionsEndLater(visits: seq<Visit>)
    requires StrictlyIncreasing(SshRows(LogOf(visits)))
    ensures AllEndLater(visits)
  {
    if visits != [] {
      var n := |visits| - 1;
      var before, mine := SshRows(LogOf(visits[..n])), SshRows(RowsOf(visits[n]));
      SshRowsConcat(LogOf(visits[..n]), RowsOf(visits[n]));
      assert forall i :: 0 <= i < |before| ==> (before + mine)[i] == before[i];
      SessionsEndLater(visits[..n]);
      AllEndLaterSnoc(visits);
      if SessionStarts(visits[n]) {
        StartedRows(visits[n]);
        assert (before + mine)[|before|] == mine[0] && (before + mine)[|before| + 1] == mine[1];
      }
    }
  }

  // ---------------------------------------------------------------- a clock that is set back

  function Plain(connects: Probe, at: nat -> int): Visit {
    Visit("u", "c", true, true, true, true, true, true, true, true, true, true, true, 22,
          _ => connects, _ => Reading(0), at)
  }

  /** A session whose clock was set back before it ended, and a later visit that times out waiting. */
  function SetBack(): seq<Visit> {
    [Plain(Reading(1), i => if i == 0 then 80 else if i == 1 then 100 else 90),
     Plain(Failed, i => if i == 0 then 110 else 150)]
  }

  /** Three readings of 0 in a row close the session; a positive reading opens it. */
  lemma PlainRows(connects: Probe, at: nat -> int)
    ensures var v := Plain(connects, at);
            RowsOf(v) == [Session("u", "", AUTH_OK, at(0))]
                         + if Positive(connects)
                           then [Session("u", "c", CONNECTED, at(1)), Session("u", "c", DISCONNECTED, at(2))]
                           else [Session("u", "c", TIMEOUT, at(1))]
    ensures SessionStarts(Plain(connects, at)) <==> Positive(connects)
  {
    var v := Plain(connects, at);
    assert Provisioned(v);
    assert Positive(v.connectPolls(0)) <==> Positive(connects);
    assert ThreeZeros(v.sessionPolls, 3) by {
      assert Zero(v.sessionPolls(0)) && Zero(v.sessionPolls(1)) && Zero(v.sessionPolls(2));
      assert Quiet(v.sessionPolls, 0, 3);
    }
    hide Provisioned, Positive, ThreeZeros;
  }

  function At(container: string, event: string, t: int): Session {
    Session("u", container, event, t)
  }

  lemma SetBackLog()
    ensures LogOf(SetBack()) == [At("", AUTH_OK, 80), At("c", CONNECTED, 100), At("c", DISCONNECTED, 90),
                                 At("", AUTH_OK, 110), At("c", TIMEOUT, 150)]
    ensures SessionStarts(SetBack()[0]) && !SessionStarts(SetBack()[1])
  {
    var visits := SetBack();
    PlainRows(Reading(1), visits[0].at);
    PlainRows(Failed, visits[1].at);
    hide RowsOf, SessionStarts;
    assert visits[..1] == [visits[0]] && visits[..1][..0] == [];
    assert LogOf(visits[..1]) == RowsOf(visits[0]);
  }

  /** The pairing of the rows in the order of their times. */
  lemma SetBackPairs()
    ensures Durations([At("", AUTH_OK, 80), At("c", DISCONNECTED, 90), At("c", CONNECTED, 100),
                       At("", AUTH_OK, 110), At("c", TIMEOUT, 150)]) == [50]
  {
    var p := Pairing([], map[]);
    var a, b, c := At("", AUTH_OK, 80), At("c", DISCONNECTED, 90), At("c", CONNECTED, 100);
    var d, e := At("", AUTH_OK, 110), At("c", TIMEOUT, 150);
    assert [a, b, c, d, e] == [a, b, c] + [d, e];
    PairConcat(p, [a, b, c], [d, e]);
    PairUpTo3(p, a, b, c);
    PairUpTo3(PairFrom(p, [a, b, c]), d, e, e);
    EventNames();
    hide PairFrom;
    assert Advance(p, a) == p && Advance(p, b) == p;
    assert Advance(Advance(p, c), d) == Advance(p, c);
  }

  /**
   With a clock that is set back, the order of the query is not the order of logging:
   here the end of the session comes before its connect, which then pairs with the end
   of a later visit.
   */
  lemma BackwardClock(rows: seq<Session>)
    requires Fetched(rows, LogOf(SetBack()))
    ensures !AllEndLater(SetBack()) && ConnectCount(LogOf(SetBack())) == 1
    ensures Durations(LogOf(SetBack())) == [] && Durations(rows) == [50]
  {
    SetBackLog();
    SetBackPairs();
    SetBackAlone(SetBack());
    hide SetBack, LogOf, Durations, SessionStarts, ConnectCount, AllEndLater;
    SetBackOrder(rows);
  }

  /** In the order of logging the end follows its connect, but earlier. */
  lemma SetBackAlone(visits: seq<Visit>)
    requires visits == SetBack()
    ensures !AllEndLater(visits) && ConnectCount(LogOf(visits)) == 1 && Durations(LogOf(visits)) == []
  {
    SetBackLog();
    LogPairs(visits);
    IntervalCount(visits);
    hide LogOf, Durations, SessionStarts, ConnectCount, Pair;
    assert visits[..1][..0] == [] && visits[..1] == [visits[0]];
    assert visits[0].at(2) == 90 && visits[0].at(1) == 100;
    assert Starts(visits[..1]) == 1 && AllIntervals(visits[..1]) == [];
    assert Durations(LogOf(visits)) == [] by {
      NoDurations(LogOf(visits));
    }
  }

  lemma NoDurations(log: seq<Session>)
    requires Pair(log).intervals == []
    ensures Durations(log) == []
  {
    hide Pair;
  }

  lemma SetBackOrder(rows: seq<Session>)
    requires Sorted(rows)
    requires multiset(rows) == multiset([At("", AUTH_OK, 80), At("c", CONNECTED, 100), At("c", DISCONNECTED, 90),
                                         At("", AUTH_OK, 110), At("c", TIMEOUT, 150)])
    ensures rows == [At("", AUTH_OK, 80), At("c", DISCONNECTED, 90), At("c", CONNECTED, 100),
                     At("", AUTH_OK, 110), At("c", TIMEOUT, 150)]
  {
    var a, b, c := At("", AUTH_OK, 80), At("c", CONNECTED, 100), At("c", DISCONNECTED, 90);
    var d, e := At("", AUTH_OK, 110), At("c", TIMEOUT, 150);
    assert [a] + [b, c] + [d, e] == [a, b, c, d, e];
    Increase(a, c, b, d, e);
    assert [a] + [c, b] + [d, e] == [a, c, b, d, e];
    Swapped([a], b, c, [d, e], rows);
  }

  lemma Swapped(s: seq<Session>, b: Session, c: Session, t: seq<Session>, rows: seq<Session>)
    requires Sorted(rows) && multiset(rows) == multiset(s + [b, c] + t) && StrictlyIncreasing(s + [c, b] + t)
    ensures rows == s + [c, b] + t
  {
    hide Sorted, StrictlyIncreasing;
    Middle(s, b, c, t);
    OneOrder(s + [c, b] + t, rows);
  }

  lemma Middle(s: seq<Session>, b: Session, c: Session, t: seq<Session>)
    ensures multiset(s + [b, c] + t) == multiset(s + [c, b] + t)
  {
  }

  lemma Increase(a: Session, b: Session, c: Session, d: Session, e: Session)
    requires a.timestamp < b.timestamp < c.timestamp < d.timestamp < e.timestamp
    ensures StrictlyIncreasing([a, b, c, d, e])
  {
  }
}
