/** The manager's client handler, appending to the session log step by step. */
module Server {
  import opened ServerSpec
  import opened SessionLog

  class Manager {
    var log: seq<Session>

    constructor ()
      ensures log == []
    {
      log := [];
    }

    method LogEvent(v: Visit, container: string, event: string, i: nat)
      modifies this
      ensures log == old(log) + [Row(v, container, event, i)]
    {
      log := log + [Session(v.user, container, event, v.at(i))];
    }

    /** The connect-wait loop: at most 60 polls, up to the first that reads a connection. */
    method WaitForConnect(v: Visit) returns (connected: bool, wait: nat)
      modifies this
      ensures connected <==> Connects(v.connectPolls)
      ensures connected ==> wait < CONNECT_POLLS && Positive(v.connectPolls(wait))
      ensures !connected ==> wait == CONNECT_POLLS
      ensures forall k: nat :: k < wait ==> !Positive(v.connectPolls(k))
      ensures log == old(log) + if connected then [Row(v, v.container, CONNECTED, 1)] else []
    {
      connected, wait := false, 0;
      while !connected && wait < CONNECT_POLLS
        invariant wait <= CONNECT_POLLS
        invariant connected ==> wait < CONNECT_POLLS && Positive(v.connectPolls(wait))
        invariant forall k: nat :: k < wait ==> !Positive(v.connectPolls(k))
        invariant log == old(log) + if connected then [Row(v, v.container, CONNECTED, 1)] else []
        decreases CONNECT_POLLS - wait, !connected
      {
        var probe := v.connectPolls(wait);
        if probe.Reading? && probe.connections > 0 {
          connected := true;
          LogEvent(v, v.container, CONNECTED, 1);
        }
        if !connected {
          wait := wait + 1;
        }
      }
    }

    /**
     The disconnect loop: it ends with the poll that is the third zero since the last
     connection was seen, or after 86400 polls, and logs its event exactly once.
     */
    method WatchSession(v: Visit) returns (closed: bool, polled: nat)
      modifies this
      ensures closed <==> Closes(v.sessionPolls)
      ensures polled <= SESSION_POLLS && (!closed ==> polled == SESSION_POLLS)
      ensures closed ==> ThreeZeros(v.sessionPolls, polled)
      ensures forall k: nat :: k < polled ==> !ThreeZeros(v.sessionPolls, k)
      ensures log == old(log) + [Row(v, v.container, EndEvent(v), 2)]
    {
      hide ThreeZeros, Closes;
      var active, checkCount, emptyCount := true, 0, 0;
      polled := 0;
      while active && checkCount < SESSION_POLLS
        invariant 0 <= checkCount <= SESSION_POLLS
        invariant active ==> polled == checkCount && emptyCount == EmptyCount(v.sessionPolls, polled) < 3
        invariant !active ==> polled == checkCount + 1 <= SESSION_POLLS && EmptyCount(v.sessionPolls, polled) >= 3
        invariant forall k: nat :: k < polled ==> EmptyCount(v.sessionPolls, k) < 3
        invariant log == old(log) + if active then [] else [Row(v, v.container, DISCONNECTED, 2)]
        decreases SESSION_POLLS - checkCount, active
      {
        var probe := v.sessionPolls(checkCount);
        polled := polled + 1;
        if probe.Reading? {
          if probe.connections == 0 {
            emptyCount := emptyCount + 1;
            if emptyCount >= 3 {
              active := false;
              LogEvent(v, v.container, DISCONNECTED, 2);
            }
          } else {
            emptyCount := 0;
          }
        }
        if active {
          checkCount := checkCount + 1;
        }
      }
      closed := !active;
      StopsAtThirdZero(v.sessionPolls, polled, closed);
      if active {
        LogEvent(v, v.container, TIMEOUT, 2);
      }
    }

    /** handle_client, as far as the log goes. */
    method HandleClient(v: Visit)
      modifies this
      ensures log == old(log) + RowsOf(v)
    {
      hide Connects, Closes, ThreeZeros;
      if !v.introduced {
        return;
      }
      if !v.verified {
        LogEvent(v, "", AUTH_FAIL, 0);
        return;
      }
      LogEvent(v, "", AUTH_OK, 0);
      if !v.hasContainerKey {
        return;
      }
      if !v.homeEncrypted {
        if !v.homeCreated {
          return;
        }
      }
      if !v.homeOpened {
        return;
      }
      if !v.sshPrepared {
        return;
      }
      if !v.containerStarted {
        if !v.containerCreated {
          return;
        }
      }
      if !v.userCreated {
        return;
      }
      if !v.sshdRunning {
        return;
      }
      if v.sshPort <= 0 {
        return;
      }
      var connected, wait := WaitForConnect(v);
      if !connected {
        LogEvent(v, v.container, TIMEOUT, 1);
        return;
      }
      var closed, polled := WatchSession(v);
    }

    /** The accept loop: one client after another. */
    method Serve(visits: seq<Visit>)
      modifies this
      ensures log == old(log) + LogOf(visits)
    {
      var i := 0;
      while i < |visits|
        invariant 0 <= i <= |visits|
        invariant log == old(log) + LogOf(visits[..i])
      {
        assert visits[..i + 1][..i] == visits[..i];
        hide RowsOf;
        HandleClient(visits[i]);
        i := i + 1;
      }
      assert visits[..|visits|] == visits;
    }
  }
}
