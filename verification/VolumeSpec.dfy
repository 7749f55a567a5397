/**
 The table of mounted homes as a list of entries, and the set of container ids it
 stands for.  What the operating system answers is part of each operation.
 */
module VolumeSpec {

  datatype Volume = Volume(container: string, mapper: string, mountPoint: string, isMounted: bool)

  /** Root user, path lengths, image present, key file written, LUKS opened, file system mounted. */
  datatype OpenEnv = OpenEnv(root: bool, pathsShort: bool, imageExists: bool,
                             keyWritten: bool, luksOpened: bool, fsMounted: bool)

  /** What must succeed before the table is searched, and what only for a new mount. */
  predicate Reachable(env: OpenEnv) {
    env.root && env.pathsShort && env.imageExists
  }

  predicate Mountable(env: OpenEnv) {
    env.keyWritten && env.luksOpened && env.fsMounted
  }

  function NewVolume(id: string): Volume {
    Volume(id, "somethinigremotelygood_" + id, "./homes/" + id + "_mnt", true)
  }

  predicate Matches(v: Volume, id: string) {
    v.container == id && v.isMounted
  }

  /** The first mounted entry of an id, or the length of the table. */
  function Find(t: seq<Volume>, id: string): (i: nat)
    ensures i <= |t| && (i < |t| ==> Matches(t[i], id))
    ensures forall j :: 0 <= j < i ==> !Matches(t[j], id)
  {
    if t == [] || Matches(t[0], id) then 0 else
      var i := 1 + Find(t[1..], id);
      assert forall j :: 1 <= j < i ==> t[j] == t[1..][j - 1];
      i
  }

  lemma FindIsFirst(t: seq<Volume>, id: string, i: nat)
    requires i <= |t| && (i < |t| ==> Matches(t[i], id))
    requires forall j :: 0 <= j < i ==> !Matches(t[j], id)
    ensures Find(t, id) == i
  {
    var f := Find(t, id);
  }

  function Opened(t: seq<Volume>, id: string, env: OpenEnv): seq<Volume> {
    if Reachable(env) && Find(t, id) == |t| && Mountable(env) then t + [NewVolume(id)] else t
  }

  predicate OpenSucceeds(t: seq<Volume>, id: string, env: OpenEnv) {
    Reachable(env) && (Find(t, id) < |t| || Mountable(env))
  }

  function Closed(t: seq<Volume>, id: string): (r: seq<Volume>)
    ensures |r| == |t|
  {
    var i := Find(t, id);
    if i < |t| then t[i := t[i].(isMounted := false)] else t
  }

  /** The cleanup loop from entry i on. */
  function Sweep(t: seq<Volume>, running: string -> bool, i: nat): (r: seq<Volume>)
    requires i <= |t|
    ensures |r| == |t|
    decreases |t| - i
  {
    if i == |t| then t
    else if t[i].isMounted && !running(t[i].container) then Sweep(Closed(t, t[i].container), running, i + 1)
    else Sweep(t, running, i + 1)
  }

  // ---------------------------------------------------------------- the set the table stands for

  function Mounted(t: seq<Volume>): set<string> {
    set i | 0 <= i < |t| && t[i].isMounted :: t[i].container
  }

  /** At most one mounted entry per id. */
  predicate Unique(t: seq<Volume>) {
    forall i, j :: 0 <= i < j < |t| && t[i].isMounted && t[j].isMounted ==> t[i].container != t[j].container
  }

  /** The entry at i brings its id, which none before it has. */
  lemma MountedSnoc(t: seq<Volume>, i: nat)
    requires Unique(t) && i < |t|
    ensures Mounted(t[..i + 1]) == if t[i].isMounted then Mounted(t[..i]) + {t[i].container} else Mounted(t[..i])
    ensures t[i].isMounted ==> t[i].container !in Mounted(t[..i])
  {
    var a, b := t[..i], t[..i + 1];
    assert b == a + [t[i]];
    forall x | x in Mounted(a) ensures x in Mounted(b) {
      var k :| 0 <= k < |a| && a[k].isMounted && a[k].container == x;
      assert b[k] == a[k];
    }
    if t[i].isMounted {
      assert b[i].isMounted && b[i].container == t[i].container;
    }
  }

  lemma FindIsMember(t: seq<Volume>, id: string)
    ensures Find(t, id) < |t| <==> id in Mounted(t)
  {
  }

  /** Opening adds the id exactly when it succeeds, and otherwise changes nothing. */
  lemma OpenRefines(t: seq<Volume>, id: string, env: OpenEnv)
    requires Unique(t)
    ensures Unique(Opened(t, id, env))
    ensures Mounted(Opened(t, id, env)) == if OpenSucceeds(t, id, env) then Mounted(t) + {id} else Mounted(t)
    ensures !OpenSucceeds(t, id, env) || id in Mounted(t) ==> Opened(t, id, env) == t
  {
    FindIsMember(t, id);
    var u := Opened(t, id, env);
    if u != t {
      assert u[|t|] == NewVolume(id);
      assert forall i :: 0 <= i < |t| ==> u[i] == t[i];
      forall x ensures x in Mounted(u) <==> x in Mounted(t) + {id} {
        if x in Mounted(t) {
          var i :| 0 <= i < |t| && t[i].isMounted && t[i].container == x;
          assert u[i].isMounted && u[i].container == x;
        }
      }
    }
  }

  /** Opening, with the answers of the system spelled out. */
  lemma OpenSucceedsIff(t: seq<Volume>, id: string, env: OpenEnv)
    ensures OpenSucceeds(t, id, env)
            <==> env.root && env.pathsShort && env.imageExists
                 && (id in Mounted(t) || (env.keyWritten && env.luksOpened && env.fsMounted))
  {
    FindIsMember(t, id);
  }

  /** Closing removes exactly the id. */
  lemma CloseRefines(t: seq<Volume>, id: string)
    requires Unique(t)
    ensures Unique(Closed(t, id))
    ensures Mounted(Closed(t, id)) == Mounted(t) - {id}
  {
    FindIsMember(t, id);
    var u, k := Closed(t, id), Find(t, id);
    if k < |t| {
      forall x ensures x in Mounted(u) <==> x in Mounted(t) - {id} {
        if x in Mounted(t) && x != id {
          var i :| 0 <= i < |t| && t[i].isMounted && t[i].container == x;
          assert u[i] == t[i];
        }
        if x in Mounted(u) {
          var i :| 0 <= i < |u| && u[i].isMounted && u[i].container == x;
          assert u[i] == t[i];
        }
      }
    }
  }

  /** The table after a sweep that has dealt with the entries before i. */
  function Swept(t: seq<Volume>, running: string -> bool, i: nat): (r: seq<Volume>)
    ensures |r| == |t|
  {
    seq(|t|, k requires 0 <= k < |t| =>
      if k >= i && t[k].isMounted && !running(t[k].container) then t[k].(isMounted := false) else t[k])
  }

  /** With one mounted entry per id, closing by id in the sweep closes the entry it stands at. */
  lemma {:induction false} SweepIsPointwise(t: seq<Volume>, running: string -> bool, i: nat)
    requires Unique(t) && i <= |t|
    ensures Sweep(t, running, i) == Swept(t, running, i)
    decreases |t| - i
  {
    if i < |t| {
      if t[i].isMounted && !running(t[i].container) {
        forall j | 0 <= j < i ensures !Matches(t[j], t[i].container) {
        }
        FindIsFirst(t, t[i].container, i);
        CloseRefines(t, t[i].container);
        SweepIsPointwise(Closed(t, t[i].container), running, i + 1);
      } else {
        SweepIsPointwise(t, running, i + 1);
      }
    }
  }

  /** A sweep leaves exactly the running containers mounted. */
  lemma SweepRefines(t: seq<Volume>, running: string -> bool)
    requires Unique(t)
    ensures Unique(Sweep(t, running, 0))
    ensures Mounted(Sweep(t, running, 0)) == set id | id in Mounted(t) && running(id)
  {
    SweepIsPointwise(t, running, 0);
    var u := Swept(t, running, 0);
    forall x ensures x in Mounted(u) <==> x in Mounted(t) && running(x) {
      if x in Mounted(t) && running(x) {
        var i :| 0 <= i < |t| && t[i].isMounted && t[i].container == x;
        assert u[i] == t[i];
      }
      if x in Mounted(u) {
        var i :| 0 <= i < |u| && u[i].isMounted && u[i].container == x;
        assert u[i] == t[i];
      }
    }
  }

  // ---------------------------------------------------------------- runs

  datatype Op =
    | Open(id: string, env: OpenEnv)
    | Close(id: string)
    | CleanupAll
    | CleanupStopped(running: string -> bool)
    | SetProvisioning(active: bool)

  datatype Table = Table(entries: seq<Volume>, provisioning: bool)

  function Apply(t: Table, op: Op): Table {
    match op
    case Open(id, env) => t.(entries := Opened(t.entries, id, env))
    case Close(id) => t.(entries := Closed(t.entries, id))
    case CleanupAll => t.(entries := [])
    case CleanupStopped(running) => if t.provisioning then t else t.(entries := Sweep(t.entries, running, 0))
    case SetProvisioning(active) => t.(provisioning := active)
  }

  function ApplyAll(t: Table, ops: seq<Op>): Table {
    if ops == [] then t else Apply(ApplyAll(t, ops[..|ops| - 1]), ops[|ops| - 1])
  }

  /** The same operations on a plain set of ids. */
  datatype Ids = Ids(ids: set<string>, provisioning: bool)

  function ApplySet(s: Ids, op: Op): Ids {
    match op
    case Open(id, env) =>
      if Reachable(env) && (id in s.ids || Mountable(env)) then s.(ids := s.ids + {id}) else s
    case Close(id) => s.(ids := s.ids - {id})
    case CleanupAll => s.(ids := {})
    case CleanupStopped(running) =>
      if s.provisioning then s else s.(ids := set id | id in s.ids && running(id))
    case SetProvisioning(active) => s.(provisioning := active)
  }

  function ApplySetAll(s: Ids, ops: seq<Op>): Ids {
    if ops == [] then s else ApplySet(ApplySetAll(s, ops[..|ops| - 1]), ops[|ops| - 1])
  }

  function Abstract(t: Table): Ids {
    Ids(Mounted(t.entries), t.provisioning)
  }

  lemma StepRefines(t: Table, op: Op)
    requires Unique(t.entries)
    ensures Unique(Apply(t, op).entries)
    ensures Abstract(Apply(t, op)) == ApplySet(Abstract(t), op)
  {
    match op
    case Open(id, env) =>
      FindIsMember(t.entries, id);
      OpenRefines(t.entries, id, env);
    case Close(id) => CloseRefines(t.entries, id);
    case CleanupAll =>
    case CleanupStopped(running) => SweepRefines(t.entries, running);
    case SetProvisioning(active) =>
  }

  /** Every entry was made for its id: where it is mounted and its mapper carry the id's name. */
  predicate Named(t: seq<Volume>) {
    forall i :: 0 <= i < |t| ==>
      t[i].mountPoint == "./homes/" + t[i].container + "_mnt"
      && t[i].mapper == "somethinigremotelygood_" + t[i].container
  }

  lemma NameOf(t: seq<Volume>, i: nat, id: string)
    requires Named(t) && i < |t| && Matches(t[i], id)
    ensures t[i].mountPoint == "./homes/" + id + "_mnt"
  {
  }

  lemma ClosedNamed(t: seq<Volume>, id: string)
    requires Named(t)
    ensures Named(Closed(t, id))
  {
  }

  lemma {:induction false} SweptNamed(t: seq<Volume>, running: string -> bool, i: nat)
    requires Named(t) && i <= |t|
    ensures Named(Sweep(t, running, i))
    decreases |t| - i
  {
    if i < |t| {
      ClosedNamed(t, t[i].container);
      hide Named, Closed;
      if t[i].isMounted && !running(t[i].container) {
        SweptNamed(Closed(t, t[i].container), running, i + 1);
      } else {
        SweptNamed(t, running, i + 1);
      }
    }
  }

  lemma StepNamed(t: Table, op: Op)
    requires Named(t.entries)
    ensures Named(Apply(t, op).entries)
  {
    match op
    case Open(id, env) =>
    case Close(id) => ClosedNamed(t.entries, id);
    case CleanupAll =>
    case CleanupStopped(running) => SweptNamed(t.entries, running, 0);
    case SetProvisioning(active) =>
  }

  /**
   From the empty table, every run of operations is a run on the set, with no id mounted
   twice and every entry named for its id.
   */
  lemma {:induction false} RunRefines(ops: seq<Op>)
    ensures Unique(ApplyAll(Table([], false), ops).entries)
    ensures Abstract(ApplyAll(Table([], false), ops)) == ApplySetAll(Ids({}, false), ops)
    ensures Named(ApplyAll(Table([], false), ops).entries)
  {
    if ops != [] {
      var n := |ops| - 1;
      RunRefines(ops[..n]);
      hide Unique, Apply, ApplySet, Mounted, Named;
      StepRefines(ApplyAll(Table([], false), ops[..n]), ops[n]);
      StepNamed(ApplyAll(Table([], false), ops[..n]), ops[n]);
    }
  }

  /** After a cleanup outside provisioning, only running containers are mounted. */
  lemma OnlyRunningRemain(ops: seq<Op>, running: string -> bool)
    requires !ApplyAll(Table([], false), ops).provisioning
    ensures forall id :: id in Mounted(ApplyAll(Table([], false), ops + [CleanupStopped(running)]).entries)
                     <==> id in Mounted(ApplyAll(Table([], false), ops).entries) && running(id)
  {
    var all := ops + [CleanupStopped(running)];
    assert all[..|ops|] == ops;
    RunRefines(ops);
    SweepRefines(ApplyAll(Table([], false), ops).entries, running);
  }

  // ---------------------------------------------------------------- the capacity

  function Doubled(k: nat): nat {
    if k == 0 then 4 else 2 * Doubled(k - 1)
  }

  /** No memory for an empty table, otherwise the least 4 * 2^k that holds the entries. */
  ghost predicate Fits(capacity: nat, count: nat) {
    if count == 0 then capacity == 0
    else exists k: nat :: capacity == Doubled(k) && count <= capacity && (k > 0 ==> Doubled(k - 1) < count)
  }

  /** Doubling when full keeps the capacity the least that fits. */
  lemma GrowFits(capacity: nat, count: nat)
    requires Fits(capacity, count)
    ensures var grown := if count >= capacity then if capacity != 0 then capacity * 2 else 4 else capacity;
            Fits(grown, count + 1)
  {
    if count == 0 {
      assert Doubled(0) == 4;
    } else {
      var k: nat :| capacity == Doubled(k) && count <= capacity && (k > 0 ==> Doubled(k - 1) < count);
      if count >= capacity {
        assert Doubled(k + 1) == capacity * 2 && Doubled(k) < count + 1;
      }
    }
  }
}
