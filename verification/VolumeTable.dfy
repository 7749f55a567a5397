/** The growable array of mounted homes, updated in place. */
module VolumeTable {
  import opened VolumeSpec

  class Volumes {
    var mounted: array<Volume>
    var count: nat
    var provisioning: bool

    ghost predicate Valid()
      reads this, mounted
    {
      count <= mounted.Length && Fits(mounted.Length, count) && Unique(mounted[..count]) && Named(mounted[..count])
    }

    ghost function Contents(): Table
      reads this, mounted
      requires count <= mounted.Length
    {
      Table(mounted[..count], provisioning)
    }

    constructor ()
      ensures Valid() && fresh(mounted) && Contents() == Table([], false)
    {
      mounted := new Volume[0];
      count := 0;
      provisioning := false;
    }

    method SetActive(active: bool)
      requires Valid()
      modifies this`provisioning
      ensures Valid() && Contents() == Apply(old(Contents()), SetProvisioning(active))
    {
      provisioning := active;
    }

    /** Doubles the array when it is full, keeping its entries. */
    method Reserve()
      requires Valid()
      modifies this`mounted
      ensures count < mounted.Length && Fits(mounted.Length, count + 1)
      ensures mounted[..count] == old(mounted[..count])
      ensures mounted == old(mounted) || fresh(mounted)
    {
      GrowFits(mounted.Length, count);
      if count >= mounted.Length {
        var capacity := if mounted.Length != 0 then mounted.Length * 2 else 4;
        var grown := new Volume[capacity](_ => Volume("", "", "", false));
        forall i | 0 <= i < count {
          grown[i] := mounted[i];
        }
        mounted := grown;
      }
    }

    /** Adds an entry behind the others. */
    method Append(v: Volume)
      requires Valid()
      modifies this`mounted, this`count, mounted
      ensures count <= mounted.Length && Fits(mounted.Length, count)
      ensures mounted[..count] == old(mounted[..count]) + [v]
      ensures mounted == old(mounted) || fresh(mounted)
    {
      ghost var before := mounted[..count];
      Reserve();
      hide Fits, Unique, Named;
      mounted[count] := v;
      count := count + 1;
      assert mounted[..count] == before + [v];
    }

    /** volume_open_encrypted_home. */
    method OpenHome(id: string, env: OpenEnv) returns (ok: bool, mountPoint: string)
      requires Valid()
      modifies this, mounted
      ensures Valid() && (mounted == old(mounted) || fresh(mounted))
      ensures Contents() == Apply(old(Contents()), Open(id, env))
      ensures ok <==> OpenSucceeds(old(Contents()).entries, id, env)
      ensures ok ==> id in Mounted(Contents().entries) && mountPoint == "./homes/" + id + "_mnt"
    {
      ghost var before := mounted[..count];
      OpenRefines(before, id, env);
      StepNamed(Table(before, provisioning), Open(id, env));
      hide Unique, Mounted, Fits, Named;
      if !env.root || !env.pathsShort || !env.imageExists {
        return false, "";
      }
      var i := 0;
      while i < count
        invariant 0 <= i <= count
        invariant forall j :: 0 <= j < i ==> !Matches(before[j], id)
      {
        if mounted[i].container == id && mounted[i].isMounted {
          FindIsFirst(before, id, i);
          NameOf(before, i, id);
          return true, mounted[i].mountPoint;
        }
        i := i + 1;
      }
      FindIsFirst(before, id, |before|);
      if !env.keyWritten || !env.luksOpened || !env.fsMounted {
        return false, "";
      }
      Append(NewVolume(id));
      return true, NewVolume(id).mountPoint;
    }

    /** volume_close_encrypted_home. */
    method CloseHome(id: string) returns (ok: bool)
      requires Valid()
      modifies mounted
      ensures Valid() && Contents() == Apply(old(Contents()), Close(id))
      ensures ok <==> id in Mounted(old(Contents()).entries)
    {
      ghost var before := mounted[..count];
      FindIsMember(before, id);
      CloseRefines(before, id);
      ClosedNamed(before, id);
      hide Unique, Mounted, Fits, Named;
      var i := 0;
      while i < count
        invariant 0 <= i <= count
        invariant mounted[..count] == before
        invariant forall j :: 0 <= j < i ==> !Matches(before[j], id)
      {
        if mounted[i].container == id && mounted[i].isMounted {
          FindIsFirst(before, id, i);
          mounted[i] := mounted[i].(isMounted := false);
          assert mounted[..count] == Closed(before, id);
          return true;
        }
        i := i + 1;
      }
      FindIsFirst(before, id, |before|);
      return false;
    }

    /** volume_cleanup_all: unmounts every entry, then frees the table. */
    method CleanupEverything() returns (closed: seq<string>)
      requires Valid()
      modifies this, mounted
      ensures Valid() && fresh(mounted) && Contents() == Apply(old(Contents()), CleanupAll)
      ensures forall id :: id in closed <==> id in Mounted(old(Contents()).entries)
      ensures forall i, j :: 0 <= i < j < |closed| ==> closed[i] != closed[j]
    {
      ghost var before := mounted[..count];
      closed := [];
      var i := 0;
      while i < count
        invariant mounted == old(mounted) && provisioning == old(provisioning)
        invariant 0 <= i <= count && count == |before| <= mounted.Length
        invariant forall j :: i <= j < count ==> mounted[j] == before[j]
        invariant forall id :: id in closed <==> id in Mounted(before[..i])
        invariant forall j, k :: 0 <= j < k < |closed| ==> closed[j] != closed[k]
      {
        MountedSnoc(before, i);
        if mounted[i].isMounted {
          closed := closed + [mounted[i].container];
          mounted[i] := mounted[i].(isMounted := false);
        }
        i := i + 1;
      }
      assert before[..count] == before;
      mounted := new Volume[0];
      count := 0;
    }

    /** volume_cleanup_stopped_containers. */
    method CleanupStoppedContainers(running: string -> bool)
      requires Valid()
      modifies mounted
      ensures Valid() && Contents() == Apply(old(Contents()), CleanupStopped(running))
    {
      if provisioning {
        return;
      }
      ghost var before := mounted[..count];
      var i := 0;
      while i < count
        invariant 0 <= i <= count
        invariant Valid()
        invariant Sweep(mounted[..count], running, i) == Sweep(before, running, 0)
      {
        hide Unique, Fits, Named;
        if mounted[i].isMounted {
          if !running(mounted[i].container) {
            var ok := CloseHome(mounted[i].container);
          }
        }
        i := i + 1;
      }
    }
  }
}
