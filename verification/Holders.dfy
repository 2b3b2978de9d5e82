/** Who holds a lockfile (src/flock.rs): the mount table gives the device, the lock table the pids. */
module Holders {
  import opened Text
  import LockTable
  import MountTable

  datatype Lookup = Pids(pids: seq<nat>) | StatFailed | NoCoveringMount | LocksUnreadable

  /** The path whose mount is looked up: canonical when canonicalising works, else as given. */
  function Resolved(path: string, canonical: Option<string>): (p: string) {
    if canonical.Some? then canonical.value else path
  }

  ghost predicate SomeCovers(mounts: seq<MountTable.Mount>, path: string) {
    exists i: nat :: i < |mounts| && MountTable.Covers(mounts[i], path)
  }

  /** The lookup over rendered mount and lock tables. `inode` is the outcome of stat, `canonical` that of
      canonicalising the path, `locks` that of reading the lock table. The pids are exactly the processes
      with a granted flock on that inode of the device of the deepest mount covering the path, each once;
      each error has its one cause, in the order of the calls. */
  method ReadHolders(mounts: seq<MountTable.Mount>, locks: Option<seq<LockTable.Lock>>, path: string,
                     inode: Option<nat>, canonical: Option<string>) returns (r: Lookup, ghost best: nat)
    requires forall i | 0 <= i < |mounts| :: MountTable.Printable(mounts[i])
    requires locks.Some? ==> LockTable.AllPrintable(locks.value)
    ensures r.StatFailed? <==> inode.None?
    ensures r.NoCoveringMount? <==> inode.Some? && !SomeCovers(mounts, Resolved(path, canonical))
    ensures r.LocksUnreadable? <==> inode.Some? && SomeCovers(mounts, Resolved(path, canonical)) && locks.None?
    ensures r.Pids? ==>
              && locks.Some? && inode.Some? && MountTable.IsDeepest(mounts, Resolved(path, canonical), best)
              && LockTable.FirstAppearances(r.pids,
                   LockTable.Shown(locks.value, mounts[best].major, mounts[best].minor, inode.value))
              && (forall pid: nat :: pid in r.pids <==>
                    exists i :: 0 <= i < |locks.value|
                      && LockTable.Holds(locks.value[i], pid, mounts[best].major, mounts[best].minor, inode.value))
  {
    best := 0;
    if inode.None? {
      return StatFailed, best;
    }
    var device;
    device, best := MountTable.DeviceOfPath(mounts, Resolved(path, canonical));
    if device.None? {
      return NoCoveringMount, best;
    }
    if locks.None? {
      return LocksUnreadable, best;
    }
    var pids := LockTable.HoldersOf(locks.value, device.value.0, device.value.1, inode.value);
    r := Pids(pids);
  }
}
