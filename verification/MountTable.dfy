/**
  The file system's fixed tables (`kernel/filesystem.cpp`) searched and
  changed in place, tied to the operations of `Mounts`.
 */
module MountTable {
  import opened Options
  import opened CText
  import opened Words
  import opened Mounts

  class FileSystem {
    const mountPoints: array<MountPoint>
    const inodes: array<Inode>

    ghost predicate Valid()
      reads this
    {
      mountPoints.Length == 16 && inodes.Length < 0xFFFF_FFFF && mountPoints as object != inodes as object
    }

    constructor (mountPoints: array<MountPoint>, inodes: array<Inode>)
      requires mountPoints.Length == 16 && inodes.Length < 0xFFFF_FFFF
      requires mountPoints as object != inodes as object
      ensures Valid() && this.mountPoints == mountPoints && this.inodes == inodes
    {
      this.mountPoints, this.inodes := mountPoints, inodes;
    }

    /** The two pages `init` takes from the allocator are not modelled: the tables exist. */
    method Init()
      requires Valid()
      modifies mountPoints
      ensures forall i: Slot :: mountPoints[i] == old(mountPoints[i]).(mounted := false)
      ensures Entries(mountPoints[..]) == multiset{}
    {
      for i := 0 to 16
        invariant forall j: Slot ::
          mountPoints[j] == if j < i then old(mountPoints[j]).(mounted := false) else old(mountPoints[j])
      {
        mountPoints[i] := mountPoints[i].(mounted := false);
      }
      NothingMounted(mountPoints[..]);
    }

    /** The arguments are read up to their first NUL. */
    method Mount(device: seq<CChar>, mountPoint: seq<CChar>) returns (ok: bool)
      requires Valid()
      modifies mountPoints
      ensures mountPoints[..] == Mounts.Mount(old(mountPoints[..]), CString(device), CString(mountPoint)).0
      ensures ok == Mounts.Mount(old(mountPoints[..]), CString(device), CString(mountPoint)).1
    {
      for i := 0 to 16
        invariant mountPoints[..] == old(mountPoints[..])
        invariant FindFree(mountPoints[..]) == FindFreeFrom(mountPoints[..], i)
      {
        if !mountPoints[i].mounted {
          mountPoints[i] := mountPoints[i].(device := StrNCopy(mountPoints[i].device, CString(device)));
          mountPoints[i] := mountPoints[i].(path := StrNCopy(mountPoints[i].path, CString(mountPoint)));
          mountPoints[i] := mountPoints[i].(mounted := true);
          return true;
        }
      }
      return false;
    }

    method Unmount(mountPoint: seq<CChar>) returns (ok: bool)
      requires Valid()
      modifies mountPoints
      ensures mountPoints[..] == Mounts.Unmount(old(mountPoints[..]), CString(mountPoint)).0
      ensures ok == Mounts.Unmount(old(mountPoints[..]), CString(mountPoint)).1
    {
      for i := 0 to 16
        invariant mountPoints[..] == old(mountPoints[..])
        invariant FindPath(mountPoints[..], CString(mountPoint)) == FindPathFrom(mountPoints[..], CString(mountPoint), i)
      {
        if mountPoints[i].mounted && CString(mountPoints[i].path) == CString(mountPoint) {
          mountPoints[i] := mountPoints[i].(mounted := false);
          return true;
        }
      }
      return false;
    }

    /** 0xFFFFFFFF when every inode is taken. */
    method FindFreeInode() returns (inode: Word)
      requires Valid()
      ensures match FindInodeFrom(inodes[..], 0)
              case None => inode == 0xFFFF_FFFF
              case Some(i) => inode == i
    {
      for i := 0 to inodes.Length
        invariant FindInodeFrom(inodes[..], 0) == FindInodeFrom(inodes[..], i)
      {
        if inodes[i].kind == 0 {
          return i;
        }
      }
      return 0xFFFF_FFFF;
    }

    method CreateFile(kind: Word, permissions: Word) returns (ok: bool)
      requires Valid()
      modifies inodes
      ensures inodes[..] == Mounts.CreateFile(old(inodes[..]), kind, permissions).0
      ensures ok == Mounts.CreateFile(old(inodes[..]), kind, permissions).1
      ensures (forall i :: 0 <= i < inodes.Length ==> old(inodes[i]).kind != 0) ==> !ok && inodes[..] == old(inodes[..])
      ensures forall i | 0 <= i < inodes.Length && IsFirstFree(old(inodes[..]), i) ::
        && ok && inodes[i].size == 0 && inodes[i].kind == kind && inodes[i].permissions == permissions
        && (forall b :: 0 <= b < 16 ==> inodes[i].blocks[b] == 0)
        && forall j :: 0 <= j < inodes.Length && j != i ==> inodes[j] == old(inodes[j])
    {
      var inode := FindFreeInode();
      if inode == 0xFFFF_FFFF {
        return false;
      }
      var blocks := inodes[inode].blocks;
      inodes[inode] := inodes[inode].(size := 0, kind := kind, permissions := permissions);
      for i := 0 to 16
        invariant forall j :: 0 <= j < i ==> blocks[j] == 0
      {
        blocks := blocks[i := 0];
      }
      inodes[inode] := inodes[inode].(blocks := blocks);
      assert inodes[inode] == NewInode(kind, permissions);
      return true;
    }
  }

  lemma {:induction false} NothingMounted(t: seq<MountPoint>)
    requires forall i :: 0 <= i < |t| ==> !t[i].mounted
    ensures Entries(t) == multiset{}
  {
    if t != [] {
      NothingMounted(t[1..]);
    }
  }
}
