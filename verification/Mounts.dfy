/**
  The mount table and the inode table of `kernel/filesystem.cpp`.  Names are
  fixed 32-byte buffers filled by `strncpy(..., 31)` and compared by `strcmp`.
 */
module Mounts {
  import opened Options
  import opened CText
  import opened Words

  type Name = s: seq<CChar> | |s| == 32 ghost witness seq(32, _ => 0)
  type Slot = i: nat | i < 16

  datatype MountPoint = MountPoint(device: Name, path: Name, mounted: bool)

  type Table = s: seq<MountPoint> | |s| == 16
    ghost witness seq(16, _ => MountPoint(seq(32, _ => 0), seq(32, _ => 0), false))

  /** A C string has no NUL inside. */
  ghost predicate IsCString(s: seq<CChar>)
  {
    forall i :: 0 <= i < |s| ==> s[i] != 0
  }

  /** The part of a name that fits. */
  function Truncated(s: seq<CChar>): seq<CChar>
  {
    if |s| <= 31 then s else s[..31]
  }

  /** `strncpy(dst, src, 31)`: padded with NULs, byte 31 left alone. */
  function StrNCopy(dst: Name, src: seq<CChar>): Name
  {
    seq(32, i requires 0 <= i < 32 => if i == 31 then dst[31] else if i < |src| then src[i] else 0)
  }

  lemma CopyReadsBack(dst: Name, src: seq<CChar>)
    requires IsCString(src) && dst[31] == 0
    ensures CString(StrNCopy(dst, src)) == Truncated(src)
    ensures StrNCopy(dst, src)[31] == 0
  {
    var t := Truncated(src);
    assert StrNCopy(dst, src) == t + [0] + seq(31 - |t|, _ => 0);
    CStringStops(t, seq(31 - |t|, _ => 0));
  }

  lemma {:induction false} CStringLength(s: seq<CChar>, n: nat)
    requires n < |s| && s[n] == 0
    ensures |CString(s)| <= n
  {
    if n > 0 && s[0] != 0 {
      CStringLength(s[1..], n - 1);
    }
  }

  // ------------------------------------------------------------- searches ---

  function FindFreeFrom(t: Table, from: nat): (r: Option<Slot>)
    requires from <= 16
    ensures r.None? <==> forall i: Slot :: from <= i ==> t[i].mounted
    ensures r.Some? ==> from <= r.value && !t[r.value].mounted
    ensures r.Some? ==> forall i: Slot :: from <= i < r.value ==> t[i].mounted
    decreases 16 - from
  {
    if from == 16 then None else if !t[from].mounted then Some(from) else FindFreeFrom(t, from + 1)
  }

  function FindFree(t: Table): (r: Option<Slot>)
    ensures r.None? <==> forall i: Slot :: t[i].mounted
    ensures r.Some? ==> !t[r.value].mounted && forall i: Slot :: i < r.value ==> t[i].mounted
  {
    FindFreeFrom(t, 0)
  }

  predicate MountedAt(p: MountPoint, path: seq<CChar>)
  {
    p.mounted && CString(p.path) == path
  }

  function FindPathFrom(t: Table, path: seq<CChar>, from: nat): (r: Option<Slot>)
    requires from <= 16
    ensures r.None? <==> forall i: Slot :: from <= i ==> !MountedAt(t[i], path)
    ensures r.Some? ==> from <= r.value && MountedAt(t[r.value], path)
    ensures r.Some? ==> forall i: Slot :: from <= i < r.value ==> !MountedAt(t[i], path)
    decreases 16 - from
  {
    if from == 16 then None else if MountedAt(t[from], path) then Some(from) else FindPathFrom(t, path, from + 1)
  }

  function FindPath(t: Table, path: seq<CChar>): (r: Option<Slot>)
    ensures r.None? <==> forall i: Slot :: !MountedAt(t[i], path)
    ensures r.Some? ==> MountedAt(t[r.value], path) && forall i: Slot :: i < r.value ==> !MountedAt(t[i], path)
  {
    FindPathFrom(t, path, 0)
  }

  // ----------------------------------------------------------- operations ---

  function Occupied(p: MountPoint, device: seq<CChar>, path: seq<CChar>): MountPoint
  {
    MountPoint(StrNCopy(p.device, device), StrNCopy(p.path, path), true)
  }

  function Mount(t: Table, device: seq<CChar>, path: seq<CChar>): (Table, bool)
  {
    match FindFree(t)
    case None => (t, false)
    case Some(i) => (t[i := Occupied(t[i], device, path)], true)
  }

  function Unmount(t: Table, path: seq<CChar>): (Table, bool)
  {
    match FindPath(t, path)
    case None => (t, false)
    case Some(i) => (t[i := t[i].(mounted := false)], true)
  }

  /** A name copied over another: 31 bytes written, padded with NULs, byte 31 as it was. */
  ghost predicate CopiedOver(was: Name, now: Name, src: seq<CChar>)
  {
    && (forall i :: 0 <= i < 31 ==> now[i] == if i < |src| then src[i] else 0)
    && now[31] == was[31]
  }

  /** The lowest free slot takes the names; nothing else changes, and nothing at all if none is free. */
  ghost predicate MountsFirst(t: Table, t': Table, device: seq<CChar>, path: seq<CChar>, ok: bool)
  {
    && ((forall i: Slot :: t[i].mounted) ==> !ok && t' == t)
    && (forall i: Slot :: !t[i].mounted && (forall j: Slot :: j < i ==> t[j].mounted) ==>
          && ok && t'[i].mounted
          && CopiedOver(t[i].device, t'[i].device, device) && CopiedOver(t[i].path, t'[i].path, path)
          && forall j: Slot :: j != i ==> t'[j] == t[j])
  }

  /** The lowest slot mounted at the path is given up, its names kept; nothing else changes. */
  ghost predicate UnmountsFirst(t: Table, t': Table, path: seq<CChar>, ok: bool)
  {
    && ((forall i: Slot :: !MountedAt(t[i], path)) ==> !ok && t' == t)
    && (forall i: Slot :: MountedAt(t[i], path) && (forall j: Slot :: j < i ==> !MountedAt(t[j], path)) ==>
          ok && forall j: Slot :: t'[j] == t[j].(mounted := if j == i then false else t[j].mounted))
  }

  lemma CopyEffect(dst: Name, src: seq<CChar>)
    ensures CopiedOver(dst, StrNCopy(dst, src), src)
  {
  }

  lemma FirstFreeIsFound(t: Table, i: Slot)
    requires !t[i].mounted && forall j: Slot :: j < i ==> t[j].mounted
    ensures FindFree(t) == Some(i)
  {
    assert FindFree(t).Some?;
  }

  lemma MountEffect(t: Table, device: seq<CChar>, path: seq<CChar>)
    ensures MountsFirst(t, Mount(t, device, path).0, device, path, Mount(t, device, path).1)
  {
    forall i: Slot | !t[i].mounted && forall j: Slot :: j < i ==> t[j].mounted
      ensures var (t', ok) := Mount(t, device, path);
        && ok && t'[i].mounted
        && CopiedOver(t[i].device, t'[i].device, device) && CopiedOver(t[i].path, t'[i].path, path)
        && forall j: Slot :: j != i ==> t'[j] == t[j]
    {
      FirstFreeIsFound(t, i);
      CopyEffect(t[i].device, device);
      CopyEffect(t[i].path, path);
    }
  }

  lemma UnmountEffect(t: Table, path: seq<CChar>)
    ensures UnmountsFirst(t, Unmount(t, path).0, path, Unmount(t, path).1)
  {
    forall i: Slot | MountedAt(t[i], path) && forall j: Slot :: j < i ==> !MountedAt(t[j], path)
      ensures FindPath(t, path) == Some(i)
    {
      assert FindPath(t, path).Some?;
    }
  }

  datatype Op = OpMount(device: seq<CChar>, path: seq<CChar>) | OpUnmount(path: seq<CChar>)

  function Step(t: Table, op: Op): Table
  {
    match op
    case OpMount(device, path) => Mount(t, device, path).0
    case OpUnmount(path) => Unmount(t, path).0
  }

  function Run(t: Table, ops: seq<Op>): Table
  {
    if ops == [] then t else Step(Run(t, ops[..|ops| - 1]), ops[|ops| - 1])
  }

  /** The table in zero-initialised storage. */
  function Empty(): Table
  {
    seq(16, _ => MountPoint(seq(32, _ => 0), seq(32, _ => 0), false))
  }

  /** Every name ends in a NUL at the latest in byte 31. */
  ghost predicate NamesEnd(t: Table)
  {
    forall i: Slot :: t[i].device[31] == 0 && t[i].path[31] == 0
  }

  lemma {:induction false} NamesAlwaysEnd(ops: seq<Op>)
    ensures NamesEnd(Run(Empty(), ops))
  {
    if ops != [] {
      NamesAlwaysEnd(ops[..|ops| - 1]);
    }
  }

  /** A slot that is taken again holds exactly the new names: no byte of the old ones survives. */
  lemma ReusedSlotHasNoStaleBytes(t: Table, device: seq<CChar>, path: seq<CChar>)
    requires NamesEnd(t) && FindFree(t).Some?
    ensures var p := Mount(t, device, path).0[FindFree(t).value];
      p == Occupied(Empty()[0], device, path)
  {
    var i := FindFree(t).value;
    assert StrNCopy(t[i].device, device) == StrNCopy(Empty()[0].device, device);
    assert StrNCopy(t[i].path, path) == StrNCopy(Empty()[0].path, path);
  }

  // ---------------------------------------------- the collection of mounts ---

  datatype Entry = Entry(device: seq<CChar>, path: seq<CChar>)

  function EntryOf(p: MountPoint): multiset<Entry>
  {
    if p.mounted then multiset{Entry(CString(p.device), CString(p.path))} else multiset{}
  }

  function Entries(t: seq<MountPoint>): multiset<Entry>
  {
    if t == [] then multiset{} else EntryOf(t[0]) + Entries(t[1..])
  }

  lemma {:induction false} EntryCounts(t: seq<MountPoint>, i: nat, p: MountPoint, e: Entry)
    requires i < |t|
    ensures Entries(t[i := p])[e] + EntryOf(t[i])[e] == Entries(t)[e] + EntryOf(p)[e]
  {
    var t' := t[i := p];
    assert Entries(t')[e] == EntryOf(t'[0])[e] + Entries(t'[1..])[e];
    assert Entries(t)[e] == EntryOf(t[0])[e] + Entries(t[1..])[e];
    if i > 0 {
      EntryCounts(t[1..], i - 1, p, e);
      assert t'[1..] == t[1..][i - 1 := p];
    } else {
      assert t'[1..] == t[1..];
    }
  }

  /** Changing one slot exchanges its entry in the collection. */
  lemma EntriesUpdate(t: seq<MountPoint>, i: nat, p: MountPoint)
    requires i < |t|
    ensures Entries(t[i := p]) + EntryOf(t[i]) == Entries(t) + EntryOf(p)
  {
    forall e: Entry
      ensures (Entries(t[i := p]) + EntryOf(t[i]))[e] == (Entries(t) + EntryOf(p))[e]
    {
      EntryCounts(t, i, p, e);
    }
  }

  lemma {:induction false} EntriesSize(t: seq<MountPoint>)
    ensures |Entries(t)| <= |t|
    ensures |Entries(t)| == |t| <==> forall i :: 0 <= i < |t| ==> t[i].mounted
  {
    if t != [] {
      EntriesSize(t[1..]);
      assert (forall i :: 0 <= i < |t| ==> t[i].mounted)
        <==> t[0].mounted && (forall i :: 0 <= i < |t[1..]| ==> t[1..][i].mounted);
    }
  }

  lemma {:induction false} EntriesMembers(t: seq<MountPoint>, e: Entry)
    ensures e in Entries(t) <==> exists i :: 0 <= i < |t| && t[i].mounted && e == Entry(CString(t[i].device), CString(t[i].path))
  {
    if t != [] {
      EntriesMembers(t[1..], e);
      if i :| 0 <= i < |t[1..]| && t[1..][i].mounted && e == Entry(CString(t[1..][i].device), CString(t[1..][i].path)) {
        assert t[i + 1] == t[1..][i];
      }
      if i :| 0 < i < |t| && t[i].mounted && e == Entry(CString(t[i].device), CString(t[i].path)) {
        assert t[1..][i - 1] == t[i];
      }
    }
  }

  /** Mounting succeeds exactly below 16 mounts and adds one entry, its names cut to 31 characters. */
  lemma MountAddsEntry(t: Table, device: seq<CChar>, path: seq<CChar>)
    requires NamesEnd(t) && IsCString(device) && IsCString(path)
    ensures Mount(t, device, path).1 <==> |Entries(t)| < 16
    ensures Mount(t, device, path).1 ==>
      Entries(Mount(t, device, path).0) == Entries(t) + multiset{Entry(Truncated(device), Truncated(path))}
  {
    EntriesSize(t);
    if FindFree(t).Some? {
      var i := FindFree(t).value;
      EntriesUpdate(t, i, Occupied(t[i], device, path));
      CopyReadsBack(t[i].device, device);
      CopyReadsBack(t[i].path, path);
    }
  }

  /** Unmounting succeeds exactly when the path is mounted and removes one entry for it. */
  lemma UnmountRemovesEntry(t: Table, path: seq<CChar>)
    ensures Unmount(t, path).1 <==> exists device :: Entry(device, path) in Entries(t)
    ensures Unmount(t, path).1 ==>
      exists device :: Entries(t) == Entries(Unmount(t, path).0) + multiset{Entry(device, path)}
  {
    var found := FindPath(t, path);
    if found.Some? {
      var i := found.value;
      EntriesUpdate(t, i, t[i].(mounted := false));
      var e := Entry(CString(t[i].device), path);
      assert Entries(t) == Entries(Unmount(t, path).0) + multiset{e};
      assert e in Entries(t);
    } else {
      forall device
        ensures Entry(device, path) !in Entries(t)
      {
        EntriesMembers(t, Entry(device, path));
      }
    }
  }

  /** A path that does not fit is never mounted under its own name. */
  lemma LongPathIsNeverMounted(t: Table, path: seq<CChar>)
    requires NamesEnd(t) && |path| > 31
    ensures FindPath(t, path).None?
  {
    forall i: Slot
      ensures !MountedAt(t[i], path)
    {
      CStringLength(t[i].path, 31);
    }
  }

  /**
    With a slot free, unmounting a path just mounted succeeds exactly when the
    path has at most 31 characters; if it was not mounted before, that
    restores the collection of mounts.
   */
  lemma UnmountUndoesMountIff(t: Table, device: seq<CChar>, path: seq<CChar>)
    requires NamesEnd(t) && IsCString(device) && IsCString(path) && FindFree(t).Some?
    ensures Unmount(Mount(t, device, path).0, path).1 <==> |path| <= 31
    ensures |path| <= 31 && FindPath(t, path).None? ==>
      Entries(Unmount(Mount(t, device, path).0, path).0) == Entries(t)
    ensures |path| > 31 ==> Unmount(Mount(t, device, path).0, path).0 == Mount(t, device, path).0
  {
    var i := FindFree(t).value;
    CopyReadsBack(t[i].device, device);
    CopyReadsBack(t[i].path, path);
    var t1 := Mount(t, device, path).0;
    if |path| > 31 {
      LongPathIsNeverMounted(t1, path);
    } else {
      assert MountedAt(t1[i], path);
      if FindPath(t, path).None? {
        NewMountIsFound(t, t1, i, path);
        MountThenUnmountEntries(t, i, t1[i]);
      }
    }
  }

  lemma NewMountIsFound(t: Table, t1: Table, i: Slot, path: seq<CChar>)
    requires t1 == t[i := t1[i]] && MountedAt(t1[i], path) && FindPath(t, path).None?
    ensures FindPath(t1, path) == Some(i)
  {
    assert forall j: Slot :: j != i ==> t1[j] == t[j];
  }

  lemma MountThenUnmountEntries(t: Table, i: Slot, p: MountPoint)
    requires !t[i].mounted
    ensures Entries(t[i := p][i := p.(mounted := false)]) == Entries(t)
  {
    var q := p.(mounted := false);
    EntriesUpdate(t, i, q);
    assert EntryOf(t[i]) == multiset{} && EntryOf(q) == multiset{};
    assert Entries(t[i := q]) + multiset{} == Entries(t[i := q]) && Entries(t) + multiset{} == Entries(t);
    assert t[i := p][i := q] == t[i := q];
  }

  // ------------------------------------------------------------------ inodes ---

  type Blocks = s: seq<Word> | |s| == 16 ghost witness seq(16, _ => 0)

  datatype Inode = Inode(size: Word, blocks: Blocks, permissions: Word, kind: Word)

  function FreeInodes(inodes: seq<Inode>): set<nat>
  {
    set i: nat | i < |inodes| && inodes[i].kind == 0
  }

  function FindInodeFrom(inodes: seq<Inode>, from: nat): (r: Option<nat>)
    requires from <= |inodes|
    ensures r.None? <==> forall i :: from <= i < |inodes| ==> inodes[i].kind != 0
    ensures r.Some? ==> from <= r.value < |inodes| && inodes[r.value].kind == 0
    ensures r.Some? ==> forall i :: from <= i < r.value ==> inodes[i].kind != 0
    decreases |inodes| - from
  {
    if from == |inodes| then None else if inodes[from].kind == 0 then Some(from) else FindInodeFrom(inodes, from + 1)
  }

  /** The lowest inode whose type code is 0. */
  ghost predicate IsFirstFree(inodes: seq<Inode>, i: nat)
  {
    i < |inodes| && inodes[i].kind == 0 && forall j :: 0 <= j < i ==> inodes[j].kind != 0
  }

  function NewInode(kind: Word, permissions: Word): Inode
  {
    Inode(0, seq(16, _ => 0), permissions, kind)
  }

  function CreateFile(inodes: seq<Inode>, kind: Word, permissions: Word): (seq<Inode>, bool)
  {
    match FindInodeFrom(inodes, 0)
    case None => (inodes, false)
    case Some(i) => (inodes[i := NewInode(kind, permissions)], true)
  }

  /** A file takes an inode exactly if its type code is not 0: type 0 marks the inode free again. */
  lemma FileTakesInodeIff(inodes: seq<Inode>, kind: Word, permissions: Word)
    requires FreeInodes(inodes) != {}
    ensures CreateFile(inodes, kind, permissions).1
    ensures |FreeInodes(CreateFile(inodes, kind, permissions).0)| == |FreeInodes(inodes)| - (if kind != 0 then 1 else 0)
  {
    var i :| i in FreeInodes(inodes);
    assert inodes[i].kind == 0;
    var found := FindInodeFrom(inodes, 0).value;
    var after := CreateFile(inodes, kind, permissions).0;
    if kind != 0 {
      assert FreeInodes(after) == FreeInodes(inodes) - {found};
    } else {
      assert FreeInodes(after) == FreeInodes(inodes);
    }
  }
}
