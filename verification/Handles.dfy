/**
  `FileHandle` of `include/filesystem.h`: descriptors are owned by handles and
  passed on by moves.  `close` is only declared there; it is taken to close
  the handle's descriptor and to mark the handle closed.
 */
module Handles {

  const INVALID_FD: int := -1

  /** A file handle: path, mode and position travel with the descriptor. */
  class FileHandle {
    var fd: int
    var path: string
    var mode: int
    var position: nat
    var isOpen: bool

    /** The handle as a member of a pool. */
    function AsHandle(): Handle
      reads this
    {
      Handle(fd, isOpen)
    }

    constructor (fd: int, path: string, mode: int)
      ensures this.fd == fd && this.path == path && this.mode == mode && position == 0 && isOpen
    {
      this.fd, this.path, this.mode, position, isOpen := fd, path, mode, 0, true;
    }

    /** The move constructor; the moved-from path is left unspecified by the library, here empty. */
    constructor Move(other: FileHandle)
      modifies other
      ensures (fd, path, mode, position, isOpen)
           == old((other.fd, other.path, other.mode, other.position, other.isOpen))
      ensures other.AsHandle() == Handle(-1, false) && (other.mode, other.position) == old((other.mode, other.position))
    {
      fd, path, mode, position, isOpen := other.fd, other.path, other.mode, other.position, other.isOpen;
      new;
      other.fd, other.path, other.isOpen := INVALID_FD, "", false;
    }

    /** What closing adds to the list of closed descriptors. */
    method Close(closed: seq<int>) returns (closed': seq<int>)
      modifies this`isOpen
      ensures closed' == closed + [fd] && !isOpen
    {
      isOpen := false;
      closed' := closed + [fd];
    }

    method Destroy(closed: seq<int>) returns (closed': seq<int>)
      modifies this`isOpen
      ensures closed' == (if old(isOpen) then closed + [fd] else closed) && !isOpen
    {
      closed' := closed;
      if isOpen {
        closed' := Close(closed);
      }
    }

    /** Move assignment; assigning a handle to itself does nothing. */
    method MoveAssign(other: FileHandle, closed: seq<int>) returns (closed': seq<int>)
      modifies this, other
      ensures other == this ==> closed' == closed && unchanged(this)
      ensures other != this ==>
        && closed' == (if old(isOpen) then closed + [old(fd)] else closed)
        && (fd, path, mode, position, isOpen)
             == old((other.fd, other.path, other.mode, other.position, other.isOpen))
        && other.AsHandle() == Handle(-1, false)
        && (other.mode, other.position) == old((other.mode, other.position))
    {
      closed' := closed;
      if this != other {
        if isOpen {
          closed' := Close(closed);
        }
        fd, path, mode, position, isOpen := other.fd, other.path, other.mode, other.position, other.isOpen;
        other.fd, other.path, other.isOpen := INVALID_FD, "", false;
      }
    }
  }

  // ------------------------------------------------------- a pool of handles ---

  datatype Handle = Handle(fd: int, isOpen: bool)

  const MOVED := Handle(INVALID_FD, false)

  /** The live handles by name, the descriptors issued so far, and those closed, in order. */
  datatype Pool = Pool(handles: map<nat, Handle>, issued: set<int>, closed: seq<int>)

  datatype Op =
    | Construct(h: nat, fd: int)
    | MoveConstruct(h: nat, from: nat)
    | MoveAssign(h: nat, from: nat)
    | Destroy(h: nat)

  /** New handles get new names and fresh descriptors; the others must exist. */
  predicate Allowed(p: Pool, op: Op)
  {
    match op
    case Construct(h, fd) => h !in p.handles && fd !in p.issued
    case MoveConstruct(h, from) => h !in p.handles && from in p.handles
    case MoveAssign(h, from) => h in p.handles && from in p.handles
    case Destroy(h) => h in p.handles
  }

  function ClosedBy(p: Pool, h: nat): seq<int>
    requires h in p.handles
  {
    if p.handles[h].isOpen then p.closed + [p.handles[h].fd] else p.closed
  }

  function Step(p: Pool, op: Op): Pool
    requires Allowed(p, op)
  {
    match op
    case Construct(h, fd) => Pool(p.handles[h := Handle(fd, true)], p.issued + {fd}, p.closed)
    case MoveConstruct(h, from) => p.(handles := p.handles[h := p.handles[from]][from := MOVED])
    case MoveAssign(h, from) =>
      if h == from then p
      else Pool(p.handles[h := p.handles[from]][from := MOVED], p.issued, ClosedBy(p, h))
    case Destroy(h) => Pool(p.handles - {h}, p.issued, ClosedBy(p, h))
  }

  ghost predicate IsRun(pools: seq<Pool>, ops: seq<Op>)
  {
    && |pools| == |ops| + 1
    && pools[0] == Pool(map[], {}, [])
    && (forall i :: 0 <= i < |ops| ==> Allowed(pools[i], ops[i]) && pools[i + 1] == Step(pools[i], ops[i]))
  }

  ghost predicate OpenIn(p: Pool, h: nat, fd: int)
  {
    h in p.handles && p.handles[h].isOpen && p.handles[h].fd == fd
  }

  /** Every issued descriptor is open in exactly one handle, or closed, and closed at most once. */
  ghost predicate Owned(p: Pool)
  {
    && (forall h, g, fd :: OpenIn(p, h, fd) && OpenIn(p, g, fd) ==> h == g)
    && (forall h, fd :: OpenIn(p, h, fd) ==> fd in p.issued && fd !in p.closed)
    && (forall i, j :: 0 <= i < j < |p.closed| ==> p.closed[i] != p.closed[j])
    && (forall fd :: fd in p.closed ==> fd in p.issued)
    && (forall fd :: fd in p.issued && fd !in p.closed ==> exists h :: OpenIn(p, h, fd))
  }

  lemma CloseRecords(p: Pool, h: nat, fd: int)
    requires h in p.handles
    ensures fd in ClosedBy(p, h) <==> fd in p.closed || OpenIn(p, h, fd)
  {
  }

  lemma ClosedStaysDistinct(p: Pool, h: nat)
    requires Owned(p) && h in p.handles
    ensures forall i, j :: 0 <= i < j < |ClosedBy(p, h)| ==> ClosedBy(p, h)[i] != ClosedBy(p, h)[j]
  {
    assert p.handles[h].isOpen ==> OpenIn(p, h, p.handles[h].fd);
  }

  lemma MoveRenames(p: Pool, h: nat, from: nat, p': Pool)
    requires from in p.handles && h != from
    requires p'.handles == p.handles[h := p.handles[from]][from := MOVED]
    ensures forall g, fd :: OpenIn(p', g, fd) <==>
      (g == h && OpenIn(p, from, fd)) || (g != h && g != from && OpenIn(p, g, fd))
  {
  }

  lemma ConstructKeeps(p: Pool, h: nat, fd: int)
    requires Owned(p) && Allowed(p, Construct(h, fd))
    ensures Owned(Step(p, Construct(h, fd)))
  {
    var p' := Step(p, Construct(h, fd));
    assert forall g, d :: OpenIn(p', g, d) <==> (g == h && d == fd) || (g != h && OpenIn(p, g, d));
    assert OpenIn(p', h, fd);
    forall d | d in p'.issued && d !in p'.closed
      ensures exists g :: OpenIn(p', g, d)
    {
      if d != fd {
        var g :| OpenIn(p, g, d);
        assert OpenIn(p', g, d);
      }
    }
  }

  lemma MoveConstructKeeps(p: Pool, h: nat, from: nat)
    requires Owned(p) && Allowed(p, MoveConstruct(h, from))
    ensures Owned(Step(p, MoveConstruct(h, from)))
  {
    var p' := Step(p, MoveConstruct(h, from));
    MoveRenames(p, h, from, p');
    forall d | d in p'.issued && d !in p'.closed
      ensures exists g :: OpenIn(p', g, d)
    {
      var g :| OpenIn(p, g, d);
      assert OpenIn(p', if g == from then h else g, d);
    }
  }

  lemma MoveAssignKeeps(p: Pool, h: nat, from: nat)
    requires Owned(p) && Allowed(p, MoveAssign(h, from)) && h != from
    ensures Owned(Step(p, MoveAssign(h, from)))
  {
    var p' := Step(p, MoveAssign(h, from));
    MoveRenames(p, h, from, p');
    ClosedStaysDistinct(p, h);
    forall d
      ensures d in p'.closed <==> d in p.closed || OpenIn(p, h, d)
    {
      CloseRecords(p, h, d);
    }
    forall d | d in p'.issued && d !in p'.closed
      ensures exists g :: OpenIn(p', g, d)
    {
      var g :| OpenIn(p, g, d);
      assert OpenIn(p', if g == from then h else g, d);
    }
  }

  lemma DestroyKeeps(p: Pool, h: nat)
    requires Owned(p) && Allowed(p, Destroy(h))
    ensures Owned(Step(p, Destroy(h)))
  {
    var p' := Step(p, Destroy(h));
    assert forall g, d :: OpenIn(p', g, d) <==> g != h && OpenIn(p, g, d);
    ClosedStaysDistinct(p, h);
    forall d
      ensures d in p'.closed <==> d in p.closed || OpenIn(p, h, d)
    {
      CloseRecords(p, h, d);
    }
    forall d | d in p'.issued && d !in p'.closed
      ensures exists g :: OpenIn(p', g, d)
    {
      var g :| OpenIn(p, g, d);
      assert OpenIn(p', g, d);
    }
  }

  lemma StepKeeps(p: Pool, op: Op)
    requires Owned(p) && Allowed(p, op)
    ensures Owned(Step(p, op))
  {
    match op
    case Construct(h, fd) => ConstructKeeps(p, h, fd);
    case MoveConstruct(h, from) => MoveConstructKeeps(p, h, from);
    case MoveAssign(h, from) =>
      if h != from {
        MoveAssignKeeps(p, h, from);
      }
    case Destroy(h) => DestroyKeeps(p, h);
  }

  /** Over every run a descriptor is open in at most one handle and closed at most once. */
  lemma {:induction false} EveryRunKeepsOwnership(pools: seq<Pool>, ops: seq<Op>, n: nat)
    requires IsRun(pools, ops) && n <= |ops|
    ensures Owned(pools[n])
  {
    if n > 0 {
      EveryRunKeepsOwnership(pools, ops, n - 1);
      StepKeeps(pools[n - 1], ops[n - 1]);
    }
  }

  /** When all handles are gone every issued descriptor has been closed exactly once. */
  lemma AllDestroyedMeansClosedOnce(pools: seq<Pool>, ops: seq<Op>, fd: int)
    requires IsRun(pools, ops) && pools[|ops|].handles == map[] && fd in pools[|ops|].issued
    ensures multiset(pools[|ops|].closed)[fd] == 1
  {
    EveryRunKeepsOwnership(pools, ops, |ops|);
    var p := pools[|ops|];
    assert forall h :: !OpenIn(p, h, fd);
    DistinctCount(p.closed, fd);
  }

  // ----------------------------------------------------- the pool of live objects ---

  /** The live `FileHandle` objects of a program, by name, with the record of descriptors. */
  class HandlePool {
    var handles: map<nat, FileHandle>
    var issued: set<int>
    var closed: seq<int>

    /** Different names are different objects. */
    ghost predicate Valid()
      reads this
    {
      forall h, g :: h in handles && g in handles && h != g ==> handles[h] != handles[g]
    }

    ghost function View(): Pool
      reads this, handles.Values
    {
      Pool(map h | h in handles :: handles[h].AsHandle(), issued, closed)
    }

    constructor ()
      ensures Valid() && View() == Pool(map[], {}, []) && handles == map[]
    {
      handles, issued, closed := map[], {}, [];
    }

    method Construct(h: nat, fd: int, path: string, mode: int)
      requires Valid() && Allowed(View(), Op.Construct(h, fd))
      modifies this
      ensures Valid() && View() == Step(old(View()), Op.Construct(h, fd))
      ensures fresh(handles.Values - old(handles.Values))
    {
      var handle := new FileHandle(fd, path, mode);
      handles := handles[h := handle];
      issued := issued + {fd};
    }

    method MoveConstruct(h: nat, from: nat)
      requires Valid() && Allowed(View(), Op.MoveConstruct(h, from))
      modifies this, handles.Values
      ensures Valid() && View() == Step(old(View()), Op.MoveConstruct(h, from))
      ensures fresh(handles.Values - old(handles.Values))
    {
      var handle := new FileHandle.Move(handles[from]);
      handles := handles[h := handle];
    }

    method MoveAssign(h: nat, from: nat)
      requires Valid() && Allowed(View(), Op.MoveAssign(h, from))
      modifies this, handles.Values
      ensures Valid() && View() == Step(old(View()), Op.MoveAssign(h, from))
      ensures fresh(handles.Values - old(handles.Values))
    {
      closed := handles[h].MoveAssign(handles[from], closed);
    }

    method Destroy(h: nat)
      requires Valid() && Allowed(View(), Op.Destroy(h))
      modifies this, handles.Values
      ensures Valid() && View() == Step(old(View()), Op.Destroy(h))
      ensures fresh(handles.Values - old(handles.Values))
    {
      closed := handles[h].Destroy(closed);
      handles := handles - {h};
    }
  }

  lemma {:induction false} DistinctCount(s: seq<int>, x: int)
    requires forall i, j :: 0 <= i < j < |s| ==> s[i] != s[j]
    ensures multiset(s)[x] == if x in s then 1 else 0
  {
    if s != [] {
      var n := |s| - 1;
      DistinctCount(s[..n], x);
      assert s == s[..n] + [s[n]];
    }
  }
}
