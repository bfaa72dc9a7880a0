/**
  The process table of `kernel/process.cpp` as a step machine over 256 slots,
  on top of the memory manager's machine.  The struct is the plain one that
  process.cpp uses; `Ready` is the state that the value 0 stands for.
 */
module Processes {
  import opened Options
  import opened PageSet
  import opened Paging
  import opened Words

  type Index = i: nat | i < 256

  datatype State = Ready | Running | Blocked | Terminated

  datatype Process = Process(
    pid: Word, state: State, eip: Word, esp: Word, ebp: Word, memorySize: Word, stackTop: Word)

  const ZEROED := Process(0, Ready, 0, 0, 0, 0, 0)
  const FOUR_MIB: Word := 4 * 1024 * 1024

  type Slots = s: seq<Process> | |s| == 256 ghost witness seq(256, _ => ZEROED)

  datatype Kernel = Kernel(slots: Slots, count: Word, nextPid: Word, current: Option<Index>, m: Machine)

  /** Reduction modulo 2^32 of a sum or difference of two words. */
  function Wrap(n: int): Word
    requires -0x1_0000_0000 <= n < 0x2_0000_0000
  {
    if n < 0 then n + 0x1_0000_0000 else if n < 0x1_0000_0000 then n else n - 0x1_0000_0000
  }

  // ------------------------------------------------------------- searches ---

  function FindStateFrom(slots: Slots, st: State, from: nat): (r: Option<Index>)
    requires from <= 256
    ensures r.None? <==> forall i: Index :: from <= i ==> slots[i].state != st
    ensures r.Some? ==> from <= r.value && slots[r.value].state == st
    ensures r.Some? ==> forall j: Index :: from <= j < r.value ==> slots[j].state != st
    decreases 256 - from
  {
    if from == 256 then None
    else if slots[from].state == st then Some(from)
    else FindStateFrom(slots, st, from + 1)
  }

  /** The lowest slot in a given state. */
  function FindState(slots: Slots, st: State): (r: Option<Index>)
    ensures r.None? <==> forall i: Index :: slots[i].state != st
    ensures r.Some? ==> slots[r.value].state == st
    ensures r.Some? ==> forall j: Index :: j < r.value ==> slots[j].state != st
  {
    FindStateFrom(slots, st, 0)
  }

  function FindPidFrom(slots: Slots, pid: Word, from: nat): (r: Option<Index>)
    requires from <= 256
    ensures r.None? <==> forall i: Index :: from <= i ==> slots[i].pid != pid
    ensures r.Some? ==> from <= r.value && slots[r.value].pid == pid
    ensures r.Some? ==> forall j: Index :: from <= j < r.value ==> slots[j].pid != pid
    decreases 256 - from
  {
    if from == 256 then None
    else if slots[from].pid == pid then Some(from)
    else FindPidFrom(slots, pid, from + 1)
  }

  /** `get_process`. */
  function FindPid(slots: Slots, pid: Word): (r: Option<Index>)
    ensures r.None? <==> forall i: Index :: slots[i].pid != pid
    ensures r.Some? ==> slots[r.value].pid == pid
    ensures r.Some? ==> forall j: Index :: j < r.value ==> slots[j].pid != pid
  {
    FindPidFrom(slots, pid, 0)
  }

  // ----------------------------------------------------------- operations ---

  function SetState(slots: Slots, i: Index, st: State): Slots
  {
    slots[i := slots[i].(state := st)]
  }

  function Grown(slots: Slots, i: Index, size: Word): Slots
  {
    slots[i := slots[i].(memorySize := Wrap(slots[i].memorySize + size))]
  }

  /** One page taken and mapped at `virt`; false when there is none, or when mapping it faults. */
  ghost function Grant(m: Machine, virt: Word): (Machine, bool)
  {
    var p := NextFrame(m.used, m.total);
    var m1 := m.(used := UsedAfterAlloc(m.used, m.total));
    if p == 0 then (m1, false)
    else
      var m2 := MapPage(m1, PageAddr(p), virt);
      (m2, !m2.halted)
  }

  ghost function AllocateMemory(k: Kernel, pid: Word, size: Word): (Kernel, bool)
  {
    match FindPid(k.slots, pid)
    case None => (k, false)
    case Some(i) =>
      var (m, ok) := Grant(k.m, k.slots[i].memorySize);
      (k.(m := m, slots := if ok then Grown(k.slots, i, size) else k.slots), ok)
  }

  /** The slot as `create_process` fills it in before asking for memory. */
  function Claim(k: Kernel, i: Index, entry: Word): Kernel
  {
    k.(slots := k.slots[i := k.slots[i].(pid := k.nextPid, state := Ready, eip := entry, memorySize := FOUR_MIB)],
       nextPid := Wrap(k.nextPid + 1))
  }

  function SetUpStack(k: Kernel, i: Index): Kernel
  {
    var top := Wrap(k.slots[i].memorySize - 16);
    k.(slots := k.slots[i := k.slots[i].(stackTop := top, esp := top, ebp := top)], count := Wrap(k.count + 1))
  }

  ghost function Create(k: Kernel, entry: Word): (Kernel, Word)
  {
    if k.count >= 256 then (k, 0)
    else
      match FindState(k.slots, Terminated)
      case None => (k, 0)
      case Some(i) =>
        var (k1, ok) := AllocateMemory(Claim(k, i, entry), k.nextPid, FOUR_MIB);
        if ok then (SetUpStack(k1, i), k1.slots[i].pid) else (k1, 0)
  }

  function Terminate(k: Kernel, pid: Word): (Kernel, bool)
  {
    match FindPid(k.slots, pid)
    case None => (k, false)
    case Some(i) => (k.(slots := SetState(k.slots, i, Terminated), count := Wrap(k.count - 1)), true)
  }

  function Schedule(k: Kernel): Kernel
  {
    if k.count == 0 then k
    else
      match FindState(k.slots, Ready)
      case None => k
      case Some(next) =>
        var slots := if k.current.Some? then SetState(k.slots, k.current.value, Ready) else k.slots;
        k.(slots := SetState(slots, next, Running), current := Some(next))
  }

  function Exit(k: Kernel): Kernel
  {
    match k.current
    case None => k
    case Some(c) => Terminate(k, k.slots[c].pid).0
  }

  /** A pid as the `int` that `sys_fork` returns. */
  function AsInt(w: Word): int
  {
    if w < 0x8000_0000 then w else w - 0x1_0000_0000
  }

  ghost function Fork(k: Kernel): (Kernel, int)
  {
    if k.current.None? then (k, -1)
    else
      var (k1, pid) := Create(k, 0);
      match FindPid(k1.slots, pid)
      case None => (k1, -1)
      case Some(i) => (k1, AsInt(k1.slots[i].pid))
  }

  // ------------------------------------------------------------------ runs ---

  datatype Op = OpCreate(entry: Word) | OpTerminate(pid: Word) | OpSchedule | OpExit | OpFork

  ghost function Step(k: Kernel, op: Op): Kernel
  {
    if k.m.halted then k
    else
      match op
      case OpCreate(entry) => Create(k, entry).0
      case OpTerminate(pid) => Terminate(k, pid).0
      case OpSchedule => Schedule(k)
      case OpExit => Exit(k)
      case OpFork => Fork(k).0
  }

  ghost function Run(k: Kernel, ops: seq<Op>): Kernel
  {
    if ops == [] then k else Step(Run(k, ops[..|ops| - 1]), ops[|ops| - 1])
  }

  /** `Process::init`: the table is zeroed, which makes every slot `Ready`. */
  function Zeroed(m: Machine): Kernel
  {
    Kernel(seq(256, _ => ZEROED), 0, 1, None, m)
  }

  /** The empty table that `create_process` expects: every slot `Terminated`. */
  function Vacant(m: Machine): Kernel
  {
    Kernel(seq(256, _ => ZEROED.(state := Terminated)), 0, 1, None, m)
  }

  /** Whether a step fills in a slot, successfully or not: a creation that gets past its two checks. */
  ghost predicate Claims(k: Kernel, op: Op)
  {
    && !k.m.halted
    && (op.OpCreate? || (op.OpFork? && k.current.Some?))
    && k.count < 256 && FindState(k.slots, Terminated).Some?
  }

  ghost function ClaimCount(k: Kernel, ops: seq<Op>): nat
  {
    if ops == [] then 0
    else
      ClaimCount(k, ops[..|ops| - 1]) + if Claims(Run(k, ops[..|ops| - 1]), ops[|ops| - 1]) then 1 else 0
  }

  lemma CreationStep(k: Kernel, op: Op)
    requires !k.m.halted && (op.OpCreate? || (op.OpFork? && k.current.Some?))
    ensures Step(k, op) == Create(k, if op.OpCreate? then op.entry else 0).0
  {
  }

  lemma AllocateMemoryTable(k: Kernel, pid: Word, size: Word)
    ensures var (k', ok) := AllocateMemory(k, pid, size);
      && k' == k.(m := k'.m, slots := k'.slots)
      && (ok ==> FindPid(k.slots, pid).Some? && k'.slots == Grown(k.slots, FindPid(k.slots, pid).value, size))
      && (!ok ==> k'.slots == k.slots)
  {
  }

  /** Slot `i` now belongs to a new process; the other slots keep their pids and states. */
  ghost predicate Took(k: Kernel, k': Kernel, i: Index, entry: Word)
  {
    && k'.current == k.current
    && k'.nextPid == Wrap(k.nextPid + 1)
    && k'.slots[i].state == Ready && k'.slots[i].pid == k.nextPid && k'.slots[i].eip == entry
    && (forall j: Index :: j != i ==>
          k'.slots[j].state == k.slots[j].state && k'.slots[j].pid == k.slots[j].pid)
  }

  lemma ClaimTakes(k: Kernel, i: Index, entry: Word, k1: Kernel)
    requires k1 == Claim(k, i, entry).(m := k1.m, slots := k1.slots)
    requires k1.slots == Claim(k, i, entry).slots
          || exists j: Index :: k1.slots == Grown(Claim(k, i, entry).slots, j, FOUR_MIB)
    ensures Took(k, k1, i, entry) && Took(k, SetUpStack(k1, i), i, entry)
  {
  }

  /** What `Create` does to the table, whatever memory does. */
  lemma CreateTakes(k: Kernel, entry: Word)
    ensures k.count >= 256 || FindState(k.slots, Terminated).None? ==> Create(k, entry) == (k, 0)
    ensures k.count < 256 && FindState(k.slots, Terminated).Some? ==>
              Took(k, Create(k, entry).0, FindState(k.slots, Terminated).value, entry)
  {
    if k.count < 256 && FindState(k.slots, Terminated).Some? {
      var i := FindState(k.slots, Terminated).value;
      AllocateMemoryTable(Claim(k, i, entry), k.nextPid, FOUR_MIB);
      ClaimTakes(k, i, entry, AllocateMemory(Claim(k, i, entry), k.nextPid, FOUR_MIB).0);
    }
  }

  // ------------------------------------------- what a step does, slot by slot ---

  /** The lowest slot that holds a pid. */
  ghost predicate IsFirstWith(slots: Slots, pid: Word, i: Index)
  {
    slots[i].pid == pid && forall j: Index :: j < i ==> slots[j].pid != pid
  }

  ghost predicate IsFirstReady(slots: Slots, i: Index)
  {
    slots[i].state == Ready && forall j: Index :: j < i ==> slots[j].state != Ready
  }

  /** The lowest slot with the pid is terminated and the count lowered; nothing else changes. */
  ghost predicate TerminatesFirst(k: Kernel, pid: Word, k': Kernel, ok: bool)
  {
    && k'.nextPid == k.nextPid && k'.current == k.current && k'.m == k.m
    && (forall i: Index :: IsFirstWith(k.slots, pid, i) ==>
          && ok
          && k'.count == (if k.count == 0 then 0xFFFF_FFFF else k.count - 1)
          && forall j: Index ::
               k'.slots[j] == k.slots[j].(state := if j == i then Terminated else k.slots[j].state))
    && ((forall i: Index :: k.slots[i].pid != pid) ==> !ok && k' == k)
  }

  lemma TerminateEffect(k: Kernel, pid: Word)
    ensures TerminatesFirst(k, pid, Terminate(k, pid).0, Terminate(k, pid).1)
  {
    var found := FindPid(k.slots, pid);
    forall i: Index | IsFirstWith(k.slots, pid, i)
      ensures found == Some(i)
    {
      assert found.Some?;
    }
  }

  /** Exit terminates the lowest slot with the pid of the current process; without one it does nothing. */
  ghost predicate Exits(k: Kernel, k': Kernel)
  {
    && (k.current.Some? ==> TerminatesFirst(k, k.slots[k.current.value].pid, k', true))
    && (k.current.None? ==> k' == k)
  }

  lemma ExitEffect(k: Kernel)
    ensures Exits(k, Exit(k))
  {
    if k.current.Some? {
      var pid := k.slots[k.current.value].pid;
      TerminateEffect(k, pid);
      assert FindPid(k.slots, pid).Some?;
    }
  }

  /**
    With a count of 0 or nothing ready, nothing happens; otherwise the lowest
    ready slot runs and is current, and the process that was current is ready.
   */
  ghost predicate Schedules(k: Kernel, k': Kernel)
  {
    && (k.count == 0 || (forall i: Index :: k.slots[i].state != Ready) ==> k' == k)
    && (forall n: Index :: k.count != 0 && IsFirstReady(k.slots, n) ==>
          && k' == k.(slots := k'.slots, current := Some(n))
          && forall i: Index ::
               k'.slots[i] == k.slots[i].(state := if i == n then Running
                                                   else if k.current == Some(i) then Ready
                                                   else k.slots[i].state))
  }

  lemma ScheduleEffect(k: Kernel)
    ensures Schedules(k, Schedule(k))
  {
    var found := FindState(k.slots, Ready);
    forall n: Index | IsFirstReady(k.slots, n)
      ensures found == Some(n)
    {
      assert found.Some?;
    }
  }

  /** The slot filled in with the next pid, before memory has been asked for. */
  function Claimed(k: Kernel, i: Index, entry: Word): Slots
  {
    k.slots[i := Process(k.nextPid, Ready, entry, k.slots[i].esp, k.slots[i].ebp, 0x40_0000, k.slots[i].stackTop)]
  }

  lemma CreateIsClaim(k: Kernel, entry: Word, i: Index)
    requires k.count < 256 && FindState(k.slots, Terminated) == Some(i)
    ensures Claim(k, i, entry) == k.(slots := Claimed(k, i, entry), nextPid := if k.nextPid == 0xFFFF_FFFF then 0 else k.nextPid + 1)
    ensures Create(k, entry).0 == Create(k, entry).0.(current := k.current, nextPid := Claim(k, i, entry).nextPid)
  {
    CreateTakes(k, entry);
    assert Claim(k, i, entry).slots == Claimed(k, i, entry);
  }

  /**
    The whole table after a creation that is not counted, for want of a page
    or because mapping it faults: the slot stays filled in and ready.
   */
  lemma UncountedCreation(k: Kernel, entry: Word, i: Index)
    requires k.count < 256 && FindState(k.slots, Terminated) == Some(i) && Create(k, entry).0.count == k.count
    ensures Create(k, entry).1 == 0
    ensures Create(k, entry).0 == Kernel(Claimed(k, i, entry), k.count,
                                         if k.nextPid == 0xFFFF_FFFF then 0 else k.nextPid + 1, k.current,
                                         Create(k, entry).0.m)
  {
    CreateIsClaim(k, entry, i);
    AllocateMemoryTable(Claim(k, i, entry), k.nextPid, FOUR_MIB);
  }

  /** The slots after a creation that has got its page, when memory is accounted to slot `j`. */
  function Filled(k: Kernel, entry: Word, i: Index, j: Index): Slots
  {
    if i == j then
      k.slots[i := Process(k.nextPid, Ready, entry, 0x7F_FFF0, 0x7F_FFF0, 0x80_0000, 0x7F_FFF0)]
    else
      k.slots[i := Process(k.nextPid, Ready, entry, 0x3F_FFF0, 0x3F_FFF0, 0x40_0000, 0x3F_FFF0)]
             [j := k.slots[j].(memorySize := (k.slots[j].memorySize + 0x40_0000) % 0x1_0000_0000)]
  }

  /**
    The whole table after one that is counted.  Memory is accounted to the
    lowest slot with the new pid: the new one, or after a wrap an older one.
   */
  lemma CountedCreation(k: Kernel, entry: Word, i: Index, j: Index)
    requires k.count < 256 && FindState(k.slots, Terminated) == Some(i) && Create(k, entry).0.count != k.count
    requires IsFirstWith(Claimed(k, i, entry), k.nextPid, j)
    ensures Create(k, entry).1 == k.nextPid
    ensures Create(k, entry).0 == Kernel(Create(k, entry).0.slots, k.count + 1,
                                         if k.nextPid == 0xFFFF_FFFF then 0 else k.nextPid + 1, k.current,
                                         Create(k, entry).0.m)
    ensures Create(k, entry).0.slots == Filled(k, entry, i, j)
  {
    var k0 := Claim(k, i, entry);
    CreateIsClaim(k, entry, i);
    FirstPidIsFound(k0.slots, k.nextPid, j);
    AllocateMemoryTable(k0, k.nextPid, FOUR_MIB);
    var k1 := AllocateMemory(k0, k.nextPid, FOUR_MIB).0;
    assert k1.slots == Grown(k0.slots, j, FOUR_MIB);
    CountedSlots(k, entry, i, j, k1);
  }

  /** The page for a creation is mapped at the size that the accounted slot had. */
  lemma CreationMemory(k: Kernel, entry: Word, i: Index, j: Index)
    requires k.count < 256 && FindState(k.slots, Terminated) == Some(i)
    requires IsFirstWith(Claimed(k, i, entry), k.nextPid, j)
    ensures var (m, ok) := Grant(k.m, if i == j then 0x40_0000 else k.slots[j].memorySize);
      Create(k, entry).0.m == m && Create(k, entry).0.count == if ok then k.count + 1 else k.count
  {
    CreateIsClaim(k, entry, i);
    AllocateMemoryEffect(Claim(k, i, entry), k.nextPid, FOUR_MIB, j);
  }

  lemma GrownEffect(slots: Slots, j: Index, size: Word)
    ensures Grown(slots, j, size) == slots[j := slots[j].(memorySize := (slots[j].memorySize + size) % 0x1_0000_0000)]
  {
  }

  /** A page is mapped at the size of the lowest slot with the pid, which then grows; on failure it does not. */
  lemma AllocateMemoryEffect(k: Kernel, pid: Word, size: Word, j: Index)
    requires IsFirstWith(k.slots, pid, j)
    ensures var (m, ok) := Grant(k.m, k.slots[j].memorySize);
      var grown := k.slots[j].(memorySize := (k.slots[j].memorySize + size) % 0x1_0000_0000);
      AllocateMemory(k, pid, size) == (k.(m := m, slots := if ok then k.slots[j := grown] else k.slots), ok)
  {
    FirstPidIsFound(k.slots, pid, j);
    GrownEffect(k.slots, j, size);
  }

  /** The least free page is taken and mapped; page 0 is taken for nothing, being null. */
  lemma GrantEffect(m: Machine, virt: Word)
    ensures FreePages(m.used, m.total) == {} ==> Grant(m, virt) == (m, false)
    ensures forall p: Frame :: IsLeastFree(p, m.used, m.total) ==>
      var m1 := m.(used := m.used + {p});
      Grant(m, virt) == if p == 0 then (m1, false)
                        else (MapPage(m1, p * 4096, virt), !MapPage(m1, p * 4096, virt).halted)
  {
    forall p: Frame | IsLeastFree(p, m.used, m.total)
      ensures NextPage(m.used, m.total) == p
    {
    }
  }

  lemma FirstPidIsFound(slots: Slots, pid: Word, j: Index)
    requires IsFirstWith(slots, pid, j)
    ensures FindPid(slots, pid) == Some(j)
  {
    assert FindPid(slots, pid).Some?;
  }

  lemma CountedSlots(k: Kernel, entry: Word, i: Index, j: Index, k1: Kernel)
    requires k1.slots == Grown(Claimed(k, i, entry), j, FOUR_MIB)
    ensures SetUpStack(k1, i).slots == Filled(k, entry, i, j)
  {
  }

  lemma GrantKeepsFlags(m: Machine, virt: Word)
    ensures FlagsKept(m.cells, Grant(m, virt).0.cells)
  {
    MapPageKeepsFlags(m.(used := UsedAfterAlloc(m.used, m.total)), PageAddr(NextFrame(m.used, m.total)), virt);
  }

  lemma CreateKeepsFlags(k: Kernel, entry: Word)
    ensures FlagsKept(k.m.cells, Create(k, entry).0.m.cells)
  {
    if k.count < 256 && FindState(k.slots, Terminated).Some? {
      var i := FindState(k.slots, Terminated).value;
      FirstHolderExists(Claimed(k, i, entry), k.nextPid, i);
      var j := FindPid(Claimed(k, i, entry), k.nextPid).value;
      CreationMemory(k, entry, i, j);
      GrantKeepsFlags(k.m, if i == j then 0x40_0000 else k.slots[j].memorySize);
    }
  }

  lemma FirstHolderExists(slots: Slots, pid: Word, i: Index)
    requires slots[i].pid == pid
    ensures FindPid(slots, pid).Some? && IsFirstWith(slots, pid, FindPid(slots, pid).value)
  {
  }

  lemma StepKeepsFlags(k: Kernel, op: Op)
    ensures FlagsKept(k.m.cells, Step(k, op).m.cells)
  {
    if op.OpCreate? {
      CreateKeepsFlags(k, op.entry);
    } else if op.OpFork? {
      CreateKeepsFlags(k, 0);
    }
  }

  /** No run of the process manager changes an entry's accessed, dirty or unused bits. */
  lemma {:induction false} RunKeepsFlags(k: Kernel, ops: seq<Op>)
    ensures FlagsKept(k.m.cells, Run(k, ops).m.cells)
  {
    if ops != [] {
      var k1 := Run(k, ops[..|ops| - 1]);
      RunKeepsFlags(k, ops[..|ops| - 1]);
      StepKeepsFlags(k1, ops[|ops| - 1]);
      FlagsStayKept(k.m.cells, k1.m.cells, Run(k, ops).m.cells);
    }
  }

  // -------------------------------------------------- at most one is running ---

  ghost predicate RunningIsCurrent(k: Kernel)
  {
    forall i: Index :: k.slots[i].state == Running ==> k.current == Some(i)
  }

  lemma CreateRunningIsCurrent(k: Kernel, entry: Word)
    requires RunningIsCurrent(k)
    ensures RunningIsCurrent(Create(k, entry).0)
  {
    CreateTakes(k, entry);
  }

  lemma OtherRunningIsCurrent(k: Kernel, op: Op)
    requires RunningIsCurrent(k) && !op.OpCreate? && !op.OpFork?
    ensures RunningIsCurrent(Step(k, op))
  {
  }

  lemma StepRunningIsCurrent(k: Kernel, op: Op)
    requires RunningIsCurrent(k)
    ensures RunningIsCurrent(Step(k, op))
  {
    if op.OpCreate? {
      CreateRunningIsCurrent(k, op.entry);
    } else if op.OpFork? {
      CreateRunningIsCurrent(k, 0);
    } else {
      OtherRunningIsCurrent(k, op);
    }
  }

  /** In every run from `init` only the slot `current_process` points to is `Running`. */
  lemma {:induction false} OnlyCurrentRuns(m: Machine, ops: seq<Op>)
    ensures RunningIsCurrent(Run(Zeroed(m), ops)) && RunningIsCurrent(Run(Vacant(m), ops))
  {
    if ops != [] {
      var n := |ops| - 1;
      OnlyCurrentRuns(m, ops[..n]);
      StepRunningIsCurrent(Run(Zeroed(m), ops[..n]), ops[n]);
      StepRunningIsCurrent(Run(Vacant(m), ops[..n]), ops[n]);
    }
  }

  // --------------------------------------------------------------- identity ---

  /** Pids in the table are below `next_pid`, and no two slots share a non-zero one. */
  ghost predicate PidsDistinct(k: Kernel)
  {
    && k.nextPid >= 1
    && (forall i: Index :: k.slots[i].pid < k.nextPid)
    && (forall i: Index, j: Index :: i != j && k.slots[i].pid != 0 ==> k.slots[i].pid != k.slots[j].pid)
  }

  lemma ClaimPidsDistinct(k: Kernel, entry: Word)
    requires PidsDistinct(k) && k.nextPid + 1 < 0x1_0000_0000
    requires k.count < 256 && FindState(k.slots, Terminated).Some?
    ensures PidsDistinct(Create(k, entry).0) && Create(k, entry).0.nextPid == k.nextPid + 1
  {
    CreateTakes(k, entry);
    NewPidStaysDistinct(k, Create(k, entry).0, FindState(k.slots, Terminated).value);
  }

  lemma NewPidStaysDistinct(k: Kernel, k': Kernel, i: Index)
    requires PidsDistinct(k) && k'.nextPid == k.nextPid + 1 && k'.slots[i].pid == k.nextPid
    requires forall j: Index :: j != i ==> k'.slots[j].pid == k.slots[j].pid
    ensures PidsDistinct(k')
  {
  }

  lemma SamePidsDistinct(k: Kernel, k': Kernel)
    requires PidsDistinct(k) && k'.nextPid == k.nextPid
    requires forall i: Index :: k'.slots[i].pid == k.slots[i].pid
    ensures PidsDistinct(k')
  {
  }

  lemma OtherStepsKeepPids(k: Kernel, op: Op)
    requires !Claims(k, op)
    ensures Step(k, op).nextPid == k.nextPid
    ensures forall i: Index :: Step(k, op).slots[i].pid == k.slots[i].pid
  {
    if op.OpCreate? || op.OpFork? {
      CreateTakes(k, if op.OpCreate? then op.entry else 0);
    }
  }

  lemma StepPidsDistinct(k: Kernel, op: Op)
    requires PidsDistinct(k) && (Claims(k, op) ==> k.nextPid + 1 < 0x1_0000_0000)
    ensures PidsDistinct(Step(k, op))
    ensures Step(k, op).nextPid == k.nextPid + if Claims(k, op) then 1 else 0
  {
    if !Claims(k, op) {
      OtherStepsKeepPids(k, op);
      SamePidsDistinct(k, Step(k, op));
    } else {
      CreationStep(k, op);
      ClaimPidsDistinct(k, if op.OpCreate? then op.entry else 0);
    }
  }

  /**
    Until `next_pid` wraps, pids identify slots over every run, and `next_pid`
    counts the slots filled in; only those steps use it up.
   */
  lemma {:induction false} PidsStayDistinct(k: Kernel, ops: seq<Op>)
    requires PidsDistinct(k) && k.nextPid + ClaimCount(k, ops) < 0x1_0000_0000
    ensures PidsDistinct(Run(k, ops)) && Run(k, ops).nextPid == k.nextPid + ClaimCount(k, ops)
  {
    if ops != [] {
      var n := |ops| - 1;
      PidsStayDistinct(k, ops[..n]);
      StepPidsDistinct(Run(k, ops[..n]), ops[n]);
    }
  }

  /** Both start tables have distinct pids. */
  lemma StartPidsDistinct(m: Machine)
    ensures PidsDistinct(Zeroed(m)) && PidsDistinct(Vacant(m))
  {
  }

  lemma OnlyHolderIsFound(slots: Slots, pid: Word, i: Index)
    requires slots[i].pid == pid && forall j: Index :: j != i ==> slots[j].pid != pid
    ensures FindPid(slots, pid) == Some(i)
  {
  }

  lemma ClaimedSlotIsFound(k: Kernel, i: Index, entry: Word)
    requires PidsDistinct(k)
    ensures FindPid(Claim(k, i, entry).slots, k.nextPid) == Some(i)
  {
    OnlyHolderIsFound(Claim(k, i, entry).slots, k.nextPid, i);
  }

  /** The slot of a process just created. */
  function NewProcess(pid: Word, entry: Word): Process
  {
    Process(pid, Ready, entry, 2 * FOUR_MIB - 16, 2 * FOUR_MIB - 16, 2 * FOUR_MIB, 2 * FOUR_MIB - 16)
  }

  lemma CreatedSlots(k: Kernel, entry: Word)
    requires PidsDistinct(k)
    ensures var i := FindState(k.slots, Terminated);
      Create(k, entry).1 != 0 ==>
        && k.count < 256 && i.Some?
        && Create(k, entry).0.slots == k.slots[i.value := NewProcess(k.nextPid, entry)]
        && Create(k, entry).0.count == k.count + 1
        && Create(k, entry).1 == k.nextPid
  {
    if Create(k, entry).1 != 0 {
      var i := FindState(k.slots, Terminated).value;
      ClaimedSlotIsFound(k, i, entry);
      AllocateMemoryTable(Claim(k, i, entry), k.nextPid, FOUR_MIB);
      ClaimedSlotIsFilled(k, i, entry, AllocateMemory(Claim(k, i, entry), k.nextPid, FOUR_MIB).0);
    }
  }

  lemma ClaimedSlotIsFilled(k: Kernel, i: Index, entry: Word, k1: Kernel)
    requires k1.slots == Grown(Claim(k, i, entry).slots, i, FOUR_MIB)
    ensures SetUpStack(k1, i).slots == k.slots[i := NewProcess(k.nextPid, entry)]
    ensures k1.slots[i].pid == k.nextPid
  {
    assert k1.slots[i].memorySize == 2 * FOUR_MIB;
  }

  /** `get_process` of a pid just returned finds the lowest free slot, newly filled. */
  lemma CreatedProcessIsFound(k: Kernel, entry: Word)
    requires PidsDistinct(k)
    ensures var (k', pid) := Create(k, entry);
      pid != 0 ==>
        && FindState(k.slots, Terminated).Some?
        && FindPid(k'.slots, pid) == FindState(k.slots, Terminated)
        && k'.slots == k.slots[FindPid(k'.slots, pid).value := NewProcess(pid, entry)]
        && k'.count == k.count + 1
  {
    CreatedSlots(k, entry);
    if Create(k, entry).1 != 0 {
      OnlyHolderIsFound(Create(k, entry).0.slots, k.nextPid, FindState(k.slots, Terminated).value);
    }
  }

  // ---------------------------------------------- terminated slots stay put ---

  /** Whether a step fills in slot `i`. */
  ghost predicate Reuses(k: Kernel, op: Op, i: Index)
  {
    Claims(k, op) && FindState(k.slots, Terminated) == Some(i)
  }

  ghost predicate NeverReused(k: Kernel, ops: seq<Op>, i: Index)
  {
    ops == [] || (NeverReused(k, ops[..|ops| - 1], i) && !Reuses(Run(k, ops[..|ops| - 1]), ops[|ops| - 1], i))
  }

  ghost predicate Parked(k: Kernel, i: Index)
  {
    k.slots[i].state == Terminated && k.current != Some(i)
  }

  lemma ClaimUnparks(k: Kernel, entry: Word, i: Index)
    requires Parked(k, i) && k.count < 256 && FindState(k.slots, Terminated).Some?
    ensures Parked(Create(k, entry).0, i) <==> FindState(k.slots, Terminated) != Some(i)
  {
    CreateTakes(k, entry);
  }

  lemma OtherStepsKeepParked(k: Kernel, op: Op, i: Index)
    requires Parked(k, i) && !Claims(k, op)
    ensures Parked(Step(k, op), i)
  {
    if op.OpCreate? || op.OpFork? {
      CreateTakes(k, if op.OpCreate? then op.entry else 0);
    }
  }

  /** A step ends a slot's being terminated and not current exactly if it fills the slot in. */
  lemma StepKeepsParkedIff(k: Kernel, op: Op, i: Index)
    requires Parked(k, i)
    ensures Parked(Step(k, op), i) <==> !Reuses(k, op, i)
  {
    if !Claims(k, op) {
      OtherStepsKeepParked(k, op, i);
    } else {
      CreationStep(k, op);
      ClaimUnparks(k, if op.OpCreate? then op.entry else 0, i);
    }
  }

  lemma {:induction false} TerminatedStays(k: Kernel, ops: seq<Op>, i: Index)
    requires Parked(k, i) && NeverReused(k, ops, i)
    ensures Parked(Run(k, ops), i)
  {
    if ops != [] {
      TerminatedStays(k, ops[..|ops| - 1], i);
      StepKeepsParkedIff(Run(k, ops[..|ops| - 1]), ops[|ops| - 1], i);
    }
  }

  lemma {:induction false} NeverReusedPrefix(k: Kernel, ops: seq<Op>, i: Index, n: nat)
    requires NeverReused(k, ops, i) && n <= |ops|
    ensures NeverReused(k, ops[..n], i)
  {
    if n < |ops| {
      NeverReusedPrefix(k, ops[..|ops| - 1], i, n);
      assert ops[..|ops| - 1][..n] == ops[..n];
    } else {
      assert ops[..n] == ops;
    }
  }

  lemma {:induction false} ReusedSlotLeaves(k: Kernel, ops: seq<Op>, i: Index) returns (n: nat)
    requires Parked(k, i) && !NeverReused(k, ops, i)
    ensures n <= |ops| && !Parked(Run(k, ops[..n]), i)
  {
    var init := ops[..|ops| - 1];
    if NeverReused(k, init, i) {
      TerminatedStays(k, init, i);
      StepKeepsParkedIff(Run(k, init), ops[|ops| - 1], i);
      n := |ops|;
      assert ops[..n] == ops;
    } else {
      n := ReusedSlotLeaves(k, init, i);
      assert init[..n] == ops[..n];
    }
  }

  /** A slot terminated while not current stays so throughout a run exactly if no creation fills it in. */
  lemma TerminatedStaysIff(k: Kernel, ops: seq<Op>, i: Index)
    requires Parked(k, i)
    ensures (forall n :: 0 <= n <= |ops| ==> Parked(Run(k, ops[..n]), i)) <==> NeverReused(k, ops, i)
  {
    if NeverReused(k, ops, i) {
      forall n | 0 <= n <= |ops|
        ensures Parked(Run(k, ops[..n]), i)
      {
        NeverReusedPrefix(k, ops, i, n);
        TerminatedStays(k, ops[..n], i);
      }
    } else {
      var n := ReusedSlotLeaves(k, ops, i);
    }
  }

  /** Exactly the exited current process is revived by `schedule`, as soon as another one can run. */
  lemma ScheduleRevivesIff(k: Kernel, i: Index)
    requires k.slots[i].state == Terminated
    ensures Schedule(k).slots[i].state != Terminated
       <==> k.current == Some(i) && k.count != 0 && FindState(k.slots, Ready).Some?
  {
  }
}
