/**
  Which process `schedule` of `kernel/process.cpp` runs, and what can be
  created from the table that `Process::init` leaves.
 */
module Scheduling {
  import opened Options
  import opened Paging
  import opened Processes
  import opened Words

  // ----------------------------------------------------- the ready processes ---

  /** `ready` lists exactly the ready slots, lowest first. */
  ghost predicate Lists(ready: seq<Index>, slots: Slots)
  {
    && (forall x :: 0 <= x < |ready| ==> slots[ready[x]].state == Ready)
    && (forall x, y :: 0 <= x < y < |ready| ==> ready[x] < ready[y])
    && (forall i: Index :: slots[i].state == Ready ==> i in ready)
  }

  function ReadyFrom(slots: Slots, from: nat): (r: seq<Index>)
    requires from <= 256
    ensures forall x :: 0 <= x < |r| ==> from <= r[x] && slots[r[x]].state == Ready
    ensures forall x, y :: 0 <= x < y < |r| ==> r[x] < r[y]
    decreases 256 - from
  {
    if from == 256 then []
    else (if slots[from].state == Ready then [from] else []) + ReadyFrom(slots, from + 1)
  }

  lemma {:induction false} ReadyFromIsComplete(slots: Slots, from: nat, i: Index)
    requires from <= i && slots[i].state == Ready
    ensures i in ReadyFrom(slots, from)
    decreases 256 - from
  {
    if from < i {
      ReadyFromIsComplete(slots, from + 1, i);
    }
  }

  /** There is always such a list. */
  lemma ReadySlotsExist(slots: Slots)
    ensures Lists(ReadyFrom(slots, 0), slots)
  {
    forall i: Index | slots[i].state == Ready
      ensures i in ReadyFrom(slots, 0)
    {
      ReadyFromIsComplete(slots, 0, i);
    }
  }

  lemma LowestIsFound(slots: Slots, ready: seq<Index>)
    requires Lists(ready, slots)
    ensures FindState(slots, Ready) == if ready == [] then None else Some(ready[0])
  {
    var found := FindState(slots, Ready);
    if found.Some? {
      assert found.value in ready;
    }
  }

  /** With the lowest ready slot running, the search finds the second lowest. */
  lemma SecondLowestIsFound(slots: Slots, ready: seq<Index>)
    requires Lists(ready, slots) && ready != []
    ensures FindState(SetState(slots, ready[0], Running), Ready) == if |ready| == 1 then None else Some(ready[1])
  {
    var slots' := SetState(slots, ready[0], Running);
    assert Lists(ready[1..], slots') by {
      forall i: Index | slots'[i].state == Ready
        ensures i in ready[1..]
      {
        assert i in ready && i != ready[0];
      }
    }
    LowestIsFound(slots', ready[1..]);
  }

  /** With the second lowest running, it finds the lowest. */
  lemma LowestIsFoundAgain(slots: Slots, ready: seq<Index>)
    requires Lists(ready, slots) && |ready| > 1
    ensures FindState(SetState(slots, ready[1], Running), Ready) == Some(ready[0])
  {
    LowestIsFound(slots, ready);
    assert SetState(slots, ready[1], Running)[ready[0]].state == Ready;
  }

  // ------------------------------------------------------ repeated scheduling ---

  function ScheduleRun(k: Kernel, n: nat): Kernel
  {
    if n == 0 then k else Schedule(ScheduleRun(k, n - 1))
  }

  /** The slots once the current process, if any, has been put back among the ready ones. */
  function Waiting(k: Kernel): Slots
  {
    if k.current.Some? then SetState(k.slots, k.current.value, Ready) else k.slots
  }

  /** `k` with slot `i` running and the process that was current waiting. */
  function RunningIn(k: Kernel, i: Index): Kernel
  {
    k.(slots := SetState(Waiting(k), i, Running), current := Some(i))
  }

  /** The position of the waiting slot that call `n` of `schedule` picks, counting calls from 1. */
  function Pick(ready: seq<Index>, n: nat): (x: nat)
    requires n > 0 && ready != []
    ensures x < |ready|
  {
    if |ready| == 1 || n % 2 == 1 then 0 else 1
  }

  /** The current process waits only from the first call on: if it is the lowest, its turn comes second. */
  function Skew(k: Kernel, ready: seq<Index>): nat
    requires ready != []
  {
    if k.current == Some(ready[0]) && k.slots[ready[0]].state != Ready then 1 else 0
  }

  lemma SwitchBetween(k: Kernel, i: Index, j: Index)
    requires k.count != 0 && Waiting(k)[i].state == Ready
    requires FindState(SetState(Waiting(k), i, Running), Ready) == Some(j)
    ensures Schedule(RunningIn(k, i)) == RunningIn(k, j)
  {
    assert SetState(SetState(Waiting(k), i, Running), i, Ready) == Waiting(k);
  }

  lemma SwitchUp(k: Kernel, ready: seq<Index>)
    requires k.count != 0 && Lists(ready, Waiting(k)) && ready != []
    ensures Schedule(RunningIn(k, ready[0])) == RunningIn(k, ready[if |ready| == 1 then 0 else 1])
  {
    SecondLowestIsFound(Waiting(k), ready);
    if |ready| > 1 {
      SwitchBetween(k, ready[0], ready[1]);
    }
  }

  lemma SwitchDown(k: Kernel, ready: seq<Index>)
    requires k.count != 0 && Lists(ready, Waiting(k)) && |ready| > 1
    ensures Schedule(RunningIn(k, ready[1])) == RunningIn(k, ready[0])
  {
    LowestIsFoundAgain(Waiting(k), ready);
    SwitchBetween(k, ready[1], ready[0]);
  }

  lemma NextSwitch(k: Kernel, ready: seq<Index>, n: nat)
    requires n > 0 && k.count != 0 && Lists(ready, Waiting(k)) && ready != []
    ensures Schedule(RunningIn(k, ready[Pick(ready, n)])) == RunningIn(k, ready[Pick(ready, n + 1)])
  {
    var x, y := Pick(ready, n), Pick(ready, n + 1);
    if x == 0 {
      assert y == if |ready| == 1 then 0 else 1;
      SwitchUp(k, ready);
    } else {
      assert x == 1 && y == 0;
      SwitchDown(k, ready);
    }
  }

  /** The first call finds the lowest waiting slot, or the second lowest if the lowest is the current one. */
  lemma FirstIsFound(k: Kernel, ready: seq<Index>)
    requires Lists(ready, Waiting(k)) && FindState(k.slots, Ready).Some?
    ensures ready != [] && FindState(k.slots, Ready) == Some(ready[Pick(ready, 1 + Skew(k, ready))])
  {
    var r := FindState(k.slots, Ready).value;
    assert Waiting(k)[r].state == Ready;
    if Skew(k, ready) == 0 {
      assert k.slots[ready[0]].state == Ready;
      assert r in ready;
    } else {
      assert r in ready && r != ready[0];
      assert k.slots[ready[1]].state == Ready;
    }
  }

  lemma FirstSwitch(k: Kernel, ready: seq<Index>)
    requires k.count != 0 && Lists(ready, Waiting(k)) && FindState(k.slots, Ready).Some?
    ensures ready != [] && ScheduleRun(k, 1) == RunningIn(k, ready[Pick(ready, 1 + Skew(k, ready))])
  {
    assert ScheduleRun(k, 1) == Schedule(ScheduleRun(k, 0));
    FirstIsFound(k, ready);
  }

  /**
    From any table, with or without a current process, calls alternate between
    the two lowest of the slots that are ready or current, starting with the
    lowest that is ready; a single one keeps running.  Nothing else in the
    table changes.
   */
  lemma {:induction false} ScheduleAlternates(k: Kernel, ready: seq<Index>, n: nat)
    requires n > 0 && k.count != 0 && Lists(ready, Waiting(k)) && FindState(k.slots, Ready).Some?
    ensures ready != [] && ScheduleRun(k, n) == RunningIn(k, ready[Pick(ready, n + Skew(k, ready))])
  {
    FirstSwitch(k, ready);
    if n > 1 {
      ScheduleAlternates(k, ready, n - 1);
      NextSwitch(k, ready, n - 1 + Skew(k, ready));
    }
  }

  lemma {:induction false} NothingReadyNothingChanges(k: Kernel, n: nat)
    requires FindState(k.slots, Ready).None?
    ensures ScheduleRun(k, n) == k
  {
    if n > 0 {
      NothingReadyNothingChanges(k, n - 1);
    }
  }

  /** What the comment in the source calls it: the waiting slots in turn, from the first one picked. */
  ghost predicate IsRoundRobin(k: Kernel, ready: seq<Index>)
  {
    forall n: nat :: n > 0 && ready != [] ==>
      ScheduleRun(k, n).current == Some(ready[(n + Skew(k, ready) - 1) % |ready|])
  }

  /** It is round robin exactly when at most two slots are ready or current. */
  lemma RoundRobinIff(k: Kernel, ready: seq<Index>)
    requires k.count != 0 && Lists(ready, Waiting(k))
    ensures IsRoundRobin(k, ready) <==> |ready| <= 2
  {
    if |ready| > 2 {
      ThirdTurnIsNotTaken(k, ready);
    } else {
      forall n: nat | n > 0 && ready != []
        ensures ScheduleRun(k, n).current == Some(ready[(n + Skew(k, ready) - 1) % |ready|])
      {
        TurnIsTaken(k, ready, n);
      }
    }
  }

  lemma TurnIsTaken(k: Kernel, ready: seq<Index>, n: nat)
    requires n > 0 && k.count != 0 && Lists(ready, Waiting(k)) && 0 < |ready| <= 2
    ensures ScheduleRun(k, n).current == Some(ready[(n + Skew(k, ready) - 1) % |ready|])
  {
    AlternationIsInTurn(ready, n + Skew(k, ready));
    if FindState(k.slots, Ready).Some? {
      ScheduleAlternates(k, ready, n);
    } else {
      NothingReadyNothingChanges(k, n);
      OnlyCurrentWaits(k, ready);
    }
  }

  /** With nothing ready, the current process alone is waiting. */
  lemma OnlyCurrentWaits(k: Kernel, ready: seq<Index>)
    requires Lists(ready, Waiting(k)) && ready != [] && FindState(k.slots, Ready).None?
    ensures |ready| == 1 && k.current == Some(ready[0])
  {
    assert forall x :: 0 <= x < |ready| ==> k.slots[ready[x]].state != Ready;
    var y := |ready| - 1;
    assert k.current == Some(ready[0]) && k.current == Some(ready[y]);
  }

  lemma AlternationIsInTurn(ready: seq<Index>, n: nat)
    requires n > 0 && 0 < |ready| <= 2
    ensures Pick(ready, n) == (n - 1) % |ready|
  {
    if |ready| == 1 {
      assert (n - 1) % 1 == 0;
    } else {
      assert (n - 1) % 2 == if n % 2 == 1 then 0 else 1;
    }
  }

  lemma SomeReady(k: Kernel, ready: seq<Index>)
    requires Lists(ready, Waiting(k)) && |ready| > 1
    ensures FindState(k.slots, Ready).Some?
  {
    if FindState(k.slots, Ready).None? {
      OnlyCurrentWaits(k, ready);
    }
  }

  lemma ThirdTurnIsNotTaken(k: Kernel, ready: seq<Index>)
    requires k.count != 0 && Lists(ready, Waiting(k)) && |ready| > 2
    ensures !IsRoundRobin(k, ready)
  {
    var n: nat := 3 - Skew(k, ready);
    SomeReady(k, ready);
    ScheduleAlternates(k, ready, n);
    SmallRemainder(2, |ready|);
    assert ScheduleRun(k, n).current != Some(ready[(n + Skew(k, ready) - 1) % |ready|]);
  }

  lemma SmallRemainder(a: nat, b: nat)
    requires a < b
    ensures a % b == a
  {
  }

  /** Every waiting slot after the second is starved for ever, be it the current process of before. */
  lemma LaterSlotsStarve(k: Kernel, ready: seq<Index>, x: nat, n: nat)
    requires k.count != 0 && Lists(ready, Waiting(k)) && 2 <= x < |ready|
    requires n > 0 || k.current != Some(ready[x])
    ensures ScheduleRun(k, n).current != Some(ready[x])
    ensures ScheduleRun(k, n).slots[ready[x]].state == Ready
  {
    if n > 0 {
      SomeReady(k, ready);
      ScheduleAlternates(k, ready, n);
    }
  }

  // ------------------------------------------------- creation after init, fork ---

  /** Whether a step terminates a slot, and so lowers the count. */
  predicate Ends(k: Kernel, op: Op)
  {
    !k.m.halted && ((op.OpTerminate? && FindPid(k.slots, op.pid).Some?) || (op.OpExit? && k.current.Some?))
  }

  ghost function EndCount(k: Kernel, ops: seq<Op>): nat
  {
    if ops == [] then 0
    else EndCount(k, ops[..|ops| - 1]) + if Ends(Run(k, ops[..|ops| - 1]), ops[|ops| - 1]) then 1 else 0
  }

  /** Either untouched by terminate, or the count has wrapped below zero and come down from there. */
  ghost predicate CannotCreate(k: Kernel, ends: nat)
  {
    if ends == 0 then k.count == 0 && FindState(k.slots, Terminated).None?
    else k.count == 0x1_0000_0000 - ends
  }

  lemma StepCannotCreate(k: Kernel, op: Op, ends: nat)
    requires CannotCreate(k, ends) && ends <= 0x1_0000_0000 - 256
    ensures CannotCreate(Step(k, op), if Ends(k, op) then ends + 1 else ends)
  {
    CreateTakes(k, if op.OpCreate? then op.entry else 0);
  }

  /**
    The zeroed table has no `Terminated` slot, and a terminate call makes the
    count wrap: from `init` no run, however long, creates a process before it
    has terminated slots 2^32 - 255 times.
   */
  lemma {:induction false} NothingIsCreatedAfterInit(m: Machine, ops: seq<Op>, entry: Word)
    requires EndCount(Zeroed(m), ops) <= 0x1_0000_0000 - 256
    ensures CannotCreate(Run(Zeroed(m), ops), EndCount(Zeroed(m), ops))
    ensures Create(Run(Zeroed(m), ops), entry) == (Run(Zeroed(m), ops), 0)
  {
    if ops != [] {
      NothingIsCreatedAfterInit(m, ops[..|ops| - 1], entry);
      StepCannotCreate(Run(Zeroed(m), ops[..|ops| - 1]), ops[|ops| - 1], EndCount(Zeroed(m), ops[..|ops| - 1]));
    }
    CreateTakes(Run(Zeroed(m), ops), entry);
  }

  /** Right after `init`: nothing changes but by terminating pid 0, for there is no other. */
  lemma StepAfterInit(m: Machine, op: Op)
    requires op.OpTerminate? ==> op.pid != 0
    ensures Step(Zeroed(m), op) == Zeroed(m)
  {
    var k := Zeroed(m);
    assert FindState(k.slots, Terminated).None?;
    if op.OpTerminate? {
      assert FindPid(k.slots, op.pid).None?;
    }
  }

  /**
    From `init`, creations, schedules, exits and forks, in any order and
    however many, leave the kernel as it was: nothing runs.
   */
  lemma {:induction false} NothingRunsAfterInit(m: Machine, ops: seq<Op>)
    requires forall a :: 0 <= a < |ops| && ops[a].OpTerminate? ==> ops[a].pid != 0
    ensures Run(Zeroed(m), ops) == Zeroed(m)
  {
    if ops != [] {
      NothingRunsAfterInit(m, ops[..|ops| - 1]);
      StepAfterInit(m, ops[|ops| - 1]);
    }
  }

  lemma {:induction false} TerminatingZero(m: Machine, n: nat)
    requires !m.halted && 0 < n < 0x1_0000_0000
    ensures var k := Run(Zeroed(m), seq(n, _ => OpTerminate(0)));
      k == Zeroed(m).(slots := SetState(Zeroed(m).slots, 0, Terminated), count := 0x1_0000_0000 - n)
  {
    var ops := seq(n, _ => OpTerminate(0));
    assert ops[..n - 1] == seq(n - 1, _ => OpTerminate(0));
    if n == 1 {
      assert Run(Zeroed(m), ops[..0]) == Zeroed(m);
    } else {
      TerminatingZero(m, n - 1);
    }
  }

  /** And not later: one more termination brings the count below 256, and creation fills in slot 0. */
  lemma WrappedCountOpensTable(m: Machine, entry: Word)
    requires !m.halted
    ensures var ops := seq(0x1_0000_0000 - 255, _ => OpTerminate(0));
      Claims(Run(Zeroed(m), ops), OpCreate(entry)) && ClaimedSlot(Run(Zeroed(m), ops)) == Some(0)
  {
    TerminatingZero(m, 0x1_0000_0000 - 255);
  }

  /** The slot that a creation would fill in. */
  function ClaimedSlot(k: Kernel): Option<Index>
  {
    if k.count < 256 then FindState(k.slots, Terminated) else None
  }

  /**
    A fork whose creation fails reports -1 only if no slot will hold pid 0;
    otherwise it returns 0, the value a child expects.  The slot it fills in
    gets the next pid, the others keep theirs.
   */
  lemma FailedForkReturns(k: Kernel)
    requires k.current.Some?
    ensures Create(k, 0).1 == 0 ==>
      (Fork(k).1 == -1 <==>
         && (forall i: Index :: Some(i) != ClaimedSlot(k) ==> k.slots[i].pid != 0)
         && (ClaimedSlot(k).Some? ==> k.nextPid != 0))
    ensures Create(k, 0).1 == 0 ==> Fork(k).1 == -1 || Fork(k).1 == 0
  {
    FailedForkLooksUpZero(k);
    ClaimedPids(k);
  }

  lemma FailedForkLooksUpZero(k: Kernel)
    requires k.current.Some?
    ensures Create(k, 0).1 == 0 ==> Fork(k).1 == if FindPid(Create(k, 0).0.slots, 0).None? then -1 else 0
  {
  }

  /** The pids in the table after a creation. */
  lemma ClaimedPids(k: Kernel)
    ensures forall i: Index ::
      Create(k, 0).0.slots[i].pid == (if Some(i) == ClaimedSlot(k) then k.nextPid else k.slots[i].pid)
  {
    CreateTakes(k, 0);
  }

  /** It does happen: terminate pid 0, schedule and fork, right after `init`. */
  lemma ForkAfterInitReturnsZero(m: Machine)
    requires !m.halted
    ensures var k := Run(Zeroed(m), [OpTerminate(0), OpSchedule]);
      k.current.Some? && Create(k, 0).1 == 0 && Fork(k).1 == 0
  {
    var ops := [OpTerminate(0), OpSchedule];
    var k0 := Zeroed(m);
    var k1 := Terminate(k0, 0).0;
    assert ops[..1] == [OpTerminate(0)] && [OpTerminate(0)][..0] == [];
    assert Run(k0, []) == k0;
    assert Run(k0, [OpTerminate(0)]) == k1;
    assert k1.slots[0].state == Terminated && k1.slots[1].state == Ready && k1.count == 0xFFFF_FFFF;
    var k2 := Schedule(k1);
    assert Run(k0, ops) == k2;
    assert FindState(k1.slots, Ready) == Some(1);
    assert k2.slots[0].pid == 0;
    FailedForkReturns(k2);
  }

  /** Without a current process fork returns -1 and does nothing; with one it does what a creation does. */
  lemma ForkIsCreate(k: Kernel)
    ensures k.current.None? ==> Fork(k) == (k, -1)
    ensures k.current.Some? ==> Fork(k).0 == Create(k, 0).0
  {
  }

  /** A successful fork returns the new process's pid, as a signed 32-bit number. */
  lemma ForkReturnsChild(k: Kernel)
    requires k.current.Some? && Create(k, 0).1 != 0
    ensures Create(k, 0).1 == k.nextPid
    ensures -0x8000_0000 <= Fork(k).1 < 0x8000_0000
    ensures Fork(k).1 == k.nextPid || Fork(k).1 == k.nextPid - 0x1_0000_0000
  {
    CreateTakes(k, 0);
    var i := FindState(k.slots, Terminated).value;
    AllocateMemoryTable(Claim(k, i, 0), k.nextPid, FOUR_MIB);
    assert Create(k, 0).1 == k.nextPid;
    assert FindPid(Create(k, 0).0.slots, k.nextPid).Some?;
  }
}
