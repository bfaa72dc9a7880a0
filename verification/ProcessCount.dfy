/**
  When `process_count` of `kernel/process.cpp` is the number of slots in use:
  the exact condition on each step, and on whole runs.
 */
module ProcessCount {
  import opened Options
  import opened PageSet
  import opened Paging
  import opened Processes
  import opened Words
  import opened Granting

  function LiveSlots(slots: Slots): set<nat>
  {
    set i: nat | i < 256 && slots[i].state != Terminated
  }

  /** The count is the number of slots in use. */
  ghost predicate Counted(k: Kernel)
  {
    k.count == |LiveSlots(k.slots)|
  }

  /** If a slot has the pid, the one that `terminate_process` will find is in use. */
  predicate FindsLive(k: Kernel, pid: Word)
  {
    FindPid(k.slots, pid).Some? ==> k.slots[FindPid(k.slots, pid).value].state != Terminated
  }

  /**
    A slot that is filled in gets a page, the slot that is found to be
    terminated is in use, and `schedule` does not switch away from an exited
    process.
   */
  ghost predicate Orderly(k: Kernel, op: Op)
  {
    match op
    case OpCreate(_) => Claims(k, op) ==> FreePages(k.m.used, k.m.total) != {}
    case OpFork => Claims(k, op) ==> FreePages(k.m.used, k.m.total) != {}
    case OpTerminate(pid) => FindsLive(k, pid)
    case OpSchedule =>
      k.count != 0 && FindState(k.slots, Ready).Some? && k.current.Some? ==>
        k.slots[k.current.value].state != Terminated
    case OpExit => k.current.Some? ==> FindsLive(k, k.slots[k.current.value].pid)
  }

  // ------------------------------------------------------------------ one step ---

  lemma OneMoreLive(slots: Slots, i: Index, slots': Slots)
    requires slots[i].state == Terminated && slots'[i].state != Terminated
    requires forall j: Index :: j != i ==> slots'[j].state == slots[j].state
    ensures |LiveSlots(slots')| == |LiveSlots(slots)| + 1
  {
    assert LiveSlots(slots') == LiveSlots(slots) + {i};
  }

  lemma OneFewerLive(slots: Slots, i: Index)
    requires slots[i].state != Terminated
    ensures |LiveSlots(SetState(slots, i, Terminated))| == |LiveSlots(slots)| - 1
  {
    assert LiveSlots(SetState(slots, i, Terminated)) == LiveSlots(slots) - {i};
  }

  lemma SameLive(slots: Slots, slots': Slots)
    requires forall i: Index :: slots'[i].state == Terminated <==> slots[i].state == Terminated
    ensures LiveSlots(slots') == LiveSlots(slots)
  {
  }

  lemma FullTable(slots: Slots)
    ensures FindState(slots, Terminated).None? ==> |LiveSlots(slots)| == 256
  {
    PagesBelowSize(256);
    if FindState(slots, Terminated).None? {
      assert LiveSlots(slots) == PagesBelow(256);
    }
  }

  lemma TerminateCountsIff(k: Kernel, pid: Word)
    requires Counted(k)
    ensures Counted(Terminate(k, pid).0) <==> FindsLive(k, pid)
  {
    var i := FindPid(k.slots, pid);
    if i.Some? {
      if k.slots[i.value].state != Terminated {
        OneFewerLive(k.slots, i.value);
      } else {
        SameLive(k.slots, Terminate(k, pid).0.slots);
      }
    }
  }

  lemma OrderlyScheduleCounts(k: Kernel)
    requires Counted(k) && Orderly(k, OpSchedule)
    ensures Counted(Schedule(k))
  {
    SameLive(k.slots, Schedule(k).slots);
  }

  lemma RevivalMiscounts(k: Kernel)
    requires Counted(k) && !Orderly(k, OpSchedule)
    ensures !Counted(Schedule(k))
  {
    var c, k' := k.current.value, Schedule(k);
    ScheduleRevivesIff(k, c);
    assert k'.count == k.count;
    assert forall i: Index :: i != c ==> (k'.slots[i].state == Terminated <==> k.slots[i].state == Terminated);
    assert LiveSlots(k'.slots) == LiveSlots(k.slots) + {c as nat};
  }

  lemma ScheduleCountsIff(k: Kernel)
    requires Counted(k)
    ensures Counted(Schedule(k)) <==> Orderly(k, OpSchedule)
  {
    if Orderly(k, OpSchedule) {
      OrderlyScheduleCounts(k);
    } else {
      RevivalMiscounts(k);
    }
  }

  /** A slot that is filled in is in use from then on, but counted only if it gets a page. */
  lemma CreateCountsIff(m0: Machine, k: Kernel, entry: Word)
    requires Started(m0) && Anchored(m0, k.m) && Counted(k)
    ensures Counted(Create(k, entry).0)
       <==> (k.count < 256 && FindState(k.slots, Terminated).Some? ==> FreePages(k.m.used, k.m.total) != {})
  {
    CreateTakes(k, entry);
    CreateSucceedsIff(m0, k, entry);
    if k.count < 256 && FindState(k.slots, Terminated).Some? {
      OneMoreLive(k.slots, FindState(k.slots, Terminated).value, Create(k, entry).0.slots);
    }
  }

  /**
    A step on any table with a right count, whatever pids it holds and
    wherever the page tables lie, keeps the count right exactly if it is
    orderly.
   */
  lemma StepCountsIff(m0: Machine, k: Kernel, op: Op)
    requires Started(m0) && Anchored(m0, k.m) && Counted(k)
    ensures Counted(Step(k, op)) <==> Orderly(k, op)
  {
    match op
    case OpTerminate(pid) => TerminateCountsIff(k, pid);
    case OpSchedule => ScheduleCountsIff(k);
    case OpExit =>
      if k.current.Some? {
        TerminateCountsIff(k, k.slots[k.current.value].pid);
      }
    case OpCreate(entry) => CreateCountsIff(m0, k, entry);
    case OpFork => CreateCountsIff(m0, k, 0);
  }

  // ---------------------------------------------------------------------- runs ---

  ghost predicate OrderlyRun(k: Kernel, ops: seq<Op>)
  {
    ops == [] || (OrderlyRun(k, ops[..|ops| - 1]) && Orderly(Run(k, ops[..|ops| - 1]), ops[|ops| - 1]))
  }

  lemma RunStepCountsIff(k: Kernel, ops: seq<Op>)
    requires Started(k.m) && ops != [] && Counted(Run(k, ops[..|ops| - 1]))
    ensures Counted(Run(k, ops)) <==> Orderly(Run(k, ops[..|ops| - 1]), ops[|ops| - 1])
  {
    NoRunFaults(k, ops[..|ops| - 1]);
    StepCountsIff(k.m, Run(k, ops[..|ops| - 1]), ops[|ops| - 1]);
  }

  lemma {:induction false} OrderlyRunCounts(k: Kernel, ops: seq<Op>)
    requires Started(k.m) && Counted(k) && OrderlyRun(k, ops)
    ensures Counted(Run(k, ops))
  {
    if ops != [] {
      OrderlyRunCounts(k, ops[..|ops| - 1]);
      RunStepCountsIff(k, ops);
    }
  }

  lemma {:induction false} OrderlyPrefix(k: Kernel, ops: seq<Op>, n: nat)
    requires OrderlyRun(k, ops) && n <= |ops|
    ensures OrderlyRun(k, ops[..n])
  {
    if n < |ops| {
      OrderlyPrefix(k, ops[..|ops| - 1], n);
      assert ops[..|ops| - 1][..n] == ops[..n];
    } else {
      assert ops[..n] == ops;
    }
  }

  lemma {:induction false} DisorderMiscounts(k: Kernel, ops: seq<Op>) returns (n: nat)
    requires Started(k.m) && Counted(k) && !OrderlyRun(k, ops)
    ensures n <= |ops| && !Counted(Run(k, ops[..n]))
  {
    var init := ops[..|ops| - 1];
    if OrderlyRun(k, init) {
      OrderlyRunCounts(k, init);
      RunStepCountsIff(k, ops);
      n := |ops|;
      assert ops[..n] == ops;
    } else {
      n := DisorderMiscounts(k, init);
      assert init[..n] == ops[..n];
    }
  }

  /**
    From any table with a right count `process_count` is the number of slots
    in use throughout a run, of any length, exactly if the run is orderly.
   */
  lemma CountIsExactIff(k: Kernel, ops: seq<Op>)
    requires Started(k.m) && Counted(k)
    ensures (forall n :: 0 <= n <= |ops| ==> Counted(Run(k, ops[..n]))) <==> OrderlyRun(k, ops)
  {
    if OrderlyRun(k, ops) {
      forall n | 0 <= n <= |ops|
        ensures Counted(Run(k, ops[..n]))
      {
        OrderlyPrefix(k, ops, n);
        OrderlyRunCounts(k, ops[..n]);
      }
    } else {
      var n := DisorderMiscounts(k, ops);
    }
  }

  /** The empty table is such a table; the zeroed one of `init`, with 256 slots in use and a count of 0, is not. */
  lemma StartCounts(m: Machine)
    ensures Counted(Vacant(m)) && !Counted(Zeroed(m))
  {
    assert LiveSlots(Vacant(m).slots) == {};
    assert FindState(Zeroed(m).slots, Terminated).None?;
    FullTable(Zeroed(m).slots);
  }

  /** So in orderly runs the check after the slot search never fires. */
  lemma SlotSearchNeverFails(k: Kernel, ops: seq<Op>)
    requires Started(k.m) && Counted(k) && OrderlyRun(k, ops)
    ensures Run(k, ops).count < 256 ==> FindState(Run(k, ops).slots, Terminated).Some?
  {
    OrderlyRunCounts(k, ops);
    FullTable(Run(k, ops).slots);
  }
}
