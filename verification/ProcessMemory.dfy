/**
  Process creation (`kernel/process.cpp`) together with the page allocator and
  the page tables (`kernel/memory.cpp`): where 4 MiB ends up in a run, as long
  as creations reach the table that maps it.
 */
module ProcessMemory {
  import opened Options
  import opened PageSet
  import opened Paging
  import opened Processes
  import opened Words
  import opened Granting

  /** The page that every process's memory is mapped at: 4 MiB. */
  const HOME: Frame := 1024

  function Last(given: seq<Frame>): Frame
    requires given != []
  {
    given[|given| - 1]
  }

  /** Entry `j` of page `p`, read as a directory, leads to table `j`. */
  predicate LeadsTo(m: Machine, p: Frame, j: Slot)
  {
    m.cells[Cell(p, j)].present && m.cells[Cell(p, j)].frame == Table(m.cells, m.dir, j)
  }

  // ------------------------------------------------------------ memory in a run ---

  /** The identity, except that 4 MiB goes to the page given out last. */
  function Target(given: seq<Frame>, page: Frame): Frame
  {
    if page == HOME && given != [] then Last(given) else page
  }

  function HomeCells(m: Machine, given: seq<Frame>): Memory
  {
    if given == [] then m.cells else Remap(m.cells, m.dir, HOME, Last(given))
  }

  /** Of memory as it was at boot, exactly the entry for 4 MiB has been edited, for the latest page. */
  ghost predicate Mapped(m0: Machine, m: Machine, given: seq<Frame>)
  {
    m == m0.(used := m.used, cells := HomeCells(m0, given))
  }

  /** `given` are ascending pages that `m0` had free, and all that is missing now. */
  ghost predicate Consumed(m0: Machine, m: Machine, given: seq<Frame>)
  {
    && 0 in m.used && m0.used <= m.used
    && (forall x, y :: 0 <= x < y < |given| ==> given[x] < given[y])
    && (forall x :: 0 <= x < |given| ==> given[x] in m.used && given[x] in FreePages(m0.used, m0.total))
    && (forall x, q: nat :: 0 <= x < |given| && q in FreePages(m.used, m0.total) ==> given[x] < q)
    && |FreePages(m.used, m0.total)| + |given| == |FreePages(m0.used, m0.total)|
  }

  lemma ConsumeOne(m0: Machine, m: Machine, given: seq<Frame>)
    requires m.total == m0.total && Consumed(m0, m, given) && FreePages(m.used, m.total) != {}
    ensures Consumed(m0, m.(used := UsedAfterAlloc(m.used, m.total)), given + [NextFrame(m.used, m.total)])
    ensures NextFrame(m.used, m.total) != 0
  {
    AllocTakesOne(m.used, m.total);
  }

  lemma GivenIsOrdinary(m0: Machine, m: Machine, given: seq<Frame>)
    requires Started(m0) && Consumed(m0, m, given) && given != []
    ensures !IsStructure(m0.cells, m0.dir, Last(given))
  {
  }

  /** What the edited memory translates, and that its tables are where they were. */
  lemma MappedTables(m0: Machine, m: Machine, given: seq<Frame>)
    requires Started(m0) && Mapped(m0, m, given)
    ensures WellFormed(m.cells, m.dir)
    ensures forall i: Slot :: Table(m.cells, m.dir, i) == Table(m0.cells, m.dir, i)
    ensures forall page: Frame :: Walk(m.cells, m.dir, page) == Some(Target(given, page))
  {
    if given != [] {
      RemapKeepsDirectory(m0.cells, m0.dir, HOME, Last(given));
      RemapWellFormed(m0.cells, m0.dir, HOME, Last(given));
      forall page: Frame
        ensures Walk(m.cells, m.dir, page) == Some(Target(given, page))
      {
        RemapOnePage(m0.cells, m0.dir, HOME, Last(given), page);
      }
    }
  }

  /** Frames other than table 1's hold what they held at boot. */
  lemma OtherFramesKept(m0: Machine, m: Machine, given: seq<Frame>, g: Frame, j: Slot)
    requires Mapped(m0, m, given) && g != Table(m0.cells, m0.dir, 1)
    ensures m.cells[Cell(g, j)] == m0.cells[Cell(g, j)]
  {
    CellInjective(g, j, Table(m0.cells, m0.dir, 1), 0);
  }

  // -------------------------------------------------------------- one more process ---

  /** Whether the call for the next process reaches table 1. */
  ghost predicate Open(m: Machine, given: seq<Frame>)
  {
    given == [] || (Table(m.cells, m.dir, 1) != HOME && (m.dir == HOME ==> LeadsTo(m, Last(given), 1)))
  }

  lemma EditAgain(m0: Machine, m: Machine, given: seq<Frame>, p: Frame)
    requires Mapped(m0, m, given)
    ensures var c := Cell(Table(m0.cells, m0.dir, 1), 0);
      m.cells[c := Point(m.cells[c], p)] == HomeCells(m0, given + [p])
  {
    var c := Cell(Table(m0.cells, m0.dir, 1), 0);
    assert Point(m.cells[c], p) == Point(m0.cells[c], p);
    assert m.cells[c := Point(m.cells[c], p)] == m0.cells[c := Point(m0.cells[c], p)];
  }

  lemma TableReached(m0: Machine, m: Machine, given: seq<Frame>)
    requires Started(m0) && Mapped(m0, m, given) && Open(m0, given)
    requires given != [] ==> !IsStructure(m0.cells, m0.dir, Last(given))
    ensures var d := Reach(m, m.dir);
      && d.Some? && m.cells[Cell(d.value, 1)].present
      && m.cells[Cell(d.value, 1)].frame == Table(m0.cells, m0.dir, 1)
      && Reach(m, Table(m0.cells, m0.dir, 1)) == Some(Table(m0.cells, m0.dir, 1))
  {
    MappedTables(m0, m, given);
    var t := Table(m0.cells, m0.dir, 1);
    assert Walk(m.cells, m.dir, m.dir) == Some(Target(given, m.dir));
    assert Walk(m.cells, m.dir, t) == Some(Target(given, t));
    assert Table(m.cells, m.dir, 1) == t && m.cells[Cell(m.dir, 1)].present;
    if given != [] && m.dir == HOME {
      assert Last(given) != t by {
        assert IsStructure(m0.cells, m0.dir, t);
      }
      OtherFramesKept(m0, m, given, Last(given), 1);
    }
  }

  /** A mapping at 4 MiB that finds an entry 1 is one write and takes no page. */
  lemma FoundEntryWrites(m: Machine, d: Frame, g: Frame, p: Frame)
    requires m.paging && Walk(m.cells, m.dir, m.dir) == Some(d)
    requires m.cells[Cell(d, 1)].present && Walk(m.cells, m.dir, m.cells[Cell(d, 1)].frame) == Some(g)
    ensures MapPage(m, PageAddr(p), FOUR_MIB) == m.(cells := m.cells[Cell(g, 0) := Point(m.cells[Cell(g, 0)], p)])
  {
  }

  lemma MapHome(m0: Machine, m: Machine, given: seq<Frame>, p: Frame)
    requires Started(m0) && Mapped(m0, m, given) && Open(m0, given)
    requires given != [] ==> !IsStructure(m0.cells, m0.dir, Last(given))
    ensures MapPage(m, PageAddr(p), FOUR_MIB) == m.(cells := HomeCells(m0, given + [p]))
  {
    TableReached(m0, m, given);
    FoundEntryWrites(m, Reach(m, m.dir).value, Table(m0.cells, m0.dir, 1), p);
    EditAgain(m0, m, given, p);
  }

  lemma NoPageNoProcess(k: Kernel, entry: Word)
    requires FreePages(k.m.used, k.m.total) == {}
    ensures Create(k, entry).1 == 0 && Create(k, entry).0.m == k.m
  {
  }

  /** What a page takes from memory and where the tables stand in it. */
  ghost predicate Holds(m0: Machine, m: Machine, given: seq<Frame>)
  {
    Mapped(m0, m, given) && Consumed(m0, m, given)
  }

  lemma GrantPage(m0: Machine, m: Machine, given: seq<Frame>)
    requires Started(m0) && Holds(m0, m, given) && Open(m0, given) && FreePages(m.used, m.total) != {}
    ensures Grant(m, FOUR_MIB).1 && Grant(m, FOUR_MIB).0.used == UsedAfterAlloc(m.used, m.total)
    ensures Holds(m0, Grant(m, FOUR_MIB).0, given + [NextFrame(m.used, m.total)])
  {
    ConsumeOne(m0, m, given);
    if given != [] {
      GivenIsOrdinary(m0, m, given);
    }
    MapHome(m0, m.(used := UsedAfterAlloc(m.used, m.total)), given, NextFrame(m.used, m.total));
  }

  /** A creation that gets as far as memory is a grant at 4 MiB. */
  lemma CreateGrants(k: Kernel, entry: Word)
    requires PidsDistinct(k) && k.count < 256 && FindState(k.slots, Terminated).Some?
    ensures Create(k, entry).0.m == Grant(k.m, FOUR_MIB).0
    ensures Create(k, entry).1 != 0 <==> Grant(k.m, FOUR_MIB).1
  {
    var i := FindState(k.slots, Terminated).value;
    ClaimedSlotIsFound(k, i, entry);
    AllocateMemoryTable(Claim(k, i, entry), k.nextPid, FOUR_MIB);
  }

  /** Creation succeeds exactly when it can, and takes exactly the least free page. */
  lemma CreateConsumes(m0: Machine, k: Kernel, entry: Word, given: seq<Frame>)
    requires Started(m0) && Holds(m0, k.m, given)
    requires FreePages(k.m.used, k.m.total) != {} ==> Open(m0, given) && PidsDistinct(k)
    ensures Create(k, entry).1 != 0 <==> CanCreate(k)
    ensures Holds(m0, Create(k, entry).0.m, if CanCreate(k) then given + [NextFrame(k.m.used, k.m.total)] else given)
  {
    if FreePages(k.m.used, k.m.total) == {} {
      NoPageNoProcess(k, entry);
    } else if CanCreate(k) {
      CreateGrants(k, entry);
      GrantPage(m0, k.m, given);
    }
  }

  // --------------------------------------------------------------- theorem on runs ---

  /** Whether a step creates a process, directly or by fork. */
  ghost predicate Creates(k: Kernel, op: Op)
  {
    !k.m.halted
    && match op
       case OpCreate(entry) => Create(k, entry).1 != 0
       case OpFork => k.current.Some? && Create(k, 0).1 != 0
       case _ => false
  }

  ghost function GivenBy(k: Kernel, op: Op, given: seq<Frame>): seq<Frame>
  {
    if Creates(k, op) then given + [NextFrame(k.m.used, k.m.total)] else given
  }

  /** The pages taken by the creations of a run, in order. */
  ghost function Given(k: Kernel, ops: seq<Op>): seq<Frame>
  {
    if ops == [] then []
    else GivenBy(Run(k, ops[..|ops| - 1]), ops[|ops| - 1], Given(k, ops[..|ops| - 1]))
  }

  lemma OtherStepsKeepMemory(k: Kernel, op: Op)
    requires !op.OpCreate? && !(op.OpFork? && k.current.Some?)
    ensures Step(k, op).m == k.m && !Creates(k, op)
  {
  }

  lemma CreateStepConsumes(m0: Machine, k: Kernel, op: Op, given: seq<Frame>)
    requires Started(m0) && Holds(m0, k.m, given)
    requires FreePages(k.m.used, k.m.total) != {} ==> Open(m0, given) && PidsDistinct(k)
    requires op.OpCreate? || (op.OpFork? && k.current.Some?)
    ensures Creates(k, op) <==> CanCreate(k)
    ensures Step(k, op).m == Create(k, if op.OpCreate? then op.entry else 0).0.m
  {
    CreationStep(k, op);
    CreateConsumes(m0, k, if op.OpCreate? then op.entry else 0, given);
  }

  lemma StepConsumes(m0: Machine, k: Kernel, op: Op, given: seq<Frame>)
    requires Started(m0) && Holds(m0, k.m, given)
    requires FreePages(k.m.used, k.m.total) != {} ==> Open(m0, given) && PidsDistinct(k)
    ensures Holds(m0, Step(k, op).m, GivenBy(k, op, given))
  {
    if op.OpCreate? || (op.OpFork? && k.current.Some?) {
      CreateStepConsumes(m0, k, op, given);
      CreateConsumes(m0, k, if op.OpCreate? then op.entry else 0, given);
    } else {
      OtherStepsKeepMemory(k, op);
    }
  }

  /**
    Creations alone keep reaching table 1: neither it nor the directory lies in
    the page at 4 MiB, or it does not matter, because there is at most one page
    to give out, or because the pages that will take the directory's place
    happen to lead to table 1.
   */
  ghost predicate Settled(m: Machine)
  {
    && (Table(m.cells, m.dir, 1) == HOME ==> |FreePages(m.used, m.total)| < 2)
    && (m.dir == HOME ==>
          forall p: Frame, q: nat :: p in FreePages(m.used, m.total) && q in FreePages(m.used, m.total) && p < q ==>
            LeadsTo(m, p, 1))
  }

  lemma SettledIsOpen(m0: Machine, m: Machine, given: seq<Frame>)
    requires Started(m0) && Settled(m0) && Holds(m0, m, given) && FreePages(m.used, m.total) != {}
    ensures Open(m0, given)
  {
    if given != [] {
      var q := NextPage(m.used, m.total);
      assert q in FreePages(m.used, m.total) && q in FreePages(m0.used, m0.total);
      assert Last(given) < q;
    }
  }

  /** While a page is free every slot filled in has got one, so `next_pid` counts the pages. */
  ghost predicate Numbered(k: Kernel, given: seq<Frame>)
  {
    FreePages(k.m.used, k.m.total) == {} || (PidsDistinct(k) && k.nextPid == |given| + 1)
  }

  lemma FewPages(m0: Machine, m: Machine, given: seq<Frame>)
    requires Consumed(m0, m, given)
    ensures |given| <= 0x10_0000
  {
    FreePlusUsed(m0.used, m0.total);
  }

  lemma NoPageComesBack(m0: Machine, k: Kernel, op: Op)
    requires Started(m0) && Anchored(m0, k.m) && FreePages(k.m.used, k.m.total) == {}
    ensures Step(k, op).m == k.m
  {
    if op.OpCreate? || (op.OpFork? && k.current.Some?) {
      NoPageNoProcess(k, if op.OpCreate? then op.entry else 0);
    } else {
      OtherStepsKeepMemory(k, op);
    }
  }

  lemma ClaimsCreate(m0: Machine, k: Kernel, op: Op)
    requires Started(m0) && Anchored(m0, k.m) && FreePages(k.m.used, k.m.total) != {} && k.nextPid != 0
    ensures Claims(k, op) <==> Creates(k, op)
  {
    if op.OpCreate? || (op.OpFork? && k.current.Some?) {
      CreateSucceedsIff(m0, k, if op.OpCreate? then op.entry else 0);
    } else {
      OtherStepsKeepMemory(k, op);
    }
  }

  lemma StepNumbers(m0: Machine, k: Kernel, op: Op, given: seq<Frame>)
    requires Started(m0) && Anchored(m0, k.m) && |given| <= 0x10_0000 && Numbered(k, given)
    ensures Numbered(Step(k, op), GivenBy(k, op, given))
  {
    if FreePages(k.m.used, k.m.total) == {} {
      NoPageComesBack(m0, k, op);
    } else {
      ClaimsCreate(m0, k, op);
      StepPidsDistinct(k, op);
    }
  }

  lemma {:induction false} RunHolds(m0: Machine, ops: seq<Op>)
    requires Started(m0) && Settled(m0)
    ensures Holds(m0, Run(Vacant(m0), ops).m, Given(Vacant(m0), ops))
    ensures Numbered(Run(Vacant(m0), ops), Given(Vacant(m0), ops))
  {
    if ops == [] {
      StartPidsDistinct(m0);
    } else {
      var n := |ops| - 1;
      RunHolds(m0, ops[..n]);
      var k, given := Run(Vacant(m0), ops[..n]), Given(Vacant(m0), ops[..n]);
      if FreePages(k.m.used, k.m.total) != {} {
        SettledIsOpen(m0, k.m, given);
      }
      StepConsumes(m0, k, ops[n], given);
      NoRunFaults(Vacant(m0), ops[..n]);
      FewPages(m0, k.m, given);
      StepNumbers(m0, k, ops[n], given);
    }
  }

  /**
    From an empty table, in every run, however long, of creations interleaved
    with terminate, schedule, exit and fork, 4 MiB translates to the page of
    the latest success and every other page to itself.
   */
  lemma CreationsMapHome(m0: Machine, ops: seq<Op>)
    requires Started(m0) && Settled(m0)
    ensures forall page: Frame ::
      Walk(Run(Vacant(m0), ops).m.cells, m0.dir, page) == Some(Target(Given(Vacant(m0), ops), page))
  {
    RunHolds(m0, ops);
    MappedTables(m0, Run(Vacant(m0), ops).m, Given(Vacant(m0), ops));
  }
}
