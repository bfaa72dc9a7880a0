/**
  Giving pages to processes (`kernel/process.cpp`) on tables as `init` leaves
  them, wherever these lie: no call faults, and a creation gets its page
  exactly when one is free.  The reason is an invariant of the page tables
  that does not care which page 4 MiB leads to.
 */
module Granting {
  import opened Options
  import opened PageSet
  import opened Paging
  import opened Processes
  import opened Words
  import Ownership

  /** Tables as `init` builds them, on a running machine. */
  ghost predicate Started(m: Machine)
  {
    Ownership.Booted(m) && !m.halted
  }

  /** Where a page may lead: to itself, or out of the directory and the tables of `m0`. */
  ghost predicate Tame(m0: Machine, page: Frame, f: Frame)
  {
    f == page || !IsStructure(m0.cells, m0.dir, f)
  }

  /** The directory is as `m0` has it, and every page is mapped, tamely. */
  ghost predicate Anchored(m0: Machine, m: Machine)
  {
    && m == m0.(used := m.used, cells := m.cells) && m0.used <= m.used
    && (forall i: Slot :: m.cells[Cell(m0.dir, i)] == m0.cells[Cell(m0.dir, i)])
    && (forall page: Frame :: Walk(m.cells, m0.dir, page).Some? && Tame(m0, page, Walk(m.cells, m0.dir, page).value))
  }

  lemma StartIsAnchored(m: Machine)
    requires Started(m)
    ensures Anchored(m, m)
  {
  }

  // ------------------------------------------------------------ single accesses ---

  /** Which entry a page's translation depends on. */
  lemma EntryOf(m0: Machine, m: Machine, page: Frame)
    requires Started(m0) && Anchored(m0, m)
    ensures var e := m.cells[Cell(Table(m0.cells, m0.dir, page / 1024), page % 1024)];
      e.present && Walk(m.cells, m0.dir, page) == Some(e.frame)
  {
    assert m.cells[Cell(m0.dir, page / 1024)] == m0.cells[Cell(m0.dir, page / 1024)];
    assert Walk(m.cells, m0.dir, page).Some?;
  }

  /** What a store outside the directory does to one page. */
  lemma StoreWalks(m0: Machine, m: Machine, g: Frame, j: Slot, e: Entry, page: Frame)
    requires Started(m0) && Anchored(m0, m) && g != m0.dir && e.present
    ensures Walk(m.cells[Cell(g, j) := e], m0.dir, page)
         == if g == Table(m0.cells, m0.dir, page / 1024) && j == page % 1024 then Some(e.frame)
            else Walk(m.cells, m0.dir, page)
  {
    EntryOf(m0, m, page);
    CellInjective(g, j, m0.dir, page / 1024);
    CellInjective(g, j, Table(m0.cells, m0.dir, page / 1024), page % 1024);
    assert m.cells[Cell(m0.dir, page / 1024)] == m0.cells[Cell(m0.dir, page / 1024)];
  }

  /** Pointing an entry of another frame than the directory to an ordinary frame. */
  lemma StoreKeepsAnchored(m0: Machine, m: Machine, g: Frame, j: Slot, e: Entry)
    requires Started(m0) && Anchored(m0, m) && g != m0.dir && e.present
    requires !IsStructure(m0.cells, m0.dir, g) || !IsStructure(m0.cells, m0.dir, e.frame)
    ensures Anchored(m0, m.(cells := m.cells[Cell(g, j) := e]))
  {
    var cells' := m.cells[Cell(g, j) := e];
    forall i: Slot
      ensures cells'[Cell(m0.dir, i)] == m0.cells[Cell(m0.dir, i)]
    {
      CellInjective(g, j, m0.dir, i);
    }
    forall page: Frame
      ensures Walk(cells', m0.dir, page).Some? && Tame(m0, page, Walk(cells', m0.dir, page).value)
    {
      StoreWalks(m0, m, g, j, e, page);
      assert Walk(m.cells, m0.dir, page).Some? && Tame(m0, page, Walk(m.cells, m0.dir, page).value);
    }
  }

  lemma AnchoredReach(m0: Machine, m: Machine, page: Frame)
    requires Started(m0) && Anchored(m0, m)
    ensures Reach(m, page).Some? && Tame(m0, page, Reach(m, page).value)
  {
    assert Walk(m.cells, m0.dir, page).Some? && Tame(m0, page, Walk(m.cells, m0.dir, page).value);
  }

  /** Nothing but a directory at its own address leads into the directory. */
  lemma WriteKeepsAnchored(m0: Machine, m: Machine, t: Frame, j: Slot, f: Frame)
    requires Started(m0) && Anchored(m0, m) && !IsStructure(m0.cells, m0.dir, f)
    requires t != m0.dir || Reach(m, m0.dir) != Some(m0.dir)
    ensures Anchored(m0, WriteEntry(m, t, j, f))
  {
    AnchoredReach(m0, m, t);
    var g := Reach(m, t).value;
    StoreKeepsAnchored(m0, m, g, j, Point(m.cells[Cell(g, j)], f));
  }

  // -------------------------------------------------------------- one more page ---

  lemma NewFrameIsOrdinary(m0: Machine, m: Machine)
    requires Started(m0) && m0.used <= m.used
    ensures !IsStructure(m0.cells, m0.dir, NextFrame(m.used, m.total))
  {
  }

  /** The branch that enters a new table: it is entered beside the directory, never in it. */
  lemma CreateTableKeepsAnchored(m0: Machine, m: Machine, d: Frame, i: Slot)
    requires Started(m0) && Anchored(m0, m) && Reach(m, m0.dir) == Some(d) && !m.cells[Cell(d, i)].present
    ensures Anchored(m0, CreateTable(m, d, i))
  {
    AnchoredReach(m0, m, m0.dir);
    assert d != m0.dir by {
      assert KernelEntry(m0.cells[Cell(m0.dir, i)]) && m.cells[Cell(m0.dir, i)] == m0.cells[Cell(m0.dir, i)];
    }
    NewFrameIsOrdinary(m0, m);
    StoreKeepsAnchored(m0, m, d, i, Point(m.cells[Cell(d, i)], NextFrame(m.used, m.total)));
  }

  /** Mapping an ordinary frame, at any address. */
  lemma MapKeepsAnchored(m0: Machine, m: Machine, phys: Addr, virt: Addr)
    requires Started(m0) && Anchored(m0, m) && !IsStructure(m0.cells, m0.dir, phys / 4096)
    ensures Anchored(m0, MapPage(m, phys, virt))
  {
    var i: Slot, j: Slot := virt / 4096 / 1024, virt / 4096 % 1024;
    AnchoredReach(m0, m, m0.dir);
    var d := Reach(m, m0.dir).value;
    var pde := m.cells[Cell(d, i)];
    if !pde.present {
      CreateTableKeepsAnchored(m0, m, d, i);
      NewFrameIsOrdinary(m0, m);
      WriteKeepsAnchored(m0, CreateTable(m, d, i), NextFrame(m.used, m.total), j, phys / 4096);
    } else {
      if d == m0.dir {
        assert pde == m0.cells[Cell(m0.dir, i)];
        assert Table(m0.cells, m0.dir, i) != m0.dir;
      }
      WriteKeepsAnchored(m0, m, pde.frame, j, phys / 4096);
    }
  }

  lemma TakingKeepsAnchored(m0: Machine, m: Machine)
    requires Started(m0) && Anchored(m0, m)
    ensures Anchored(m0, m.(used := UsedAfterAlloc(m.used, m.total)))
  {
  }

  /** A page is granted exactly when one is free; whatever happens, the tables stay anchored. */
  lemma GrantIff(m0: Machine, m: Machine, virt: Word)
    requires Started(m0) && Anchored(m0, m)
    ensures Grant(m, virt).1 <==> FreePages(m.used, m.total) != {}
    ensures Anchored(m0, Grant(m, virt).0)
  {
    NewFrameIsOrdinary(m0, m);
    TakingKeepsAnchored(m0, m);
    MapKeepsAnchored(m0, m.(used := UsedAfterAlloc(m.used, m.total)), PageAddr(NextFrame(m.used, m.total)), virt);
    NullIffExhausted(m.used, m.total);
  }

  // ------------------------------------------------------------------- creation ---

  /** Whether `create_process` gets past its checks and has a page to take. */
  ghost predicate CanCreate(k: Kernel)
  {
    k.count < 256 && FindState(k.slots, Terminated).Some? && FreePages(k.m.used, k.m.total) != {}
  }

  /** A slot that is filled in gets memory exactly when a page is free. */
  lemma ClaimIsGrantedIff(m0: Machine, k: Kernel, i: Index, entry: Word)
    requires Started(m0) && Anchored(m0, k.m)
    ensures var (k1, ok) := AllocateMemory(Claim(k, i, entry), k.nextPid, FOUR_MIB);
      (ok <==> FreePages(k.m.used, k.m.total) != {}) && Anchored(m0, k1.m)
  {
    var k0 := Claim(k, i, entry);
    assert k0.slots[i].pid == k.nextPid;
    GrantIff(m0, k.m, k0.slots[FindPid(k0.slots, k.nextPid).value].memorySize);
  }

  /**
    On any table a creation succeeds exactly when count, slot and page allow;
    it returns the next pid, so that only a wrapped one reads as a failure.
   */
  lemma CreateSucceedsIff(m0: Machine, k: Kernel, entry: Word)
    requires Started(m0) && Anchored(m0, k.m)
    ensures Create(k, entry).1 == if CanCreate(k) then k.nextPid else 0
    ensures Create(k, entry).0.count == if CanCreate(k) then k.count + 1 else k.count
    ensures Anchored(m0, Create(k, entry).0.m)
  {
    if k.count < 256 && FindState(k.slots, Terminated).Some? {
      var i := FindState(k.slots, Terminated).value;
      ClaimIsGrantedIff(m0, k, i, entry);
      AllocateMemoryTable(Claim(k, i, entry), k.nextPid, FOUR_MIB);
    }
  }

  lemma StepKeepsAnchored(m0: Machine, k: Kernel, op: Op)
    requires Started(m0) && Anchored(m0, k.m)
    ensures Anchored(m0, Step(k, op).m)
  {
    if op.OpCreate? {
      CreateSucceedsIff(m0, k, op.entry);
    } else if op.OpFork? {
      CreateSucceedsIff(m0, k, 0);
    }
  }

  /**
    Whatever the process table holds and wherever `init` put the page tables:
    in no run does anything fault, the directory stays as it was, and no page
    leads into another page's directory or table.
   */
  lemma {:induction false} NoRunFaults(k: Kernel, ops: seq<Op>)
    requires Started(k.m)
    ensures Anchored(k.m, Run(k, ops).m) && !Run(k, ops).m.halted
  {
    if ops == [] {
      StartIsAnchored(k.m);
    } else {
      NoRunFaults(k, ops[..|ops| - 1]);
      StepKeepsAnchored(k.m, Run(k, ops[..|ops| - 1]), ops[|ops| - 1]);
    }
  }
}
