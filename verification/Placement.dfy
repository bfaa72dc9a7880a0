/**
  Where `init` (`kernel/memory.cpp`) puts the page tables decides what process
  creation (`kernel/process.cpp`) does to them, because every process is mapped
  at 4 MiB.  Here are the exact conditions: for 4 MiB to translate to the
  latest process in every run, and for later `map_page` calls to work.
 */
module Placement {
  import opened Options
  import opened PageSet
  import opened Paging
  import opened Processes
  import opened Words
  import opened Granting
  import opened ProcessMemory
  import Boot
  import Ownership

  // ------------------------------------------------------- writes that go astray ---

  /** At least one process has been created; nothing allocated has been freed. */
  ghost predicate Steady(m0: Machine, m: Machine, given: seq<Frame>)
  {
    && Mapped(m0, m, given) && given != [] && !IsStructure(m0.cells, m0.dir, Last(given))
    && 0 in m.used && m0.used <= m.used
  }

  lemma HoldsIsSteady(m0: Machine, m: Machine, given: seq<Frame>, more: set<nat>)
    requires Started(m0) && Holds(m0, m, given) && given != []
    ensures Steady(m0, m.(used := m.used + more), given)
  {
    GivenIsOrdinary(m0, m, given);
  }

  /** Table `i` lies at 4 MiB, which has been given to a process: the write lands in the process's page. */
  lemma TableAtHomeStrays(m0: Machine, m: Machine, given: seq<Frame>, call: Mapping)
    requires Started(m0) && Steady(m0, m, given)
    requires Table(m0.cells, m0.dir, call.virt / 4096 / 1024) == HOME
    ensures var m' := MapPage(m, call.phys, call.virt);
      m'.halted == m.halted && forall page: Frame :: Walk(m'.cells, m0.dir, page) == Walk(m.cells, m0.dir, page)
  {
    MappedTables(m0, m, given);
    var i: Slot, j: Slot, p := call.virt / 4096 / 1024, call.virt / 4096 % 1024, Last(given);
    assert Table(m.cells, m.dir, i) == HOME && m.cells[Cell(m.dir, i)].present;
    assert Walk(m.cells, m.dir, m.dir) == Some(m.dir);
    assert Walk(m.cells, m.dir, HOME) == Some(p);
    OrdinaryStays(m0, m, given, p);
    StoreOutside(m.cells, m.dir, p, j, Point(m.cells[Cell(p, j)], call.phys / 4096));
  }

  lemma OrdinaryStays(m0: Machine, m: Machine, given: seq<Frame>, f: Frame)
    requires Started(m0) && Mapped(m0, m, given) && !IsStructure(m0.cells, m0.dir, f)
    ensures !IsStructure(m.cells, m.dir, f)
  {
    MappedTables(m0, m, given);
  }

  /** A write into another frame than table `j`, not over directory entry `j`, leaves the page alone. */
  lemma StrayWrite(cells: Memory, dir: Frame, g: Frame, page: Frame, e: Entry)
    requires WellFormed(cells, dir) && g != Table(cells, dir, page / 1024) && page % 1024 != page / 1024
    ensures Walk(cells[Cell(g, page % 1024) := e], dir, page) == Walk(cells, dir, page)
  {
    CellInjective(g, page % 1024, dir, page / 1024);
    CellInjective(g, page % 1024, Table(cells, dir, page / 1024), page % 1024);
  }

  /** The directory lies at 4 MiB, and entry `j` of the process's page leads to another frame than table `j`. */
  lemma WrongEntryStrays(m0: Machine, m: Machine, given: seq<Frame>, call: Mapping)
    requires Started(m0) && Steady(m0, m, given) && m0.dir == HOME
    requires var j: Slot := call.virt / 4096 / 1024;
      && call.virt / 4096 % 1024 != j
      && m0.cells[Cell(Last(given), j)].present && !LeadsTo(m0, Last(given), j)
    ensures var m' := MapPage(m, call.phys, call.virt);
      m'.halted == m.halted && Walk(m'.cells, m0.dir, call.virt / 4096) == Walk(m.cells, m0.dir, call.virt / 4096)
  {
    MappedTables(m0, m, given);
    var page: Frame, p := call.virt / 4096, Last(given);
    var j: Slot := page / 1024;
    assert IsStructure(m0.cells, m0.dir, Table(m0.cells, m0.dir, 1)) && IsStructure(m0.cells, m0.dir, Table(m0.cells, m0.dir, j));
    OtherFramesKept(m0, m, given, p, j);
    var r := m0.cells[Cell(p, j)].frame;
    assert Walk(m.cells, m.dir, m.dir) == Some(p);
    assert Walk(m.cells, m.dir, r) == Some(Target(given, r));
    var g := Target(given, r);
    StrayWrite(m.cells, m.dir, g, page, Point(m.cells[Cell(g, page % 1024)], call.phys / 4096));
  }

  /** The directory lies at 4 MiB, and entry `j` of the process's page is absent: a table is created beside the tables. */
  lemma AbsentEntryStrays(m0: Machine, m: Machine, given: seq<Frame>, call: Mapping)
    requires Started(m0) && Steady(m0, m, given) && m0.dir == HOME
    requires !m0.cells[Cell(Last(given), call.virt / 4096 / 1024)].present
    ensures var m' := MapPage(m, call.phys, call.virt);
      m'.halted == m.halted && forall page: Frame :: Walk(m'.cells, m0.dir, page) == Walk(m.cells, m0.dir, page)
  {
    MappedTables(m0, m, given);
    var j: Slot, p := call.virt / 4096 / 1024, Last(given);
    assert IsStructure(m0.cells, m0.dir, Table(m0.cells, m0.dir, 1));
    OtherFramesKept(m0, m, given, p, j);
    assert Walk(m.cells, m.dir, m.dir) == Some(p);
    OrdinaryStays(m0, m, given, p);
    CreatedBeside(m0, m, given, p, j, call.virt / 4096 % 1024, call.phys / 4096);
  }

  /** The two writes of a table creation, both into frames outside the tables. */
  lemma TwoStoresOutside(cells: Memory, dir: Frame, p: Frame, j: Slot, e: Entry, q: Frame, o: Slot, e': Entry)
    requires WellFormed(cells, dir) && !IsStructure(cells, dir, p) && !IsStructure(cells, dir, q)
    ensures forall page: Frame :: Walk(cells[Cell(p, j) := e], dir, page) == Walk(cells, dir, page)
    ensures forall page: Frame :: Walk(cells[Cell(p, j) := e][Cell(q, o) := e'], dir, page) == Walk(cells, dir, page)
  {
    StoreOutside(cells, dir, p, j, e);
    var cells1 := cells[Cell(p, j) := e];
    forall i: Slot
      ensures Table(cells1, dir, i) != q
    {
      assert Table(cells1, dir, i) == Table(cells, dir, i);
    }
    StoreOutside(cells1, dir, q, o, e');
  }

  lemma CreatedBeside(m0: Machine, m: Machine, given: seq<Frame>, p: Frame, j: Slot, o: Slot, f: Frame)
    requires Started(m0) && Steady(m0, m, given) && m0.dir == HOME && !IsStructure(m.cells, m.dir, p)
    ensures var q := NextFrame(m.used, m.total);
      var m' := WriteEntry(CreateTable(m, p, j), q, o, f);
      m'.halted == m.halted && forall page: Frame :: Walk(m'.cells, m0.dir, page) == Walk(m.cells, m0.dir, page)
  {
    MappedTables(m0, m, given);
    NewFrameIsOrdinary(m0, m);
    var q := NextFrame(m.used, m.total);
    OrdinaryStays(m0, m, given, q);
    var m1 := CreateTable(m, p, j);
    TwoStoresOutside(m.cells, m.dir, p, j, Point(m.cells[Cell(p, j)], q), q, o, Point(m1.cells[Cell(q, o)], f));
    assert q != HOME;
    assert Walk(m.cells, m.dir, q) == Some(q);
    assert Reach(m1, q) == Some(q);
  }

  lemma DirectoryAtHomeStrays(m0: Machine, m: Machine, given: seq<Frame>, call: Mapping)
    requires Started(m0) && Steady(m0, m, given) && m0.dir == HOME
    requires call.virt / 4096 % 1024 != call.virt / 4096 / 1024
    requires !LeadsTo(m0, Last(given), call.virt / 4096 / 1024)
    ensures var m' := MapPage(m, call.phys, call.virt);
      m'.halted == m.halted && Walk(m'.cells, m0.dir, call.virt / 4096) == Walk(m.cells, m0.dir, call.virt / 4096)
  {
    if m0.cells[Cell(Last(given), call.virt / 4096 / 1024)].present {
      WrongEntryStrays(m0, m, given, call);
    } else {
      AbsentEntryStrays(m0, m, given, call);
    }
  }

  // ------------------------------------------ the latest process, in every run ---

  /** After the run 4 MiB translates to the page of the latest process. */
  ghost predicate HomeIsLatest(m: Machine, ops: seq<Op>)
  {
    Walk(Run(Vacant(m), ops).m.cells, m.dir, HOME) == Some(Target(Given(Vacant(m), ops), HOME))
  }

  /** What the construction below keeps of a run so far. */
  ghost predicate Reached(m: Machine, ops: seq<Op>)
  {
    var k, given := Run(Vacant(m), ops), Given(Vacant(m), ops);
    Holds(m, k.m, given) && PidsDistinct(k) && k.nextPid == |given| + 1
  }

  lemma NextMapStrays(m: Machine, m1: Machine, given: seq<Frame>, p: Frame)
    requires Started(m) && Steady(m, m1, given) && !Open(m, given)
    ensures var m2 := MapPage(m1, PageAddr(p), FOUR_MIB);
      m2.halted == m1.halted && Walk(m2.cells, m.dir, HOME) == Some(Last(given))
  {
    MappedTables(m, m1, given);
    assert Walk(m1.cells, m.dir, HOME) == Some(Last(given));
    var call := Mapping(PageAddr(p), FOUR_MIB);
    if Table(m.cells, m.dir, 1) == HOME {
      TableAtHomeStrays(m, m1, given, call);
    } else {
      DirectoryAtHomeStrays(m, m1, given, call);
    }
  }

  /** A process created when table 1 is out of reach: it is there, but 4 MiB stays where it was. */
  lemma NextCreationIsLost(m: Machine, k: Kernel, entry: Word, given: seq<Frame>)
    requires Started(m) && Holds(m, k.m, given) && PidsDistinct(k) && CanCreate(k) && !Open(m, given)
    ensures Create(k, entry).1 != 0
    ensures Walk(Create(k, entry).0.m.cells, m.dir, HOME) == Some(Last(given))
    ensures NextFrame(k.m.used, k.m.total) != Last(given)
  {
    CreateGrants(k, entry);
    ConsumeOne(m, k.m, given);
    var p := NextFrame(k.m.used, k.m.total);
    assert p in FreePages(k.m.used, k.m.total);
    HoldsIsSteady(m, k.m, given, {p as nat});
    NextMapStrays(m, k.m.(used := k.m.used + {p as nat}), given, p);
  }

  lemma RunSnoc(m: Machine, ops: seq<Op>, op: Op)
    ensures Run(Vacant(m), ops + [op]) == Step(Run(Vacant(m), ops), op)
    ensures Given(Vacant(m), ops + [op]) == GivenBy(Run(Vacant(m), ops), op, Given(Vacant(m), ops))
  {
    assert (ops + [op])[..|ops|] == ops;
  }

  /** No process is left. */
  ghost predicate Tidy(k: Kernel)
  {
    k.count == 0 && forall i: Index :: k.slots[i].state == Terminated
  }

  lemma StartIsReached(m: Machine)
    requires Started(m)
    ensures Reached(m, []) && Tidy(Run(Vacant(m), []))
  {
    StartPidsDistinct(m);
  }

  lemma ReachedCreation(m: Machine, ops: seq<Op>)
    requires Started(m) && Reached(m, ops) && Tidy(Run(Vacant(m), ops))
    requires FreePages(Run(Vacant(m), ops).m.used, m.total) != {} && Open(m, Given(Vacant(m), ops))
    ensures var k, k' := Run(Vacant(m), ops), Run(Vacant(m), ops + [OpCreate(0)]);
      && Reached(m, ops + [OpCreate(0)])
      && Given(Vacant(m), ops + [OpCreate(0)]) == Given(Vacant(m), ops) + [NextFrame(k.m.used, m.total)]
      && k'.count == 1 && FindState(k'.slots, Terminated).Some? && k' == Create(k, 0).0 && Create(k, 0).1 != 0
  {
    var k, given := Run(Vacant(m), ops), Given(Vacant(m), ops);
    RunSnoc(m, ops, OpCreate(0));
    assert k.slots[0].state == Terminated;
    CreateConsumes(m, k, 0, given);
    FewPages(m, k.m, given);
    ClaimPidsDistinct(k, 0);
    CreatedSlots(k, 0);
    AnotherSlotIsFree(k.slots, FindState(k.slots, Terminated).value, NewProcess(k.nextPid, 0));
  }

  lemma AnotherSlotIsFree(slots: Slots, i: Index, p: Process)
    requires forall j: Index :: slots[j].state == Terminated
    ensures FindState(slots[i := p], Terminated).Some?
  {
    var j: Index := if i == 0 then 1 else 0;
    assert slots[i := p][j].state == Terminated;
  }

  lemma ReachedTermination(m: Machine, ops: seq<Op>)
    requires Started(m) && Reached(m, ops) && Tidy(Run(Vacant(m), ops))
    requires FreePages(Run(Vacant(m), ops).m.used, m.total) != {} && Open(m, Given(Vacant(m), ops))
    ensures var k, ops' := Run(Vacant(m), ops), ops + [OpCreate(0)];
      var ops2 := ops' + [OpTerminate(k.nextPid)];
      && Reached(m, ops2) && Tidy(Run(Vacant(m), ops2))
      && Given(Vacant(m), ops2) == Given(Vacant(m), ops')
      && Run(Vacant(m), ops2).m == Run(Vacant(m), ops').m
  {
    ReachedCreation(m, ops);
    var k, ops' := Run(Vacant(m), ops), ops + [OpCreate(0)];
    var k1, op := Run(Vacant(m), ops'), OpTerminate(k.nextPid);
    RunSnoc(m, ops', op);
    CreatedProcessIsFound(k, 0);
    CreatedSlots(k, 0);
    OtherStepsKeepMemory(k1, op);
    StepPidsDistinct(k1, op);
  }

  /** A run that ends with page `p` given out, as long as the pages before it keep table 1 in reach. */
  lemma {:induction false} ReachPage(m: Machine, p: Frame, ops: seq<Op>) returns (ops': seq<Op>)
    requires Started(m) && Table(m.cells, m.dir, 1) != HOME
    requires Reached(m, ops) && Tidy(Run(Vacant(m), ops)) && p in FreePages(Run(Vacant(m), ops).m.used, m.total)
    requires forall q: Frame :: q in FreePages(m.used, m.total) && q < p && m.dir == HOME ==> LeadsTo(m, q, 1)
    ensures Reached(m, ops') && Given(Vacant(m), ops') != [] && Last(Given(Vacant(m), ops')) == p
    ensures var k := Run(Vacant(m), ops'); k.count == 1 && FindState(k.slots, Terminated).Some?
    decreases |FreePages(Run(Vacant(m), ops).m.used, m.total)|
  {
    var k, given := Run(Vacant(m), ops), Given(Vacant(m), ops);
    assert given != [] ==> Last(given) < p;
    ReachedCreation(m, ops);
    ops' := ops + [OpCreate(0)];
    var q := NextFrame(k.m.used, m.total);
    if q != p {
      ReachedTermination(m, ops);
      StillFree(m, ops, p);
      ops' := ReachPage(m, p, ops' + [OpTerminate(k.nextPid)]);
    }
  }

  /** A creation that takes another page leaves `p` free, and fewer pages than before. */
  lemma StillFree(m: Machine, ops: seq<Op>, p: Frame)
    requires Started(m) && Reached(m, ops) && Tidy(Run(Vacant(m), ops)) && Open(m, Given(Vacant(m), ops))
    requires p in FreePages(Run(Vacant(m), ops).m.used, m.total)
    requires NextFrame(Run(Vacant(m), ops).m.used, m.total) != p
    ensures var k' := Run(Vacant(m), ops + [OpCreate(0)]);
      && p in FreePages(k'.m.used, m.total)
      && |FreePages(k'.m.used, m.total)| < |FreePages(Run(Vacant(m), ops).m.used, m.total)|
  {
    var k := Run(Vacant(m), ops);
    ReachedCreation(m, ops);
    assert k.slots[0].state == Terminated;
    CreateGrants(k, 0);
    AllocTakesOne(k.m.used, m.total);
    GrantPage(m, k.m, Given(Vacant(m), ops));
  }

  /** One creation more and 4 MiB is not on the latest process. */
  lemma LostRun(m: Machine, ops: seq<Op>)
    requires Started(m) && Reached(m, ops) && CanCreate(Run(Vacant(m), ops)) && !Open(m, Given(Vacant(m), ops))
    ensures !HomeIsLatest(m, ops + [OpCreate(0)])
  {
    var k, given := Run(Vacant(m), ops), Given(Vacant(m), ops);
    RunSnoc(m, ops, OpCreate(0));
    NextCreationIsLost(m, k, 0, given);
  }

  lemma TableAtHomeFails(m: Machine) returns (ops: seq<Op>)
    requires Started(m) && Table(m.cells, m.dir, 1) == HOME && |FreePages(m.used, m.total)| >= 2
    ensures !HomeIsLatest(m, ops)
  {
    StartIsReached(m);
    ReachedCreation(m, []);
    ops := [] + [OpCreate(0)];
    LostRun(m, ops);
    ops := ops + [OpCreate(0)];
  }

  /** A page, not the last free one, through which table 1 would be missed. */
  ghost predicate Misleads(m: Machine, p: Frame, q: nat)
  {
    p in FreePages(m.used, m.total) && q in FreePages(m.used, m.total) && p < q && !LeadsTo(m, p, 1)
  }

  lemma {:induction false} FirstMisleading(m: Machine, p: Frame, q: nat) returns (p': Frame)
    requires Misleads(m, p, q)
    ensures Misleads(m, p', q)
    ensures forall r: Frame :: r in FreePages(m.used, m.total) && r < p' ==> LeadsTo(m, r, 1)
    decreases p
  {
    if r: Frame :| r in FreePages(m.used, m.total) && r < p && !LeadsTo(m, r, 1) {
      p' := FirstMisleading(m, r, q);
    } else {
      p' := p;
    }
  }

  lemma {:induction false} AscendingFits(s: seq<Frame>, pages: set<nat>)
    requires forall x, y :: 0 <= x < y < |s| ==> s[x] < s[y]
    requires forall x :: 0 <= x < |s| ==> s[x] in pages
    ensures |s| <= |pages|
  {
    if s != [] {
      var n := |s| - 1;
      AscendingFits(s[..n], pages - {s[n] as nat});
    }
  }

  lemma DirectoryAtHomeFails(m: Machine, p: Frame, q: nat) returns (ops: seq<Op>)
    requires Started(m) && m.dir == HOME && Misleads(m, p, q)
    ensures !HomeIsLatest(m, ops)
  {
    var first := FirstMisleading(m, p, q);
    StartIsReached(m);
    ops := ReachPage(m, first, []);
    PageIsLeft(m, Run(Vacant(m), ops).m, Given(Vacant(m), ops), q);
    LostRun(m, ops);
    ops := ops + [OpCreate(0)];
  }

  lemma PageIsLeft(m: Machine, m1: Machine, given: seq<Frame>, q: nat)
    requires Holds(m, m1, given) && given != [] && q in FreePages(m.used, m.total) && Last(given) < q
    ensures FreePages(m1.used, m.total) != {}
  {
    forall x | 0 <= x < |given|
      ensures given[x] in FreePages(m.used, m.total) - {q}
    {
      assert given[x] <= Last(given);
    }
    AscendingFits(given, FreePages(m.used, m.total) - {q});
  }

  /**
    4 MiB translates to the page of the latest process after every run exactly
    when neither table 1 nor the directory lies in page 1024, save for the two
    coincidences that `Settled` names.
   */
  lemma LatestProcessIff(m: Machine)
    requires Started(m)
    ensures (forall ops: seq<Op> :: HomeIsLatest(m, ops)) <==> Settled(m)
  {
    if Settled(m) {
      forall ops: seq<Op>
        ensures HomeIsLatest(m, ops)
      {
        CreationsMapHome(m, ops);
      }
    } else if Table(m.cells, m.dir, 1) == HOME && |FreePages(m.used, m.total)| >= 2 {
      var ops := TableAtHomeFails(m);
    } else {
      var p: Frame, q: nat :| p in FreePages(m.used, m.total) && q in FreePages(m.used, m.total) && p < q
        && !LeadsTo(m, p, 1);
      var ops := DirectoryAtHomeFails(m, p, q);
    }
  }

  /** With table 1 in page 1024 and two pages free, two processes are created and 4 MiB stays with the first. */
  lemma SecondProcessIsLost(m: Machine, e1: Word, e2: Word)
    requires Started(m) && Table(m.cells, m.dir, 1) == HOME && |FreePages(m.used, m.total)| >= 2
    ensures var k1 := Create(Vacant(m), e1).0;
      && Run(Vacant(m), [OpCreate(e1), OpCreate(e2)]) == Create(k1, e2).0
      && Create(Vacant(m), e1).1 == 1 && Create(k1, e2).1 == 2
      && Walk(k1.m.cells, m.dir, HOME) == Some(NextFrame(m.used, m.total))
      && Walk(Create(k1, e2).0.m.cells, m.dir, HOME) == Some(NextFrame(m.used, m.total))
  {
    TwoCreations(m, e1, e2);
    var k1 := Create(Vacant(m), e1).0;
    NextCreationIsLost(m, k1, e2, [NextFrame(m.used, m.total)]);
    CreatedSlots(k1, e2);
  }

  /** With the directory there, the second process gets 4 MiB exactly if entry 1 of the first's page leads to table 1. */
  lemma SecondProcessIff(m: Machine, e1: Word, e2: Word)
    requires Started(m) && m.dir == HOME && |FreePages(m.used, m.total)| >= 2
    ensures var k1 := Create(Vacant(m), e1).0;
      && Run(Vacant(m), [OpCreate(e1), OpCreate(e2)]) == Create(k1, e2).0
      && Create(Vacant(m), e1).1 == 1 && Create(k1, e2).1 == 2
      && (Walk(Create(k1, e2).0.m.cells, m.dir, HOME) == Some(NextFrame(k1.m.used, m.total))
          <==> LeadsTo(m, NextFrame(m.used, m.total), 1))
  {
    TwoCreations(m, e1, e2);
    var k1, given := Create(Vacant(m), e1).0, [NextFrame(m.used, m.total)];
    if LeadsTo(m, NextFrame(m.used, m.total), 1) {
      CreateConsumes(m, k1, e2, given);
      MappedTables(m, Create(k1, e2).0.m, given + [NextFrame(k1.m.used, m.total)]);
    } else {
      NextCreationIsLost(m, k1, e2, given);
    }
    CreatedSlots(k1, e2);
  }

  lemma TwoCreations(m: Machine, e1: Word, e2: Word)
    requires Started(m) && |FreePages(m.used, m.total)| >= 2
    ensures var k1, given := Create(Vacant(m), e1).0, [NextFrame(m.used, m.total)];
      && Run(Vacant(m), [OpCreate(e1), OpCreate(e2)]) == Create(k1, e2).0
      && Create(Vacant(m), e1).1 == 1 && Holds(m, k1.m, given) && PidsDistinct(k1) && k1.nextPid == 2
      && CanCreate(k1) && Walk(k1.m.cells, m.dir, HOME) == Some(NextFrame(m.used, m.total))
  {
    FirstCreation(m, e1);
    var k0 := Vacant(m);
    var ops := [OpCreate(e1), OpCreate(e2)];
    assert ops[..1] == [OpCreate(e1)] && [OpCreate(e1)][..0] == [];
    assert Run(k0, []) == k0;
    assert Run(k0, [OpCreate(e1)]) == Create(k0, e1).0;
  }

  lemma FirstCreation(m: Machine, e1: Word)
    requires Started(m) && FreePages(m.used, m.total) != {}
    ensures var k1, given := Create(Vacant(m), e1).0, [NextFrame(m.used, m.total)];
      && Create(Vacant(m), e1).1 == 1 && Holds(m, k1.m, given) && PidsDistinct(k1) && k1.nextPid == 2
      && k1.count == 1 && FindState(k1.slots, Terminated).Some?
      && Walk(k1.m.cells, m.dir, HOME) == Some(NextFrame(m.used, m.total))
  {
    FirstPage(m, e1);
    FirstSlot(m, e1);
    MappedTables(m, Create(Vacant(m), e1).0.m, [NextFrame(m.used, m.total)]);
  }

  lemma FirstPage(m: Machine, e1: Word)
    requires Started(m) && FreePages(m.used, m.total) != {}
    ensures Create(Vacant(m), e1).1 != 0
    ensures Holds(m, Create(Vacant(m), e1).0.m, [NextFrame(m.used, m.total)])
  {
    StartPidsDistinct(m);
    assert Vacant(m).slots[0].state == Terminated;
    CreateConsumes(m, Vacant(m), e1, []);
    assert [] + [NextFrame(m.used, m.total)] == [NextFrame(m.used, m.total)];
  }

  lemma FirstSlot(m: Machine, e1: Word)
    requires Create(Vacant(m), e1).1 != 0
    ensures var k1 := Create(Vacant(m), e1).0;
      && Create(Vacant(m), e1).1 == 1 && PidsDistinct(k1) && k1.nextPid == 2
      && k1.count == 1 && FindState(k1.slots, Terminated).Some?
  {
    var k0 := Vacant(m);
    StartPidsDistinct(m);
    CreatedSlots(k0, e1);
    ClaimPidsDistinct(k0, e1);
    AnotherSlotIsFree(k0.slots, FindState(k0.slots, Terminated).value, NewProcess(1, e1));
  }

  // --------------------------------------------------------- later map_page calls ---

  /** The call has the effect it asks for. */
  ghost predicate Takes(m: Machine, call: Mapping)
  {
    Walk(MapPage(m, call.phys, call.virt).cells, m.dir, call.virt / 4096) == Some(call.phys / 4096)
  }

  /** No table lies in page 1024, and if the directory does, the process's page is as good a directory. */
  ghost predicate OutOfTheWay(m: Machine, p: Frame)
  {
    (forall i: Slot :: Table(m.cells, m.dir, i) != HOME) && (m.dir == HOME ==> forall j: Slot :: LeadsTo(m, p, j))
  }

  lemma RegionReached(m0: Machine, m: Machine, given: seq<Frame>, i: Slot)
    requires Started(m0) && Steady(m0, m, given) && OutOfTheWay(m0, Last(given))
    ensures var d := Reach(m, m.dir);
      && d.Some? && m.cells[Cell(d.value, i)].present
      && m.cells[Cell(d.value, i)].frame == Table(m.cells, m.dir, i)
      && Reach(m, Table(m.cells, m.dir, i)) == Some(Table(m.cells, m.dir, i))
  {
    MappedTables(m0, m, given);
    var t := Table(m0.cells, m0.dir, i);
    assert Table(m.cells, m.dir, i) == t && m.cells[Cell(m.dir, i)].present;
    assert Walk(m.cells, m.dir, t) == Some(t);
    assert Walk(m.cells, m.dir, m.dir) == Some(Target(given, m.dir));
    if m.dir == HOME {
      assert IsStructure(m0.cells, m0.dir, Table(m0.cells, m0.dir, 1));
      OtherFramesKept(m0, m, given, Last(given), i);
      assert LeadsTo(m0, Last(given), i);
    }
  }

  lemma ReachedRegionTakes(m0: Machine, m: Machine, given: seq<Frame>, call: Mapping)
    requires Started(m0) && Steady(m0, m, given) && OutOfTheWay(m0, Last(given))
    ensures Takes(m, call)
  {
    RegionReached(m0, m, given, call.virt / 4096 / 1024);
    MappedTables(m0, m, given);
    assert MapPage(m, call.phys, call.virt).cells == Remap(m.cells, m.dir, call.virt / 4096, call.phys / 4096);
    RemapOnePage(m.cells, m.dir, call.virt / 4096, call.phys / 4096, call.virt / 4096);
  }

  /** A call for `page` that asks for a change. */
  function ChangeOf(page: Frame, now: Frame): Mapping
  {
    Mapping(if now == 0 then 4096 else 0, PageAddr(page))
  }

  lemma ChangeChanges(page: Frame, now: Frame)
    ensures ChangeOf(page, now).virt / 4096 == page && ChangeOf(page, now).phys / 4096 != now
  {
  }

  lemma TableBlocks(m0: Machine, m: Machine, given: seq<Frame>, i: Slot)
    requires Started(m0) && Steady(m0, m, given) && Table(m0.cells, m0.dir, i) == HOME
    ensures !Takes(m, ChangeOf(i * 1024, Target(given, i * 1024)))
  {
    var page: Frame := i * 1024;
    assert page / 1024 == i;
    ChangeChanges(page, Target(given, page));
    TableAtHomeStrays(m0, m, given, ChangeOf(page, Target(given, page)));
    StillThere(m0, m, given, page);
  }

  lemma StillThere(m0: Machine, m: Machine, given: seq<Frame>, page: Frame)
    requires Started(m0) && Steady(m0, m, given)
    ensures Walk(m.cells, m.dir, page) == Some(Target(given, page))
  {
    MappedTables(m0, m, given);
  }

  function OffDiagonal(j: Slot): Frame
  {
    j * 1024 + if j == 0 then 1 else 0
  }

  lemma EntryBlocks(m0: Machine, m: Machine, given: seq<Frame>, j: Slot)
    requires Started(m0) && Steady(m0, m, given) && m0.dir == HOME && !LeadsTo(m0, Last(given), j)
    ensures !Takes(m, ChangeOf(OffDiagonal(j), Target(given, OffDiagonal(j))))
  {
    var page := OffDiagonal(j);
    assert page / 1024 == j && page % 1024 != j;
    ChangeChanges(page, Target(given, page));
    DirectoryAtHomeStrays(m0, m, given, ChangeOf(page, Target(given, page)));
    StillThere(m0, m, given, page);
  }

  lemma BlockedRegion(m0: Machine, m: Machine, given: seq<Frame>)
    requires Started(m0) && Steady(m0, m, given) && !OutOfTheWay(m0, Last(given))
    ensures exists call: Mapping :: !Takes(m, call)
  {
    if i: Slot :| Table(m0.cells, m0.dir, i) == HOME {
      TableBlocks(m0, m, given, i);
    } else {
      var j: Slot :| !LeadsTo(m0, Last(given), j);
      EntryBlocks(m0, m, given, j);
    }
  }

  lemma LaterMappingsIff(m0: Machine, m: Machine, given: seq<Frame>)
    requires Started(m0) && Steady(m0, m, given)
    ensures (forall call: Mapping :: Takes(m, call)) <==> OutOfTheWay(m0, Last(given))
  {
    if OutOfTheWay(m0, Last(given)) {
      forall call: Mapping
        ensures Takes(m, call)
      {
        ReachedRegionTakes(m0, m, given, call);
      }
    } else {
      BlockedRegion(m0, m, given);
    }
  }

  /**
    After the first process has been created, the next `map_page` call has its
    effect, whatever it maps, exactly when no table lies in page 1024 and the
    directory does not either, or its place is taken by a page that reads the
    same.
   */
  lemma MappingAfterCreationIff(m: Machine, entry: Word)
    requires Started(m) && FreePages(m.used, m.total) != {}
    ensures Create(Vacant(m), entry).1 == 1
    ensures (forall call: Mapping :: Takes(Create(Vacant(m), entry).0.m, call))
       <==> OutOfTheWay(m, NextFrame(m.used, m.total))
    ensures m.dir != HOME ==>
      (OutOfTheWay(m, NextFrame(m.used, m.total)) <==> !IsStructure(m.cells, m.dir, HOME))
  {
    FirstCreation(m, entry);
    var m1, given := Create(Vacant(m), entry).0.m, [NextFrame(m.used, m.total)];
    HoldsIsSteady(m, m1, given, {});
    assert m1.used + {} == m1.used;
    LaterMappingsIff(m, m1, given);
  }

  // ------------------------------------------------------- runs of later calls ---

  /** The call that maps the first process. */
  ghost function HomeCall(m: Machine): Mapping
  {
    Mapping(PageAddr(NextFrame(m.used, m.total)), FOUR_MIB)
  }

  /** The machine with the first process's page taken but not mapped. */
  ghost function Taken(m: Machine): Machine
  {
    m.(used := UsedAfterAlloc(m.used, m.total))
  }

  /** The first creation is that call. */
  lemma FirstCreationMaps(m: Machine, entry: Word)
    requires Started(m) && FreePages(m.used, m.total) != {}
    ensures Create(Vacant(m), entry).0.m == MapRun(Taken(m), [HomeCall(m)])
  {
    StartPidsDistinct(m);
    assert Vacant(m).slots[0].state == Terminated;
    CreateGrants(Vacant(m), entry);
    NullIffExhausted(m.used, m.total);
    assert [HomeCall(m)][..0] == [];
    assert MapRun(Taken(m), []) == Taken(m);
  }

  /** After the first creation and the calls, translation is the log of its mapping and theirs. */
  ghost predicate CallsFollow(m: Machine, calls: seq<Mapping>)
  {
    FollowsLog(Taken(m), [HomeCall(m)] + calls, MapRun(Taken(m), [HomeCall(m)] + calls))
  }

  lemma CallsArePrefix(m: Machine, calls: seq<Mapping>, n: nat)
    requires n <= |calls|
    ensures ([HomeCall(m)] + calls)[..n + 1] == [HomeCall(m)] + calls[..n]
  {
  }

  /** Calls after the first creation do what they say, one after the other, exactly if each lands. */
  lemma LaterCallsIff(m: Machine, entry: Word, calls: seq<Mapping>)
    requires Started(m) && FreePages(m.used, m.total) != {}
    ensures Create(Vacant(m), entry).0.m == MapRun(Taken(m), [HomeCall(m)])
    ensures (forall n :: 0 <= n <= |calls| ==> CallsFollow(m, calls[..n])) <==> Sound(Taken(m), [HomeCall(m)] + calls)
  {
    var log := [HomeCall(m)] + calls;
    FirstCreationMaps(m, entry);
    RunFollowsLogIff(Taken(m), log);
    EmptyRunFollowsLog(Taken(m));
    forall n | 0 <= n <= |calls|
      ensures CallsFollow(m, calls[..n]) <==> FollowsLog(Taken(m), log[..n + 1], MapRun(Taken(m), log[..n + 1]))
    {
      CallsArePrefix(m, calls, n);
    }
    if forall n :: 0 <= n <= |calls| ==> CallsFollow(m, calls[..n]) {
      forall n | 0 <= n <= |log|
        ensures FollowsLog(Taken(m), log[..n], MapRun(Taken(m), log[..n]))
      {
        if n > 0 {
          assert CallsFollow(m, calls[..n - 1]);
        } else {
          assert log[..n] == [] && MapRun(Taken(m), []) == Taken(m);
        }
      }
    }
  }

  /** No call maps the page of the directory or of a table. */
  ghost predicate OrdinaryCalls(m: Machine, calls: seq<Mapping>)
  {
    forall a :: 0 <= a < |calls| ==> !IsStructure(m.cells, m.dir, calls[a].virt / 4096)
  }

  /** The first process's mapping, then calls that map no structure page. */
  ghost predicate HomeFirst(m: Machine, log: seq<Mapping>)
  {
    log != [] && log[0] == HomeCall(m) && OrdinaryCalls(m, log[1..])
  }

  lemma HomeFirstPrefix(m: Machine, log: seq<Mapping>)
    requires HomeFirst(m, log) && |log| > 1
    ensures HomeFirst(m, log[..|log| - 1])
    ensures !IsStructure(m.cells, m.dir, log[|log| - 1].virt / 4096)
  {
    assert log[|log| - 1] == log[1..][|log| - 2];
    assert log[..|log| - 1][1..] == log[1..][..|log| - 2];
  }

  lemma {:induction false} HomeFirstLog(m: Machine, log: seq<Mapping>, f: Frame)
    requires HomeFirst(m, log) && IsStructure(m.cells, m.dir, f)
    ensures LogFrame(log, f) == if f == HOME then NextFrame(m.used, m.total) else f
  {
    if |log| > 1 {
      HomeFirstPrefix(m, log);
      HomeFirstLog(m, log[..|log| - 1], f);
    } else {
      assert log[..0] == [] && LogFrame([], f) == f;
    }
  }

  /** With the directory's place taken by a page that reads the same, each call lands and leaves that page alone. */
  lemma CopiedDirectoryStep(m: Machine, log: seq<Mapping>, m1: Machine, call: Mapping, p: Frame)
    requires FollowsLog(Taken(m), log, m1) && m.paging && LogFrame(log, m.dir) == p && !IsStructure(m.cells, m.dir, p)
    requires forall j: Slot :: LeadsTo(m, p, j)
    requires forall j: Slot :: m1.cells[Cell(p, j)] == m.cells[Cell(p, j)]
    requires var t := Table(m.cells, m.dir, call.virt / 4096 / 1024); LogFrame(log, t) == t
    ensures FollowsLog(Taken(m), log + [call], MapPage(m1, call.phys, call.virt))
    ensures forall j: Slot :: MapPage(m1, call.phys, call.virt).cells[Cell(p, j)] == m.cells[Cell(p, j)]
  {
    var i: Slot := call.virt / 4096 / 1024;
    var t := Table(m.cells, m.dir, i);
    assert LeadsTo(m, p, i) && m1.cells[Cell(p, i)] == m.cells[Cell(p, i)];
    assert Written(Taken(m), log, m1, call) == Some(t);
    StepFollowsLogIff(Taken(m), log, m1, call);
    WriteGoesTo(Taken(m), log, m1, call);
    assert t != p;
    forall j: Slot
      ensures MapPage(m1, call.phys, call.virt).cells[Cell(p, j)] == m.cells[Cell(p, j)]
    {
      CellInjective(p, j, t, call.virt / 4096 % 1024);
    }
  }

  /** The log is followed, and the page standing in for the directory is as it was. */
  ghost predicate CopyKept(m: Machine, log: seq<Mapping>, m1: Machine)
  {
    && FollowsLog(Taken(m), log, m1)
    && forall j: Slot ::
         m1.cells[Cell(NextFrame(m.used, m.total), j)] == m.cells[Cell(NextFrame(m.used, m.total), j)]
  }

  lemma CopyStaysKept(m: Machine, log: seq<Mapping>, m1: Machine)
    requires Started(m) && m.dir == HOME && OutOfTheWay(m, NextFrame(m.used, m.total)) && HomeFirst(m, log) && |log| > 1
    requires CopyKept(m, log[..|log| - 1], m1) && !IsStructure(m.cells, m.dir, NextFrame(m.used, m.total))
    ensures CopyKept(m, log, MapPage(m1, log[|log| - 1].phys, log[|log| - 1].virt))
  {
    var n := |log| - 1;
    var t := Table(m.cells, m.dir, log[n].virt / 4096 / 1024);
    HomeFirstPrefix(m, log);
    HomeFirstLog(m, log[..n], m.dir);
    HomeFirstLog(m, log[..n], t);
    CopiedDirectoryStep(m, log[..n], m1, log[n], NextFrame(m.used, m.total));
    assert log[..n] + [log[n]] == log;
  }

  lemma FirstMappingKeepsCopy(m: Machine, log: seq<Mapping>)
    requires Started(m) && log == [HomeCall(m)] && !IsStructure(m.cells, m.dir, NextFrame(m.used, m.total))
    ensures CopyKept(m, log, MapPage(Taken(m), HomeCall(m).phys, FOUR_MIB))
  {
    var m0, t, p := Taken(m), Table(m.cells, m.dir, 1), NextFrame(m.used, m.total);
    EmptyRunFollowsLog(m0);
    assert [] + [HomeCall(m)] == log;
    MapPageIsRemap(m0, HomeCall(m).phys, FOUR_MIB);
    MapStepFollowsLog(m0, [], m0, HomeCall(m));
    assert IsStructure(m.cells, m.dir, t);
    forall j: Slot
      ensures MapPage(m0, HomeCall(m).phys, FOUR_MIB).cells[Cell(p, j)] == m.cells[Cell(p, j)]
    {
      CellInjective(p, j, t, 0);
    }
  }

  lemma {:induction false} CopiedDirectoryRun(m: Machine, log: seq<Mapping>)
    requires Started(m) && m.dir == HOME && OutOfTheWay(m, NextFrame(m.used, m.total)) && HomeFirst(m, log)
    requires !IsStructure(m.cells, m.dir, NextFrame(m.used, m.total))
    ensures CopyKept(m, log, MapRun(Taken(m), log))
  {
    if |log| > 1 {
      HomeFirstPrefix(m, log);
      CopiedDirectoryRun(m, log[..|log| - 1]);
      CopyStaysKept(m, log, MapRun(Taken(m), log[..|log| - 1]));
    } else {
      assert log[..0] == [] && MapRun(Taken(m), []) == Taken(m);
      FirstMappingKeepsCopy(m, log);
    }
  }

  /** If nothing is in the way, every run of calls that maps no structure page does what it says. */
  lemma LaterCallsWork(m: Machine, calls: seq<Mapping>)
    requires Started(m) && FreePages(m.used, m.total) != {}
    requires OutOfTheWay(m, NextFrame(m.used, m.total)) && OrdinaryCalls(m, calls)
    ensures CallsFollow(m, calls)
  {
    if m.dir == HOME {
      assert ([HomeCall(m)] + calls)[1..] == calls;
      CopiedDirectoryRun(m, [HomeCall(m)] + calls);
    } else {
      OrdinaryRunIsSound(Taken(m), [HomeCall(m)] + calls);
      MapRunFollowsLog(Taken(m), [HomeCall(m)] + calls);
    }
  }

  // -------------------------------------------------------- only page 0 reserved ---

  lemma {:induction false} FreshPages(n: nat, k: nat)
    requires k < n
    ensures UsedAfter({0}, n, k) == PagesBelow(k + 1)
    ensures k + 1 < n ==> NextPage(UsedAfter({0}, n, k), n) == k + 1
  {
    if k == 0 {
      assert PagesBelow(1) == {0};
    } else {
      FreshPages(n, k - 1);
      assert PagesBelow(k + 1) == PagesBelow(k) + {k};
    }
    if k + 1 < n {
      assert k + 1 in FreePages(PagesBelow(k + 1), n);
    }
  }

  lemma FreshFrames(m: Machine, i: Slot)
    requires m.used == {0} && m.total >= 1027
    ensures Boot.TakenFrame(m, 0) == 1 && Boot.TakenFrame(m, i + 1) == i + 2
  {
    FreshPages(m.total, 0);
    FreshPages(m.total, i + 1);
  }

  lemma FreshSupply(m: Machine)
    requires m.used == {0} && m.total >= 1027
    ensures |FreePages(m.used, m.total)| == m.total - 1
  {
    FreePlusUsed(m.used, m.total);
    assert m.used * PagesBelow(m.total) == {0};
  }

  lemma FreshInit(m: Machine)
    requires m.used == {0} && m.total >= 1027 && !m.halted
    ensures Started(Boot.Init(m)) && Boot.Init(m).dir == 1
    ensures forall i: Slot :: Table(Boot.Init(m).cells, 1, i) == i + 2
    ensures FreePages(Boot.Init(m).used, m.total) != {}
  {
    FreshSupply(m);
    Ownership.InitBoots(m);
    Boot.InitTakes1025Pages(m);
    FreshFrames(m, 0);
    forall i: Slot
      ensures Table(Boot.Init(m).cells, 1, i) == i + 2
    {
      Boot.InitTables(m, i);
      FreshFrames(m, i);
    }
  }

  /**
    On a fresh machine the directory is page 1 and table i page i + 2: creation
    keeps working, but page 1024 is table 1022, so from the first process on no
    mapping in that table's region has any effect.
   */
  lemma FreshMachineLosesRegion(m: Machine, entry: Word, call: Mapping)
    requires m.used == {0} && m.total >= 1027 && !m.halted && call.virt / 4096 / 1024 == 1022
    ensures Settled(Boot.Init(m)) && Table(Boot.Init(m).cells, Boot.Init(m).dir, 1022) == HOME
    ensures Create(Vacant(Boot.Init(m)), entry).1 == 1
    ensures var m1 := Create(Vacant(Boot.Init(m)), entry).0.m;
      forall page: Frame :: Walk(MapPage(m1, call.phys, call.virt).cells, m1.dir, page) == Walk(m1.cells, m1.dir, page)
  {
    FreshInit(m);
    var m0 := Boot.Init(m);
    assert Table(m0.cells, 1, 1) == 3 && Table(m0.cells, 1, 1022) == HOME;
    FirstCreation(m0, entry);
    var m1, given := Create(Vacant(m0), entry).0.m, [NextFrame(m0.used, m0.total)];
    HoldsIsSteady(m0, m1, given, {});
    assert m1.used + {} == m1.used;
    TableAtHomeStrays(m0, m1, given, call);
  }
}
