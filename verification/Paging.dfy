/**
  The two-level page tables of `kernel/memory.cpp` on a physical memory of
  2^20 frames of 1024 entries, and the address translation they stand for
  (32-bit paging with 4 KiB pages).  Directory and table entries share the
  kernel's own bit-field layout.

  Once `switch_page_directory` has turned paging on, the kernel reaches the
  directory and the tables through the very translation it is editing:
  `Reach` is the frame such an access ends up in.
 */
module Paging {
  import opened Options
  import opened PageSet

  type Frame = f: nat | f < 0x10_0000
  type Slot = j: nat | j < 1024
  type Addr = a: nat | a < 0x1_0000_0000
  type PageCount = n: nat | n <= 0x10_0000
  type Bits7 = u: nat | u < 128

  datatype Entry = Entry(
    present: bool, rw: bool, user: bool, accessed: bool, dirty: bool, unused: Bits7, frame: Frame)

  const BLANK := Entry(false, false, false, false, false, 0, 0)
  const CELLS := 0x4000_0000

  type Memory = s: seq<Entry> | |s| == CELLS ghost witness seq(CELLS, _ => BLANK)

  /** Entry `j` of the directory or table that occupies frame `f`. */
  function Cell(f: Frame, j: Slot): (c: nat)
    ensures c < CELLS
  {
    f * 1024 + j
  }

  function PageAddr(f: Frame): Addr
  {
    f * 4096
  }

  lemma CellInjective(f: Frame, j: Slot, g: Frame, k: Slot)
    ensures Cell(f, j) == Cell(g, k) <==> f == g && j == k
  {
  }

  /** The four bit-field assignments that make an entry refer to frame `f`. */
  function Point(e: Entry, f: Frame): Entry
  {
    e.(present := true, rw := true, user := false, frame := f)
  }

  // ---------------------------------------------------------- translation ---

  /** The frame that virtual page `page` is mapped to. */
  function Walk(cells: Memory, dir: Frame, page: Frame): Option<Frame>
  {
    var pde := cells[Cell(dir, page / 1024)];
    if !pde.present then None
    else
      var pte := cells[Cell(pde.frame, page % 1024)];
      if pte.present then Some(pte.frame) else None
  }

  /** The processor's view: directory index in bits 31-22, table index in 21-12, offset in 11-0. */
  function Translate(cells: Memory, dir: Frame, v: Addr): Option<Addr>
  {
    var pde := cells[Cell(dir, v / 0x40_0000)];
    if !pde.present then None
    else
      var pte := cells[Cell(pde.frame, v / 0x1000 % 1024)];
      if !pte.present then None else Some(pte.frame * 0x1000 + v % 0x1000)
  }

  lemma TranslateByPage(cells: Memory, dir: Frame, v: Addr)
    ensures Translate(cells, dir, v)
         == match Walk(cells, dir, v / 4096)
            case None => None
            case Some(f) => Some(f * 4096 + v % 4096)
  {
    assert v / 4096 / 1024 == v / 0x40_0000;
  }

  /** Table `i` of the directory in frame `dir`. */
  function Table(cells: Memory, dir: Frame, i: Slot): Frame
  {
    cells[Cell(dir, i)].frame
  }

  /** Present, writable, and closed to user mode. */
  predicate KernelEntry(e: Entry)
  {
    e.present && e.rw && !e.user
  }

  /** All 1024 tables are there, in frames of their own, and map every page for the kernel alone. */
  ghost predicate WellFormed(cells: Memory, dir: Frame)
  {
    && (forall i: Slot :: KernelEntry(cells[Cell(dir, i)]))
    && (forall i: Slot :: Table(cells, dir, i) != dir)
    && (forall i: Slot, j: Slot :: i != j ==> Table(cells, dir, i) != Table(cells, dir, j))
    && (forall i: Slot, j: Slot :: KernelEntry(cells[Cell(Table(cells, dir, i), j)]))
  }

  /** The frames that hold the directory and its tables. */
  ghost predicate IsStructure(cells: Memory, dir: Frame, f: Frame)
  {
    f == dir || exists i: Slot :: Table(cells, dir, i) == f
  }

  ghost predicate Identity(cells: Memory, dir: Frame)
  {
    forall page: Frame :: Walk(cells, dir, page) == Some(page)
  }

  lemma IdentityTranslates(cells: Memory, dir: Frame, v: Addr)
    requires Walk(cells, dir, v / 4096) == Some(v / 4096)
    ensures Translate(cells, dir, v) == Some(v)
  {
    TranslateByPage(cells, dir, v);
  }

  lemma MovedPageTranslates(cells: Memory, dir: Frame, page: Frame)
    requires Walk(cells, dir, page) != Some(page)
    ensures Translate(cells, dir, PageAddr(page)) != Some(PageAddr(page))
  {
    TranslateByPage(cells, dir, PageAddr(page));
  }

  lemma IdentityByAddress(cells: Memory, dir: Frame)
    ensures Identity(cells, dir) <==> forall v: Addr :: Translate(cells, dir, v) == Some(v)
  {
    if Identity(cells, dir) {
      forall v: Addr {
        IdentityTranslates(cells, dir, v);
      }
    } else {
      var page: Frame :| Walk(cells, dir, page) != Some(page);
      MovedPageTranslates(cells, dir, page);
    }
  }

  // --------------------------------------------------- editing one mapping ---

  /** A physical edit of the entry that maps `page`: the reference for `map_page`. */
  function Remap(cells: Memory, dir: Frame, page: Frame, f: Frame): Memory
  {
    var c := Cell(Table(cells, dir, page / 1024), page % 1024);
    cells[c := Point(cells[c], f)]
  }

  lemma RemapKeepsDirectory(cells: Memory, dir: Frame, page: Frame, f: Frame)
    requires WellFormed(cells, dir)
    ensures forall i: Slot :: Remap(cells, dir, page, f)[Cell(dir, i)] == cells[Cell(dir, i)]
    ensures forall i: Slot :: Table(Remap(cells, dir, page, f), dir, i) == Table(cells, dir, i)
  {
    forall i: Slot
      ensures Remap(cells, dir, page, f)[Cell(dir, i)] == cells[Cell(dir, i)]
    {
      CellInjective(dir, i, Table(cells, dir, page / 1024), page % 1024);
    }
  }

  /** The edit changes the translation of one page and of no other. */
  lemma RemapOnePage(cells: Memory, dir: Frame, page: Frame, f: Frame, q: Frame)
    requires WellFormed(cells, dir)
    ensures Walk(Remap(cells, dir, page, f), dir, q) == if q == page then Some(f) else Walk(cells, dir, q)
  {
    RemapKeepsDirectory(cells, dir, page, f);
    CellInjective(Table(cells, dir, q / 1024), q % 1024, Table(cells, dir, page / 1024), page % 1024);
  }

  lemma RemapWellFormed(cells: Memory, dir: Frame, page: Frame, f: Frame)
    requires WellFormed(cells, dir)
    ensures WellFormed(Remap(cells, dir, page, f), dir)
  {
    RemapKeepsDirectory(cells, dir, page, f);
  }

  /** A store into a frame that holds no directory or table leaves every translation alone. */
  lemma StoreOutside(cells: Memory, dir: Frame, g: Frame, j: Slot, e: Entry)
    requires WellFormed(cells, dir) && !IsStructure(cells, dir, g)
    ensures WellFormed(cells[Cell(g, j) := e], dir)
    ensures forall i: Slot :: Table(cells[Cell(g, j) := e], dir, i) == Table(cells, dir, i)
    ensures forall page: Frame :: Walk(cells[Cell(g, j) := e], dir, page) == Walk(cells, dir, page)
  {
    var cells' := cells[Cell(g, j) := e];
    forall i: Slot
      ensures cells'[Cell(dir, i)] == cells[Cell(dir, i)] && Table(cells', dir, i) == Table(cells, dir, i)
    {
      CellInjective(g, j, dir, i);
    }
    forall i: Slot, k: Slot
      ensures cells'[Cell(Table(cells', dir, i), k)] == cells[Cell(Table(cells, dir, i), k)]
    {
      CellInjective(g, j, Table(cells, dir, i), k);
    }
    forall page: Frame
      ensures Walk(cells', dir, page) == Walk(cells, dir, page)
    {
      assert cells'[Cell(dir, page / 1024)] == cells[Cell(dir, page / 1024)];
      assert cells'[Cell(Table(cells', dir, page / 1024), page % 1024)]
          == cells[Cell(Table(cells, dir, page / 1024), page % 1024)];
    }
  }

  // ------------------------------------------------------------ map_page ---

  /** What the memory manager's globals, the tables and the processor hold. */
  datatype Machine = Machine(
    total: PageCount, used: set<nat>, cells: Memory, dir: Frame, paging: bool, halted: bool)

  /** The frame that an access to page `f` of the kernel's address space reaches. */
  function Reach(m: Machine, f: Frame): Option<Frame>
  {
    if m.paging then Walk(m.cells, m.dir, f) else Some(f)
  }

  /** A page fault ends in the handler's endless `hlt` loop (kernel/interrupt.cpp). */
  function Fault(m: Machine): Machine
  {
    m.(halted := true)
  }

  /** `table->entries[j]` made to refer to frame `f`, `table` being page `t`. */
  function WriteEntry(m: Machine, t: Frame, j: Slot, f: Frame): Machine
  {
    match Reach(m, t)
    case None => Fault(m)
    case Some(g) => m.(cells := m.cells[Cell(g, j) := Point(m.cells[Cell(g, j)], f)])
  }

  ghost function NextFrame(used: set<nat>, total: PageCount): Frame
  {
    NextPage(used, total)
  }

  /** The table-creation branch: a fresh page, not cleared, entered in the directory. */
  ghost function CreateTable(m: Machine, d: Frame, i: Slot): Machine
  {
    var c := Cell(d, i);
    m.(used := UsedAfterAlloc(m.used, m.total),
       cells := m.cells[c := Point(m.cells[c], NextFrame(m.used, m.total))])
  }

  ghost function MapPage(m: Machine, phys: Addr, virt: Addr): Machine
  {
    var page := virt / 4096;
    match Reach(m, m.dir)
    case None => Fault(m)
    case Some(d) =>
      var pde := m.cells[Cell(d, page / 1024)];
      if pde.present then
        WriteEntry(m, pde.frame, page % 1024, phys / 4096)
      else
        WriteEntry(CreateTable(m, d, page / 1024), NextFrame(m.used, m.total), page % 1024, phys / 4096)
  }

  /** An access to page `f` through the kernel's address space ends in frame `f`. */
  ghost predicate SelfMapped(m: Machine, f: Frame)
  {
    Reach(m, f) == Some(f)
  }

  /**
    On well-formed tables whose directory and whose one table involved are
    reached at their own addresses, `map_page` is the physical edit: no table
    is created, no page is allocated, nothing faults.
   */
  lemma MapPageIsRemap(m: Machine, phys: Addr, virt: Addr)
    requires WellFormed(m.cells, m.dir)
    requires SelfMapped(m, m.dir) && SelfMapped(m, Table(m.cells, m.dir, virt / 4096 / 1024))
    ensures MapPage(m, phys, virt) == m.(cells := Remap(m.cells, m.dir, virt / 4096, phys / 4096))
  {
  }

  // ------------------------------------------------ what map_page writes, bit by bit ---

  /** One entry now refers to frame `f`, for the kernel alone; its other bits and all other entries are as before. */
  ghost predicate Edited(cells: Memory, cells': Memory, c: nat, f: Frame)
    requires c < CELLS
  {
    && cells'[c] == Entry(true, true, false, cells[c].accessed, cells[c].dirty, cells[c].unused, f)
    && forall i :: 0 <= i < CELLS && i != c ==> cells'[i] == cells[i]
  }

  /** The effect of a write to entry `j` of page `t`. */
  ghost predicate Writes(m: Machine, m': Machine, t: Frame, j: Slot, f: Frame)
  {
    match Reach(m, t)
    case None => m' == m.(halted := true)
    case Some(g) => m' == m.(cells := m'.cells) && Edited(m.cells, m'.cells, g * 1024 + j, f)
  }

  lemma WriteEntryEffect(m: Machine, t: Frame, j: Slot, f: Frame)
    ensures Writes(m, WriteEntry(m, t, j, f), t, j, f)
  {
  }

  /** A table is entered: the least free page is taken, or the null page if there is none. */
  ghost predicate EntersTable(m: Machine, m': Machine, d: Frame, i: Slot, q: Frame)
  {
    && m' == m.(used := m'.used, cells := m'.cells) && Edited(m.cells, m'.cells, d * 1024 + i, q)
    && (FreePages(m.used, m.total) == {} ==> q == 0 && m'.used == m.used)
    && (FreePages(m.used, m.total) != {} ==> IsLeastFree(q, m.used, m.total) && m'.used == m.used + {q as nat})
  }

  /** Everything `map_page` does: which entries it writes, where, and what happens when it cannot. */
  lemma MapPageEffect(m: Machine, phys: Addr, virt: Addr)
    ensures var i: Slot, j: Slot, f: Frame := virt / 0x40_0000, virt / 4096 % 1024, phys / 4096;
      match Reach(m, m.dir)
      case None => MapPage(m, phys, virt) == m.(halted := true)
      case Some(d) =>
        var pde := m.cells[d * 1024 + i];
        if pde.present then Writes(m, MapPage(m, phys, virt), pde.frame, j, f)
        else
          exists m1: Machine, q: Frame :: EntersTable(m, m1, d, i, q) && Writes(m1, MapPage(m, phys, virt), q, j, f)
  {
    var i: Slot, j: Slot, f: Frame := virt / 0x40_0000, virt / 4096 % 1024, phys / 4096;
    assert virt / 4096 / 1024 == i;
    if Reach(m, m.dir).Some? {
      var d := Reach(m, m.dir).value;
      var pde := m.cells[Cell(d, i)];
      if pde.present {
        WriteEntryEffect(m, pde.frame, j, f);
      } else {
        var m1, q := CreateTable(m, d, i), NextFrame(m.used, m.total);
        CreateTableEffect(m, d, i);
        WriteEntryEffect(m1, q, j, f);
        assert EntersTable(m, m1, d, i, q);
      }
    }
  }

  lemma CreateTableEffect(m: Machine, d: Frame, i: Slot)
    ensures EntersTable(m, CreateTable(m, d, i), d, i, NextFrame(m.used, m.total))
  {
  }

  /** No entry's accessed, dirty or unused bits have changed. */
  ghost predicate FlagsKept(cells: Memory, cells': Memory)
  {
    forall c :: 0 <= c < CELLS ==>
      cells'[c].accessed == cells[c].accessed && cells'[c].dirty == cells[c].dirty && cells'[c].unused == cells[c].unused
  }

  lemma EditKeepsFlags(cells: Memory, cells': Memory, c: nat, f: Frame)
    requires c < CELLS && Edited(cells, cells', c, f)
    ensures FlagsKept(cells, cells')
  {
  }

  lemma FlagsStayKept(a: Memory, b: Memory, c: Memory)
    requires FlagsKept(a, b) && FlagsKept(b, c)
    ensures FlagsKept(a, c)
  {
  }

  lemma WriteKeepsFlags(m: Machine, t: Frame, j: Slot, f: Frame)
    ensures FlagsKept(m.cells, WriteEntry(m, t, j, f).cells)
  {
    WriteEntryEffect(m, t, j, f);
    if Reach(m, t).Some? {
      EditKeepsFlags(m.cells, WriteEntry(m, t, j, f).cells, Reach(m, t).value * 1024 + j, f);
    }
  }

  lemma CreateTableKeepsFlags(m: Machine, d: Frame, i: Slot)
    ensures FlagsKept(m.cells, CreateTable(m, d, i).cells)
  {
    CreateTableEffect(m, d, i);
    EditKeepsFlags(m.cells, CreateTable(m, d, i).cells, d * 1024 + i, NextFrame(m.used, m.total));
  }

  /** `map_page` leaves those bits alone, in the entries it writes and in all others. */
  lemma MapPageKeepsFlags(m: Machine, phys: Addr, virt: Addr)
    ensures FlagsKept(m.cells, MapPage(m, phys, virt).cells)
  {
    var i: Slot, j: Slot, f: Frame := virt / 4096 / 1024, virt / 4096 % 1024, phys / 4096;
    if Reach(m, m.dir).Some? {
      var d := Reach(m, m.dir).value;
      var pde := m.cells[Cell(d, i)];
      if pde.present {
        WriteKeepsFlags(m, pde.frame, j, f);
      } else {
        var m1, q := CreateTable(m, d, i), NextFrame(m.used, m.total);
        CreateTableKeepsFlags(m, d, i);
        WriteKeepsFlags(m1, q, j, f);
        FlagsStayKept(m.cells, m1.cells, WriteEntry(m1, q, j, f).cells);
      }
    }
  }

  // ------------------------------------------------- runs of map_page calls ---

  datatype Mapping = Mapping(phys: Addr, virt: Addr)

  ghost function MapRun(m: Machine, log: seq<Mapping>): Machine
  {
    if log == [] then m
    else
      var last := log[|log| - 1];
      MapPage(MapRun(m, log[..|log| - 1]), last.phys, last.virt)
  }

  /** Last writer wins, over the identity. */
  function LogFrame(log: seq<Mapping>, page: Frame): Frame
  {
    if log == [] then page
    else if log[|log| - 1].virt / 4096 == page then log[|log| - 1].phys / 4096
    else LogFrame(log[..|log| - 1], page)
  }

  lemma {:induction false} LogKeepsUnwritten(log: seq<Mapping>, page: Frame)
    requires forall a :: 0 <= a < |log| ==> log[a].virt / 4096 != page
    ensures LogFrame(log, page) == page
  {
    if log != [] {
      LogKeepsUnwritten(log[..|log| - 1], page);
    }
  }

  /** What a run of `map_page` calls leaves behind. */
  ghost predicate FollowsLog(m: Machine, log: seq<Mapping>, m': Machine)
  {
    && m' == m.(cells := m'.cells)
    && WellFormed(m'.cells, m.dir)
    && (forall i: Slot :: Table(m'.cells, m.dir, i) == Table(m.cells, m.dir, i))
    && (forall page: Frame :: Walk(m'.cells, m.dir, page) == Some(LogFrame(log, page)))
  }

  /** The physical edit adds one mapping to the log. */
  lemma RemapFollowsLog(m: Machine, log: seq<Mapping>, m1: Machine, last: Mapping)
    requires FollowsLog(m, log, m1)
    ensures FollowsLog(m, log + [last], m1.(cells := Remap(m1.cells, m.dir, last.virt / 4096, last.phys / 4096)))
  {
    var page, f: Frame := last.virt / 4096, last.phys / 4096;
    RemapKeepsDirectory(m1.cells, m.dir, page, f);
    RemapWellFormed(m1.cells, m.dir, page, f);
    forall q: Frame
      ensures Walk(Remap(m1.cells, m.dir, page, f), m.dir, q) == Some(LogFrame(log + [last], q))
    {
      RemapOnePage(m1.cells, m.dir, page, f, q);
      assert (log + [last])[..|log|] == log;
    }
  }

  lemma MapStepFollowsLog(m: Machine, log: seq<Mapping>, m1: Machine, last: Mapping)
    requires FollowsLog(m, log, m1)
    requires SelfMapped(m1, m.dir) && SelfMapped(m1, Table(m.cells, m.dir, last.virt / 4096 / 1024))
    ensures FollowsLog(m, log + [last], MapPage(m1, last.phys, last.virt))
  {
    MapPageIsRemap(m1, last.phys, last.virt);
    RemapFollowsLog(m, log, m1, last);
  }

  lemma EmptyRunFollowsLog(m: Machine)
    requires WellFormed(m.cells, m.dir) && Identity(m.cells, m.dir)
    ensures FollowsLog(m, [], m)
  {
  }

  // ------------------------------------ when a call does what the log says ---

  /** Writing frame `f` into entry `j` of frame `g` would change no translation and move no table. */
  ghost predicate Inert(m: Machine, log: seq<Mapping>, g: Frame, j: Slot, f: Frame)
  {
    && (g == m.dir ==> Table(m.cells, m.dir, j) == f)
    && (forall i: Slot :: Table(m.cells, m.dir, i) == g ==> LogFrame(log, i * 1024 + j) == f)
  }

  /** The entry that a call finds for its region where it looks for the directory. */
  function EntryFound(m: Machine, log: seq<Mapping>, m1: Machine, call: Mapping): Entry
  {
    m1.cells[Cell(LogFrame(log, m.dir), call.virt / 4096 / 1024)]
  }

  /**
    The frame that a call writes its mapping into, with the mappings of `log`
    in force: what the entry it finds leads to or, if that is absent, what the
    null address leads to when no page is left for a new table.  None if the
    call takes a page.
   */
  ghost function Written(m: Machine, log: seq<Mapping>, m1: Machine, call: Mapping): Option<Frame>
  {
    var e := EntryFound(m, log, m1, call);
    if e.present then Some(LogFrame(log, e.frame))
    else if FreePages(m.used, m.total) == {} then Some(LogFrame(log, 0))
    else None
  }

  /**
    A call lands if it writes into the table that maps its page; or if it asks
    for what is already the case and its stray write does no harm.
   */
  ghost predicate Lands(m: Machine, log: seq<Mapping>, m1: Machine, call: Mapping)
  {
    var page, f, g := call.virt / 4096, call.phys / 4096, Written(m, log, m1, call);
    && g.Some?
    && (|| g.value == Table(m.cells, m.dir, page / 1024)
        || (LogFrame(log, page) == f && Inert(m, log, g.value, page % 1024, f)))
  }

  /** Creating a table in a frame that has no present entry there touches no structure. */
  lemma AbsentEntryIsOutside(m: Machine, log: seq<Mapping>, m1: Machine, d: Frame, i: Slot, e: Entry)
    requires FollowsLog(m, log, m1) && !m1.cells[Cell(d, i)].present
    ensures FollowsLog(m, log, m1.(cells := m1.cells[Cell(d, i) := e]))
  {
    assert forall j: Slot :: Table(m1.cells, m.dir, j) == d ==> KernelEntry(m1.cells[Cell(d, i)]);
    assert KernelEntry(m1.cells[Cell(m.dir, i)]);
    assert !IsStructure(m1.cells, m.dir, d);
    StoreOutside(m1.cells, m.dir, d, i, e);
  }

  /** Tables that follow the log, after a table has been entered if there was none to be found. */
  ghost function Entered(m: Machine, log: seq<Mapping>, m1: Machine, call: Mapping): Machine
  {
    var c := Cell(LogFrame(log, m.dir), call.virt / 4096 / 1024);
    if m1.cells[c].present then m1 else m1.(cells := m1.cells[c := Point(m1.cells[c], 0)])
  }

  /** A call that takes no page is one write, into the frame `Written` names. */
  lemma WriteGoesTo(m: Machine, log: seq<Mapping>, m1: Machine, call: Mapping)
    requires FollowsLog(m, log, m1) && m.paging && Written(m, log, m1, call).Some?
    ensures FollowsLog(m, log, Entered(m, log, m1, call))
    ensures var m2, c := Entered(m, log, m1, call), Cell(Written(m, log, m1, call).value, call.virt / 4096 % 1024);
      MapPage(m1, call.phys, call.virt) == m2.(cells := m2.cells[c := Point(m2.cells[c], call.phys / 4096)])
  {
    var d, i: Slot := LogFrame(log, m.dir), call.virt / 4096 / 1024;
    assert Walk(m1.cells, m.dir, m.dir) == Some(d);
    var e, m2 := m1.cells[Cell(d, i)], Entered(m, log, m1, call);
    if e.present {
      assert Walk(m1.cells, m.dir, e.frame) == Some(LogFrame(log, e.frame));
    } else {
      AbsentEntryIsOutside(m, log, m1, d, i, Point(e, 0));
      assert Walk(m2.cells, m.dir, 0) == Some(LogFrame(log, 0));
      assert CreateTable(m1, d, i) == m2;
    }
  }

  lemma PageIsTaken(m: Machine, log: seq<Mapping>, m1: Machine, call: Mapping)
    requires FollowsLog(m, log, m1) && m.paging && Written(m, log, m1, call).None?
    ensures MapPage(m1, call.phys, call.virt).used != m1.used
  {
    assert Walk(m1.cells, m.dir, m.dir) == Some(LogFrame(log, m.dir));
    AllocTakesOne(m.used, m.total);
  }

  lemma RepointIsNothing(e: Entry, f: Frame)
    requires KernelEntry(e) && e.frame == f
    ensures Point(e, f) == e
  {
  }

  /** An inert write leaves the machine following the same log. */
  lemma InertWriteKeepsLog(m: Machine, log: seq<Mapping>, m1: Machine, g: Frame, j: Slot, f: Frame)
    requires FollowsLog(m, log, m1) && Inert(m, log, g, j, f)
    ensures var c := Cell(g, j);
      FollowsLog(m, log, m1.(cells := m1.cells[c := Point(m1.cells[c], f)]))
  {
    var c := Cell(g, j);
    if g == m.dir {
      assert KernelEntry(m1.cells[c]) && Table(m1.cells, m.dir, j) == f;
      RepointIsNothing(m1.cells[c], f);
      assert m1.cells[c := m1.cells[c]] == m1.cells;
    } else if i: Slot :| Table(m.cells, m.dir, i) == g {
      assert Table(m1.cells, m.dir, i) == g && KernelEntry(m1.cells[c]);
      EntryHoldsLogFrame(m, log, m1, i, j);
      RepointIsNothing(m1.cells[c], f);
      assert m1.cells[c := m1.cells[c]] == m1.cells;
    } else {
      assert !IsStructure(m1.cells, m.dir, g);
      StoreOutside(m1.cells, m.dir, g, j, Point(m1.cells[c], f));
    }
  }

  lemma EntryHoldsLogFrame(m: Machine, log: seq<Mapping>, m1: Machine, i: Slot, j: Slot)
    requires FollowsLog(m, log, m1)
    ensures m1.cells[Cell(Table(m.cells, m.dir, i), j)].frame == LogFrame(log, i * 1024 + j)
  {
    var page: Frame := i * 1024 + j;
    assert page / 1024 == i && page % 1024 == j;
    assert Table(m1.cells, m.dir, i) == Table(m.cells, m.dir, i);
    assert Walk(m1.cells, m.dir, page) == Some(LogFrame(log, page));
  }

  lemma LogSnoc(log: seq<Mapping>, call: Mapping, q: Frame)
    ensures LogFrame(log + [call], q) == if q == call.virt / 4096 then call.phys / 4096 else LogFrame(log, q)
  {
    assert (log + [call])[..|log|] == log;
  }

  lemma LandedCallFollowsLog(m: Machine, log: seq<Mapping>, m1: Machine, call: Mapping)
    requires FollowsLog(m, log, m1) && m.paging && Lands(m, log, m1, call)
    ensures FollowsLog(m, log + [call], MapPage(m1, call.phys, call.virt))
  {
    var g, m2 := Written(m, log, m1, call).value, Entered(m, log, m1, call);
    WriteGoesTo(m, log, m1, call);
    if g == Table(m.cells, m.dir, call.virt / 4096 / 1024) {
      assert Table(m2.cells, m.dir, call.virt / 4096 / 1024) == g;
      RemapFollowsLog(m, log, m2, call);
    } else {
      InertWriteKeepsLog(m, log, m2, g, call.virt / 4096 % 1024, call.phys / 4096);
      forall q: Frame
        ensures LogFrame(log + [call], q) == LogFrame(log, q)
      {
        LogSnoc(log, call, q);
      }
    }
  }

  lemma StrayCallBreaksLog(m: Machine, log: seq<Mapping>, m1: Machine, call: Mapping)
    requires FollowsLog(m, log, m1) && m.paging && !Lands(m, log, m1, call)
    ensures !FollowsLog(m, log + [call], MapPage(m1, call.phys, call.virt))
  {
    if Written(m, log, m1, call).None? {
      PageIsTaken(m, log, m1, call);
    } else {
      WriteGoesTo(m, log, m1, call);
      StrayWriteBreaksLog(m, log, Entered(m, log, m1, call), call, Written(m, log, m1, call).value,
                          MapPage(m1, call.phys, call.virt));
    }
  }

  lemma StrayWriteBreaksLog(m: Machine, log: seq<Mapping>, m1: Machine, call: Mapping, g: Frame, m2: Machine)
    requires FollowsLog(m, log, m1) && g != Table(m.cells, m.dir, call.virt / 4096 / 1024)
    requires LogFrame(log, call.virt / 4096) == call.phys / 4096 ==>
      !Inert(m, log, g, call.virt / 4096 % 1024, call.phys / 4096)
    requires var c := Cell(g, call.virt / 4096 % 1024);
      m2.cells == m1.cells[c := Point(m1.cells[c], call.phys / 4096)]
    ensures !FollowsLog(m, log + [call], m2)
  {
    if LogFrame(log, call.virt / 4096) != call.phys / 4096 {
      StrayCallHasNoEffect(m, log, m1, call, g, m2);
    } else {
      HarmfulWriteBreaksLog(m, log, call, m2, g);
    }
  }

  lemma HarmfulWriteBreaksLog(m: Machine, log: seq<Mapping>, call: Mapping, m2: Machine, g: Frame)
    requires g != Table(m.cells, m.dir, call.virt / 4096 / 1024)
    requires !Inert(m, log, g, call.virt / 4096 % 1024, call.phys / 4096)
    requires m2.cells[Cell(g, call.virt / 4096 % 1024)].frame == call.phys / 4096
    ensures !FollowsLog(m, log + [call], m2)
  {
    var j: Slot, f: Frame := call.virt / 4096 % 1024, call.phys / 4096;
    if g == m.dir && Table(m.cells, m.dir, j) != f {
      StrayIntoDirectory(m, log + [call], m2, j, f);
    } else {
      var i: Slot :| Table(m.cells, m.dir, i) == g && LogFrame(log, i * 1024 + j) != f;
      LogSnoc(log, call, i * 1024 + j);
      StrayIntoTable(m, log + [call], m2, i, j, f);
    }
  }

  lemma StrayIntoDirectory(m: Machine, log: seq<Mapping>, m2: Machine, j: Slot, f: Frame)
    requires m2.cells[Cell(m.dir, j)].frame == f && Table(m.cells, m.dir, j) != f
    ensures !FollowsLog(m, log, m2)
  {
    assert Table(m2.cells, m.dir, j) == f;
  }

  lemma StrayIntoTable(m: Machine, log: seq<Mapping>, m2: Machine, i: Slot, j: Slot, f: Frame)
    requires m2.cells[Cell(Table(m.cells, m.dir, i), j)].frame == f && LogFrame(log, i * 1024 + j) != f
    ensures !FollowsLog(m, log, m2)
  {
    if FollowsLog(m, log, m2) {
      EntryHoldsLogFrame(m, log, m2, i, j);
    }
  }

  lemma StrayCallHasNoEffect(m: Machine, log: seq<Mapping>, m1: Machine, call: Mapping, g: Frame, m2: Machine)
    requires FollowsLog(m, log, m1) && g != Table(m.cells, m.dir, call.virt / 4096 / 1024)
    requires LogFrame(log, call.virt / 4096) != call.phys / 4096
    requires var c := Cell(g, call.virt / 4096 % 1024);
      m2.cells == m1.cells[c := Point(m1.cells[c], call.phys / 4096)]
    ensures !FollowsLog(m, log + [call], m2)
  {
    var i: Slot, j: Slot := call.virt / 4096 / 1024, call.virt / 4096 % 1024;
    CellInjective(g, j, Table(m.cells, m.dir, i), j);
    EntryHoldsLogFrame(m, log, m1, i, j);
    LogSnoc(log, call, call.virt / 4096);
    if FollowsLog(m, log + [call], m2) {
      EntryHoldsLogFrame(m, log + [call], m2, i, j);
    }
  }

  /** From tables that follow a log, one more call makes them follow the longer log exactly if it lands. */
  lemma StepFollowsLogIff(m: Machine, log: seq<Mapping>, m1: Machine, call: Mapping)
    requires FollowsLog(m, log, m1) && m.paging
    ensures FollowsLog(m, log + [call], MapPage(m1, call.phys, call.virt)) <==> Lands(m, log, m1, call)
  {
    if Lands(m, log, m1, call) {
      LandedCallFollowsLog(m, log, m1, call);
    } else {
      StrayCallBreaksLog(m, log, m1, call);
    }
  }

  /** While the directory is at its own address, the log alone decides. */
  lemma KeptDirectoryLandsIff(m: Machine, log: seq<Mapping>, m1: Machine, call: Mapping)
    requires FollowsLog(m, log, m1) && LogFrame(log, m.dir) == m.dir
    ensures var page, f := call.virt / 4096, call.phys / 4096;
      var t := Table(m.cells, m.dir, page / 1024);
      Lands(m, log, m1, call) <==>
        LogFrame(log, t) == t || (LogFrame(log, page) == f && Inert(m, log, LogFrame(log, t), page % 1024, f))
  {
    var i: Slot := call.virt / 4096 / 1024;
    assert Table(m1.cells, m.dir, i) == Table(m.cells, m.dir, i) && m1.cells[Cell(m.dir, i)].present;
  }

  /** A write that strays to an ordinary frame changes no translation at all. */
  lemma StrayWriteIsLost(m: Machine, log: seq<Mapping>, m1: Machine, call: Mapping)
    requires FollowsLog(m, log, m1) && m.paging && Written(m, log, m1, call).Some?
    requires !IsStructure(m.cells, m.dir, Written(m, log, m1, call).value)
    ensures FollowsLog(m, log, MapPage(m1, call.phys, call.virt))
  {
    var g := Written(m, log, m1, call).value;
    WriteGoesTo(m, log, m1, call);
    assert Inert(m, log, g, call.virt / 4096 % 1024, call.phys / 4096);
    InertWriteKeepsLog(m, log, Entered(m, log, m1, call), g, call.virt / 4096 % 1024, call.phys / 4096);
  }

  // --------------------------------------------------------- the same for runs ---

  /** Each call lands, given the calls before it. */
  ghost predicate Sound(m: Machine, log: seq<Mapping>)
  {
    log == [] ||
    (Sound(m, log[..|log| - 1]) && Lands(m, log[..|log| - 1], MapRun(m, log[..|log| - 1]), log[|log| - 1]))
  }

  lemma RunStepFollowsLogIff(m: Machine, log: seq<Mapping>, m1: Machine)
    requires log != [] && FollowsLog(m, log[..|log| - 1], m1) && m.paging
    ensures FollowsLog(m, log, MapPage(m1, log[|log| - 1].phys, log[|log| - 1].virt))
       <==> Lands(m, log[..|log| - 1], m1, log[|log| - 1])
  {
    var n := |log| - 1;
    StepFollowsLogIff(m, log[..n], m1, log[n]);
    assert log[..n] + [log[n]] == log;
  }

  lemma UnpagedStepFollowsLog(m: Machine, log: seq<Mapping>, m1: Machine)
    requires log != [] && FollowsLog(m, log[..|log| - 1], m1) && !m.paging
    ensures FollowsLog(m, log, MapPage(m1, log[|log| - 1].phys, log[|log| - 1].virt))
  {
    var n := |log| - 1;
    MapStepFollowsLog(m, log[..n], m1, log[n]);
    assert log[..n] + [log[n]] == log;
  }

  /**
    From identity-mapped tables, a run of `map_page` calls leaves exactly the
    last-writer-wins log, with the tables where they were and no page
    allocated: every run while paging is off, every sound run once it is on.
   */
  lemma {:induction false} MapRunFollowsLog(m: Machine, log: seq<Mapping>)
    requires WellFormed(m.cells, m.dir) && Identity(m.cells, m.dir)
    requires m.paging ==> Sound(m, log)
    ensures FollowsLog(m, log, MapRun(m, log))
  {
    if log == [] {
      EmptyRunFollowsLog(m);
    } else {
      var n := |log| - 1;
      MapRunFollowsLog(m, log[..n]);
      if m.paging {
        RunStepFollowsLogIff(m, log, MapRun(m, log[..n]));
      } else {
        UnpagedStepFollowsLog(m, log, MapRun(m, log[..n]));
      }
    }
  }

  ghost predicate FollowsThroughout(m: Machine, log: seq<Mapping>)
  {
    forall n :: 0 <= n <= |log| ==> FollowsLog(m, log[..n], MapRun(m, log[..n]))
  }

  lemma {:induction false} SoundPrefix(m: Machine, log: seq<Mapping>, n: nat)
    requires Sound(m, log) && n <= |log|
    ensures Sound(m, log[..n])
  {
    if n < |log| {
      SoundPrefix(m, log[..|log| - 1], n);
      assert log[..|log| - 1][..n] == log[..n];
    } else {
      assert log[..n] == log;
    }
  }

  lemma UnsoundStepFails(m: Machine, log: seq<Mapping>)
    requires WellFormed(m.cells, m.dir) && Identity(m.cells, m.dir) && m.paging
    requires log != [] && Sound(m, log[..|log| - 1]) && !Sound(m, log)
    ensures !FollowsLog(m, log, MapRun(m, log))
  {
    MapRunFollowsLog(m, log[..|log| - 1]);
    RunStepFollowsLogIff(m, log, MapRun(m, log[..|log| - 1]));
  }

  lemma {:induction false} UnsoundRunFails(m: Machine, log: seq<Mapping>) returns (n: nat)
    requires WellFormed(m.cells, m.dir) && Identity(m.cells, m.dir) && m.paging
    requires !Sound(m, log)
    ensures n <= |log| && !FollowsLog(m, log[..n], MapRun(m, log[..n]))
  {
    var init := log[..|log| - 1];
    if Sound(m, init) {
      UnsoundStepFails(m, log);
      n := |log|;
      assert log[..n] == log;
    } else {
      n := UnsoundRunFails(m, init);
      assert init[..n] == log[..n];
    }
  }

  /**
    With paging on, the translation is the log after every call of the run
    exactly if each call lands, given the calls before it.
   */
  lemma RunFollowsLogIff(m: Machine, log: seq<Mapping>)
    requires WellFormed(m.cells, m.dir) && Identity(m.cells, m.dir) && m.paging
    ensures FollowsThroughout(m, log) <==> Sound(m, log)
  {
    if Sound(m, log) {
      forall n | 0 <= n <= |log|
        ensures FollowsLog(m, log[..n], MapRun(m, log[..n]))
      {
        SoundPrefix(m, log, n);
        MapRunFollowsLog(m, log[..n]);
      }
    } else {
      var n := UnsoundRunFails(m, log);
    }
  }

  /** The same for addresses: the page is looked up in the log, the low 12 bits are kept. */
  lemma MapRunTranslates(m: Machine, log: seq<Mapping>, v: Addr)
    requires WellFormed(m.cells, m.dir) && Identity(m.cells, m.dir)
    requires m.paging ==> Sound(m, log)
    ensures Translate(MapRun(m, log).cells, m.dir, v) == Some(LogFrame(log, v / 4096) * 4096 + v % 4096)
  {
    MapRunFollowsLog(m, log);
    TranslateByPage(MapRun(m, log).cells, m.dir, v);
  }

  /** A run that maps no structure page is sound. */
  lemma {:induction false} OrdinaryRunIsSound(m: Machine, log: seq<Mapping>)
    requires WellFormed(m.cells, m.dir) && Identity(m.cells, m.dir)
    requires forall a :: 0 <= a < |log| ==> !IsStructure(m.cells, m.dir, log[a].virt / 4096)
    ensures m.paging ==> Sound(m, log)
  {
    if log != [] && m.paging {
      var n := |log| - 1;
      OrdinaryRunIsSound(m, log[..n]);
      MapRunFollowsLog(m, log[..n]);
      var t := Table(m.cells, m.dir, log[n].virt / 4096 / 1024);
      assert IsStructure(m.cells, m.dir, t);
      LogKeepsUnwritten(log[..n], t);
      LogKeepsUnwritten(log[..n], m.dir);
      KeptDirectoryLandsIff(m, log[..n], MapRun(m, log[..n]), log[n]);
    }
  }

  /** If no call maps a structure page, every structure frame stays mapped to itself. */
  lemma MapRunKeepsSelfMap(m: Machine, log: seq<Mapping>, f: Frame)
    requires WellFormed(m.cells, m.dir) && Identity(m.cells, m.dir)
    requires forall a :: 0 <= a < |log| ==> !IsStructure(m.cells, m.dir, log[a].virt / 4096)
    requires IsStructure(m.cells, m.dir, f)
    ensures SelfMapped(MapRun(m, log), f) && IsStructure(MapRun(m, log).cells, m.dir, f)
  {
    OrdinaryRunIsSound(m, log);
    MapRunFollowsLog(m, log);
    LogKeepsUnwritten(log, f);
  }
}
