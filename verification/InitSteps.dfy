/**
  `Memory::init` (`kernel/memory.cpp`) access by access.  At boot paging is off
  and every access is physical; if `init` is called again it reaches the new
  directory and tables through the old ones.  As long as none of the pages it
  takes is mapped elsewhere, it builds the tables of `Boot.Init`.
 */
module InitSteps {
  import opened Options
  import opened PageSet
  import opened Paging
  import Boot
  import Ownership

  ghost function Alloc(m: Machine): Machine
  {
    m.(used := UsedAfterAlloc(m.used, m.total))
  }

  function Absent(e: Entry): Entry
  {
    e.(present := false)
  }

  /** `directory->entries[j].present = 0`, `directory` being page `d`. */
  function ClearEntry(m: Machine, d: Frame, j: Slot): Machine
  {
    match Reach(m, d)
    case None => Fault(m)
    case Some(g) => m.(cells := m.cells[Cell(g, j) := Absent(m.cells[Cell(g, j)])])
  }

  /** The first `n` rounds of the clearing loop; a fault ends it. */
  function ClearRun(m: Machine, d: Frame, n: nat): Machine
    requires n <= 1024
  {
    if n == 0 then m
    else
      var m1 := ClearRun(m, d, n - 1);
      if m1.halted then m1 else ClearEntry(m1, d, n - 1)
  }

  /** The first `n` rounds of the inner loop: table `i` of the identity in page `f`. */
  function FillRun(m: Machine, f: Frame, i: Slot, n: nat): Machine
    requires n <= 1024
  {
    if n == 0 then m
    else
      var m1 := FillRun(m, f, i, n - 1);
      if m1.halted then m1 else WriteEntry(m1, f, n - 1, i * 1024 + (n - 1))
  }

  /** One round of the outer loop. */
  ghost function BuildTable(m: Machine, d: Frame, i: Slot): Machine
  {
    var f := NextFrame(m.used, m.total);
    var m1 := FillRun(Alloc(m), f, i, 1024);
    if m1.halted then m1 else WriteEntry(m1, d, i, f)
  }

  ghost function BuildRun(m: Machine, d: Frame, n: nat): Machine
    requires n <= 1024
  {
    if n == 0 then m
    else
      var m1 := BuildRun(m, d, n - 1);
      if m1.halted then m1 else BuildTable(m1, d, n - 1)
  }

  ghost function Init(m: Machine): Machine
  {
    var d := NextFrame(m.used, m.total);
    var m1 := BuildRun(ClearRun(Alloc(m), d, 1024), d, 1024);
    if m1.halted then m1 else m1.(dir := d, paging := true)
  }

  // ---------------------------------------------------------------- other bits ---

  /** Clearing an entry changes its present bit and nothing else. */
  lemma ClearEntryEffect(m: Machine, d: Frame, j: Slot)
    ensures var m' := ClearEntry(m, d, j);
      match Reach(m, d)
      case None => m' == m.(halted := true)
      case Some(g) =>
        var e := m.cells[g * 1024 + j];
        && m' == m.(cells := m'.cells)
        && m'.cells[g * 1024 + j] == Entry(false, e.rw, e.user, e.accessed, e.dirty, e.unused, e.frame)
        && forall c :: 0 <= c < CELLS && c != g * 1024 + j ==> m'.cells[c] == m.cells[c]
  {
  }

  lemma ClearKeepsFlags(m: Machine, d: Frame, j: Slot)
    ensures FlagsKept(m.cells, ClearEntry(m, d, j).cells)
  {
  }

  lemma {:induction false} ClearRunKeepsFlags(m: Machine, d: Frame, n: nat)
    requires n <= 1024
    ensures FlagsKept(m.cells, ClearRun(m, d, n).cells)
  {
    if n > 0 {
      var m1 := ClearRun(m, d, n - 1);
      ClearRunKeepsFlags(m, d, n - 1);
      ClearKeepsFlags(m1, d, n - 1);
      FlagsStayKept(m.cells, m1.cells, ClearEntry(m1, d, n - 1).cells);
    }
  }

  lemma {:induction false} FillRunKeepsFlags(m: Machine, f: Frame, i: Slot, n: nat)
    requires n <= 1024
    ensures FlagsKept(m.cells, FillRun(m, f, i, n).cells)
  {
    if n > 0 {
      var m1, page: Frame := FillRun(m, f, i, n - 1), i * 1024 + (n - 1);
      FillRunKeepsFlags(m, f, i, n - 1);
      WriteKeepsFlags(m1, f, n - 1, page);
      FlagsStayKept(m.cells, m1.cells, WriteEntry(m1, f, n - 1, page).cells);
    }
  }

  lemma BuildTableKeepsFlags(m: Machine, d: Frame, i: Slot) returns (m': Machine)
    ensures m' == BuildTable(m, d, i) && FlagsKept(m.cells, m'.cells)
  {
    var f := NextFrame(m.used, m.total);
    m' := FillRun(Alloc(m), f, i, 1024);
    FillRunKeepsFlags(Alloc(m), f, i, 1024);
    if !m'.halted {
      WriteKeepsFlags(m', d, i, f);
      FlagsStayKept(m.cells, m'.cells, WriteEntry(m', d, i, f).cells);
      m' := WriteEntry(m', d, i, f);
    }
  }

  lemma OneMoreRound(m: Machine, d: Frame, n: nat, m1: Machine, m2: Machine)
    requires 0 < n <= 1024 && m1 == BuildRun(m, d, n - 1) && !m1.halted && m2 == BuildTable(m1, d, n - 1)
    ensures m2 == BuildRun(m, d, n)
  {
  }

  lemma {:induction false} BuildRunKeepsFlags(m: Machine, d: Frame, n: nat) returns (m': Machine)
    requires n <= 1024
    ensures m' == BuildRun(m, d, n) && FlagsKept(m.cells, m'.cells)
  {
    m' := m;
    if n > 0 {
      m' := BuildRunKeepsFlags(m, d, n - 1);
      if !m'.halted {
        var m2 := BuildTableKeepsFlags(m', d, n - 1);
        OneMoreRound(m, d, n, m', m2);
        FlagsStayKept(m.cells, m'.cells, m2.cells);
        m' := m2;
      }
    }
  }

  /**
    From any state, whatever it reaches, `init` leaves the accessed, dirty and
    unused bits of every entry in memory as they were.
   */
  lemma InitKeepsFlags(m: Machine)
    ensures FlagsKept(m.cells, Init(m).cells)
  {
    var d := NextFrame(m.used, m.total);
    var m1 := ClearRun(Alloc(m), d, 1024);
    ClearRunKeepsFlags(Alloc(m), d, 1024);
    var m2 := BuildRunKeepsFlags(m1, d, 1024);
    FlagsStayKept(m.cells, m1.cells, m2.cells);
  }

  // ------------------------------------------------------------ direct accesses ---

  /** A frame that `init` reaches at its own address and may write without disturbing the tables in force. */
  ghost predicate Ordinary(m: Machine, f: Frame)
  {
    m.paging ==> !IsStructure(m.cells, m.dir, f) && Walk(m.cells, m.dir, f) == Some(f)
  }

  /** Running with paging off; or on, and none of the pages that `init` will take is mapped elsewhere. */
  ghost predicate Startable(m: Machine)
  {
    && !m.halted
    && (m.paging ==> WellFormed(m.cells, m.dir))
    && forall k: nat :: k < 1025 ==> Ordinary(m, Boot.TakenFrame(m, k))
  }

  /** Since `m0` only memory outside the current tables and the bitmap have changed. */
  ghost predicate Direct(m0: Machine, m: Machine)
  {
    && m == m0.(used := m.used, cells := m.cells)
    && (m0.paging ==>
          && WellFormed(m.cells, m0.dir)
          && (forall i: Slot :: Table(m.cells, m0.dir, i) == Table(m0.cells, m0.dir, i))
          && (forall page: Frame :: Walk(m.cells, m0.dir, page) == Walk(m0.cells, m0.dir, page)))
  }

  lemma DirectReach(m0: Machine, m: Machine, f: Frame)
    requires Direct(m0, m) && Ordinary(m0, f)
    ensures Reach(m, f) == Some(f)
  {
  }

  lemma DirectStore(m0: Machine, m: Machine, f: Frame, j: Slot, e: Entry)
    requires Direct(m0, m) && (m0.paging ==> !IsStructure(m0.cells, m0.dir, f))
    ensures Direct(m0, m.(cells := m.cells[Cell(f, j) := e]))
  {
    if m0.paging {
      forall i: Slot
        ensures Table(m.cells, m0.dir, i) != f
      {
        assert Table(m.cells, m0.dir, i) == Table(m0.cells, m0.dir, i);
      }
      StoreOutside(m.cells, m0.dir, f, j, e);
    }
  }

  // ---------------------------------------------------------- what the loops build ---

  lemma {:induction false} ClearRunIsDirect(m0: Machine, m: Machine, d: Frame, n: nat)
    requires Startable(m0) && Direct(m0, m) && Ordinary(m0, d) && n <= 1024
    ensures ClearRun(m, d, n) == m.(cells := Boot.Cleared(m.cells, d, n)) && Direct(m0, ClearRun(m, d, n))
  {
    if n == 0 {
      assert Boot.Cleared(m.cells, d, 0) == m.cells;
    } else {
      ClearRunIsDirect(m0, m, d, n - 1);
      var m1, c := ClearRun(m, d, n - 1), Cell(d, n - 1);
      DirectReach(m0, m1, d);
      DirectStore(m0, m1, d, n - 1, Absent(m1.cells[c]));
      assert m1.cells[c := Absent(m1.cells[c])] == Boot.Cleared(m.cells, d, n);
    }
  }

  lemma {:induction false} FillRunIsDirect(m0: Machine, m: Machine, f: Frame, i: Slot, n: nat)
    requires Startable(m0) && Direct(m0, m) && Ordinary(m0, f) && n <= 1024
    ensures FillRun(m, f, i, n) == m.(cells := Boot.Filled(m.cells, f, i, n)) && Direct(m0, FillRun(m, f, i, n))
  {
    if n == 0 {
      assert Boot.Filled(m.cells, f, i, 0) == m.cells;
    } else {
      FillRunIsDirect(m0, m, f, i, n - 1);
      var m1, c := FillRun(m, f, i, n - 1), Cell(f, n - 1);
      DirectReach(m0, m1, f);
      DirectStore(m0, m1, f, n - 1, Point(m1.cells[c], i * 1024 + (n - 1)));
      assert m1.cells[c := Point(m1.cells[c], i * 1024 + (n - 1))] == Boot.Filled(m.cells, f, i, n);
    }
  }

  lemma BuildTableIsDirect(m0: Machine, m: Machine, d: Frame, i: Slot) returns (m': Machine)
    requires Startable(m0) && Direct(m0, m) && Ordinary(m0, d) && Ordinary(m0, NextFrame(m.used, m.total))
    ensures m' == BuildTable(m, d, i) && Direct(m0, m')
    ensures var f := NextFrame(m.used, m.total);
      m' == m.(used := UsedAfterAlloc(m.used, m.total), cells := Boot.InstallTable(m.cells, d, f, i))
  {
    var f := NextFrame(m.used, m.total);
    FillRunIsDirect(m0, Alloc(m), f, i, 1024);
    var m1 := FillRun(Alloc(m), f, i, 1024);
    DirectReach(m0, m1, d);
    DirectStore(m0, m1, d, i, Point(m1.cells[Cell(d, i)], f));
    m' := WriteEntry(m1, d, i, f);
  }

  lemma {:induction false} BuildRunIsDirect(m0: Machine, m: Machine, n: nat) returns (m': Machine)
    requires Startable(m0) && Direct(m0, m) && n <= 1024 && m.used == UsedAfter(m0.used, m0.total, 1)
    ensures m' == BuildRun(m, Boot.TakenFrame(m0, 0), n) && Direct(m0, m')
    ensures m' == m.(used := UsedAfter(m0.used, m0.total, n + 1),
                     cells := Boot.InstallTables(m.cells, Boot.TakenFrame(m0, 0), Boot.TableFrames(m0, n)))
  {
    m' := m;
    if n > 0 {
      var d := Boot.TakenFrame(m0, 0);
      var m1 := BuildRunIsDirect(m0, m, n - 1);
      m' := BuildTableIsDirect(m0, m1, d, n - 1);
      OneMoreRound(m, d, n, m1, m');
      Boot.OneMoreTable(m0, m.cells, n - 1);
    }
  }

  /**
    At boot, or again with none of the pages it takes mapped elsewhere, `init`
    runs through without a fault and leaves what `Boot.Init` says.
   */
  lemma InitIsBootInit(m: Machine)
    requires Startable(m)
    ensures Init(m) == Boot.Init(m)
  {
    var d := Boot.TakenFrame(m, 0);
    assert UsedAfter(m.used, m.total, 0) == m.used;
    ClearRunIsDirect(m, Alloc(m), d, 1024);
    var m' := BuildRunIsDirect(m, ClearRun(Alloc(m), d, 1024), 1024);
  }

  // ---------------------------------------------------------------- a second call ---

  /** The pages taken are free pages or the null page, so never part of the tables in force. */
  lemma TakenIsNoStructure(m: Machine, s: Ownership.System, k: nat)
    requires Ownership.Booted(m) && Ownership.Inv(m, s)
    ensures !IsStructure(s.m.cells, s.m.dir, Boot.TakenFrame(s.m, k))
  {
    Ownership.SameStructures(m, s.m, Boot.TakenFrame(s.m, k));
    UsedGrows(s.m.used, s.m.total, 0, k);
  }

  /**
    Called again after any use that has left the tables intact, `init` builds
    the identity anew exactly if 1024 more pages are free, provided that none
    of the pages it takes has been mapped elsewhere.
   */
  lemma SecondInitIff(m: Machine, s: Ownership.System)
    requires Ownership.Booted(m) && !m.halted && Ownership.Inv(m, s)
    requires forall k: nat :: k < 1025 ==> LogFrame(s.log, Boot.TakenFrame(s.m, k)) == Boot.TakenFrame(s.m, k)
    ensures (forall v: Addr :: Translate(Init(s.m).cells, Init(s.m).dir, v) == Some(v))
       <==> |FreePages(s.m.used, s.m.total)| >= 1024
  {
    forall k: nat | k < 1025
      ensures Ordinary(s.m, Boot.TakenFrame(s.m, k))
    {
      TakenIsNoStructure(m, s, k);
    }
    InitIsBootInit(s.m);
    Boot.InitIsIdentityIff(s.m);
  }

  // ------------------------------------------- a directory page mapped elsewhere ---

  /** Page `t` leads to an ordinary frame other than `f`. */
  ghost predicate Aside(m: Machine, f: Frame, t: Frame)
  {
    var g := Walk(m.cells, m.dir, t);
    m.paging && g.Some? && g.value != f && !IsStructure(m.cells, m.dir, g.value)
  }

  /** So far nothing has been written into frame `f`, nor into the tables in force. */
  ghost predicate Spared(m0: Machine, f: Frame, m: Machine)
  {
    Direct(m0, m) && m.cells[Cell(f, 0)] == m0.cells[Cell(f, 0)]
  }

  lemma StoreSpares(m0: Machine, f: Frame, m: Machine, t: Frame, j: Slot, e: Entry)
    requires Spared(m0, f, m) && Aside(m0, f, t)
    ensures Reach(m, t) == Walk(m0.cells, m0.dir, t)
    ensures Spared(m0, f, m.(cells := m.cells[Cell(Reach(m, t).value, j) := e]))
  {
    var g := Walk(m0.cells, m0.dir, t).value;
    assert Walk(m.cells, m0.dir, t) == Some(g);
    DirectStore(m0, m, g, j, e);
    CellInjective(g, j, f, 0);
  }

  lemma WriteSpares(m0: Machine, f: Frame, m: Machine, t: Frame, j: Slot, h: Frame)
    requires Spared(m0, f, m) && Aside(m0, f, t)
    ensures Spared(m0, f, WriteEntry(m, t, j, h)) && WriteEntry(m, t, j, h).used == m.used
  {
    var c := Cell(Walk(m0.cells, m0.dir, t).value, j);
    StoreSpares(m0, f, m, t, j, Point(m.cells[c], h));
  }

  lemma {:induction false} ClearSpares(m0: Machine, f: Frame, m: Machine, d: Frame, n: nat)
    requires Spared(m0, f, m) && Aside(m0, f, d) && n <= 1024
    ensures Spared(m0, f, ClearRun(m, d, n)) && ClearRun(m, d, n).used == m.used
  {
    if n > 0 {
      ClearSpares(m0, f, m, d, n - 1);
      var m1, c := ClearRun(m, d, n - 1), Cell(Walk(m0.cells, m0.dir, d).value, n - 1);
      StoreSpares(m0, f, m1, d, n - 1, Absent(m1.cells[c]));
    }
  }

  lemma FillOneMoreSpares(m0: Machine, f: Frame, m: Machine, m1: Machine, t: Frame, i: Slot, n: nat)
    requires 0 < n <= 1024 && m1 == FillRun(m, t, i, n - 1) && Spared(m0, f, m1) && Aside(m0, f, t)
    ensures Spared(m0, f, FillRun(m, t, i, n)) && FillRun(m, t, i, n).used == m1.used
  {
    WriteSpares(m0, f, m1, t, n - 1, i * 1024 + (n - 1));
  }

  lemma {:induction false} FillSpares(m0: Machine, f: Frame, m: Machine, t: Frame, i: Slot, n: nat)
    requires Spared(m0, f, m) && Aside(m0, f, t) && n <= 1024
    ensures Spared(m0, f, FillRun(m, t, i, n)) && FillRun(m, t, i, n).used == m.used
  {
    if n > 0 {
      FillSpares(m0, f, m, t, i, n - 1);
      FillOneMoreSpares(m0, f, m, FillRun(m, t, i, n - 1), t, i, n);
    }
  }

  lemma TableSpares(m0: Machine, f: Frame, m: Machine, d: Frame, i: Slot) returns (m': Machine)
    requires Spared(m0, f, m) && !m0.halted && Aside(m0, f, d) && Aside(m0, f, NextFrame(m.used, m.total))
    ensures m' == BuildTable(m, d, i) && Spared(m0, f, m') && m'.used == UsedAfterAlloc(m.used, m.total)
  {
    var t := NextFrame(m.used, m.total);
    m' := FillRun(Alloc(m), t, i, 1024);
    assert Spared(m0, f, Alloc(m));
    FillSpares(m0, f, Alloc(m), t, i, 1024);
    WriteSpares(m0, f, m', d, i, t);
    m' := WriteEntry(m', d, i, t);
  }

  lemma {:induction false} BuildSpares(m0: Machine, f: Frame, m: Machine, n: nat) returns (m': Machine)
    requires Spared(m0, f, m) && !m0.halted && n <= 1024 && m.used == UsedAfter(m0.used, m0.total, 1)
    requires forall k: nat :: k < 1025 ==> Aside(m0, f, Boot.TakenFrame(m0, k))
    ensures m' == BuildRun(m, Boot.TakenFrame(m0, 0), n)
    ensures Spared(m0, f, m') && m'.used == UsedAfter(m0.used, m0.total, n + 1)
  {
    m' := m;
    if n > 0 {
      var d := Boot.TakenFrame(m0, 0);
      var m1 := BuildSpares(m0, f, m, n - 1);
      assert Aside(m0, f, Boot.TakenFrame(m0, n));
      m' := TableSpares(m0, f, m1, d, n - 1);
      OneMoreRound(m, d, n, m1, m');
    }
  }

  /**
    What goes wrong otherwise: if the page taken for the directory is mapped
    elsewhere, nothing taken leads to it, and its entry 0 is absent, then
    `init` fills other pages and address 0 does not translate.
   */
  lemma StrayInitFails(m: Machine)
    requires m.paging && !m.halted && WellFormed(m.cells, m.dir)
    requires forall k: nat :: k < 1025 ==> Aside(m, Boot.TakenFrame(m, 0), Boot.TakenFrame(m, k))
    requires !m.cells[Cell(Boot.TakenFrame(m, 0), 0)].present
    ensures !Init(m).halted && Translate(Init(m).cells, Init(m).dir, 0).None?
  {
    var d := Boot.TakenFrame(m, 0);
    assert UsedAfter(m.used, m.total, 0) == m.used;
    ClearSpares(m, d, Alloc(m), d, 1024);
    var m' := BuildSpares(m, d, ClearRun(Alloc(m), d, 1024), 1024);
  }
}
