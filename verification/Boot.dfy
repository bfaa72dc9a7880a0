/**
  `Memory::init` of `kernel/memory.cpp`: a directory and 1024 tables are taken
  from the page allocator and filled with the identity over the whole 32-bit
  space (the source's comment says 4 MB).  The theorems say when the result
  really is the identity.
 */
module Boot {
  import opened Options
  import opened PageSet
  import opened Paging

  // ------------------------------------------------------- the tables built ---

  /** The first `n` entries of the directory in frame `d` made absent. */
  function Cleared(cells: Memory, d: Frame, n: nat): Memory
    requires n <= 1024
  {
    seq(CELLS, c requires 0 <= c < CELLS =>
      if d * 1024 <= c < d * 1024 + n then cells[c].(present := false) else cells[c])
  }

  /** The first `n` entries of table `i` of the identity written into frame `f`. */
  function Filled(cells: Memory, f: Frame, i: Slot, n: nat): Memory
    requires n <= 1024
  {
    seq(CELLS, c requires 0 <= c < CELLS =>
      if f * 1024 <= c < f * 1024 + n then Point(cells[c], i * 1024 + (c - f * 1024)) else cells[c])
  }

  function InstallTable(cells: Memory, d: Frame, f: Frame, i: Slot): Memory
  {
    var filled := Filled(cells, f, i, 1024);
    filled[Cell(d, i) := Point(filled[Cell(d, i)], f)]
  }

  function InstallTables(cells: Memory, d: Frame, tables: seq<Frame>): Memory
    requires |tables| <= 1024
  {
    if tables == [] then cells
    else
      var n := |tables| - 1;
      InstallTable(InstallTables(cells, d, tables[..n]), d, tables[n], n)
  }

  lemma FilledTable(cells: Memory, d: Frame, f: Frame, i: Slot, j: Slot)
    requires f != d
    ensures InstallTable(cells, d, f, i)[Cell(f, j)] == Point(cells[Cell(f, j)], i * 1024 + j)
  {
    CellInjective(f, j, d, i);
  }

  lemma InstallFrames(cells: Memory, d: Frame, f: Frame, i: Slot, g: Frame, j: Slot)
    requires g != f
    ensures InstallTable(cells, d, f, i)[Cell(g, j)]
         == if g == d && j == i then Point(cells[Cell(g, j)], f) else cells[Cell(g, j)]
  {
    CellInjective(g, j, d, i);
  }

  ghost predicate Installed(cells: Memory, d: Frame, tables: seq<Frame>)
  {
    && |tables| <= 1024
    && (forall i: Slot :: i < |tables| ==> KernelEntry(cells[Cell(d, i)]) && Table(cells, d, i) == tables[i])
    && (forall i: Slot, j: Slot :: i < |tables| ==>
          KernelEntry(cells[Cell(tables[i], j)]) && cells[Cell(tables[i], j)].frame == i * 1024 + j)
  }

  ghost predicate OwnFrames(d: Frame, tables: seq<Frame>)
  {
    && (forall i :: 0 <= i < |tables| ==> tables[i] != d)
    && (forall i, j :: 0 <= i < j < |tables| ==> tables[i] != tables[j])
  }

  lemma {:induction false} InstallTablesInstalls(cells: Memory, d: Frame, tables: seq<Frame>)
    requires |tables| <= 1024 && OwnFrames(d, tables)
    ensures Installed(InstallTables(cells, d, tables), d, tables)
  {
    if tables != [] {
      var n: Slot := |tables| - 1;
      var init, f := tables[..n], tables[n];
      InstallTablesInstalls(cells, d, init);
      InstallOneMore(InstallTables(cells, d, init), d, init, f);
      assert init + [f] == tables;
    }
  }

  lemma InstallOneMore(cells: Memory, d: Frame, tables: seq<Frame>, f: Frame)
    requires |tables| < 1024 && OwnFrames(d, tables + [f])
    requires Installed(cells, d, tables)
    ensures Installed(InstallTable(cells, d, f, |tables|), d, tables + [f])
  {
    var n: Slot := |tables|;
    var all, cells' := tables + [f], InstallTable(cells, d, f, n);
    assert all[n] == f && f != d;
    forall i: Slot | i < |all|
      ensures KernelEntry(cells'[Cell(d, i)]) && Table(cells', d, i) == all[i]
    {
      InstallFrames(cells, d, f, n, d, i);
    }
    forall i: Slot, j: Slot | i < |all|
      ensures KernelEntry(cells'[Cell(all[i], j)]) && cells'[Cell(all[i], j)].frame == i * 1024 + j
    {
      if i == n {
        FilledTable(cells, d, f, n, j);
      } else {
        assert all[i] == tables[i] && all[i] != all[n] && all[i] != d;
        InstallFrames(cells, d, f, n, tables[i], j);
      }
    }
  }

  lemma InstalledIsIdentity(cells: Memory, d: Frame, tables: seq<Frame>)
    requires |tables| == 1024 && OwnFrames(d, tables) && Installed(cells, d, tables)
    ensures WellFormed(cells, d) && Identity(cells, d)
  {
    forall page: Frame
      ensures Walk(cells, d, page) == Some(page)
    {
      var i: Slot, j: Slot := page / 1024, page % 1024;
      assert Table(cells, d, i) == tables[i];
      assert cells[Cell(tables[i], j)].frame == i * 1024 + j;
    }
    forall i: Slot, j: Slot
      ensures KernelEntry(cells[Cell(Table(cells, d, i), j)])
      ensures i != j ==> Table(cells, d, i) != Table(cells, d, j)
      ensures Table(cells, d, i) != d && KernelEntry(cells[Cell(d, i)])
    {
      assert Table(cells, d, i) == tables[i] && Table(cells, d, j) == tables[j];
      if i < j {
        assert tables[i] != tables[j];
      } else if j < i {
        assert tables[j] != tables[i];
      }
    }
  }

  // ------------------------------------- tables that share a frame, cell by cell ---

  ghost predicate NotIn(f: Frame, tables: seq<Frame>)
  {
    forall i :: 0 <= i < |tables| ==> tables[i] != f
  }

  /** Frames that hold none of the structures are left alone. */
  lemma {:induction false} OtherFramesKept(cells: Memory, d: Frame, tables: seq<Frame>, f: Frame, j: Slot)
    requires |tables| <= 1024 && f != d && NotIn(f, tables)
    ensures InstallTables(cells, d, tables)[Cell(f, j)] == cells[Cell(f, j)]
  {
    if tables != [] {
      var n: Slot := |tables| - 1;
      OtherFramesKept(cells, d, tables[..n], f, j);
      InstallFrames(InstallTables(cells, d, tables[..n]), d, tables[n], n, f, j);
    }
  }

  /** Every table is entered in the directory, even if tables share frames. */
  lemma {:induction false} EveryTableIsEntered(cells: Memory, d: Frame, tables: seq<Frame>, i: Slot)
    requires |tables| <= 1024 && NotIn(d, tables) && i < |tables|
    ensures var e := InstallTables(cells, d, tables)[Cell(d, i)]; KernelEntry(e) && e.frame == tables[i]
  {
    var n: Slot := |tables| - 1;
    InstallFrames(InstallTables(cells, d, tables[..n]), d, tables[n], n, d, i);
    if i < n {
      EveryTableIsEntered(cells, d, tables[..n], i);
    }
  }

  /** A frame holds the last of the tables that were put into it. */
  lemma {:induction false} LastTableStays(cells: Memory, d: Frame, tables: seq<Frame>, i: Slot, j: Slot)
    requires |tables| <= 1024 && NotIn(d, tables) && i < |tables|
    requires forall k :: i < k < |tables| ==> tables[k] != tables[i]
    ensures var e := InstallTables(cells, d, tables)[Cell(tables[i], j)]; KernelEntry(e) && e.frame == i * 1024 + j
  {
    var n: Slot := |tables| - 1;
    var before := InstallTables(cells, d, tables[..n]);
    if i == n {
      FilledTable(before, d, tables[n], n, j);
    } else {
      LastTableStays(cells, d, tables[..n], i, j);
      InstallFrames(before, d, tables[n], n, tables[i], j);
    }
  }

  // ------------------------------------------------------------------- init ---

  /** The result of the `k`-th of a run of `allocate_page` calls. */
  ghost function TakenFrame(m: Machine, k: nat): Frame
  {
    NextFrame(UsedAfter(m.used, m.total, k), m.total)
  }

  ghost function TableFrames(m: Machine, k: nat): (tables: seq<Frame>)
    ensures |tables| == k
  {
    seq(k, i requires 0 <= i => TakenFrame(m, i + 1))
  }

  ghost function Init(m: Machine): Machine
  {
    var d := TakenFrame(m, 0);
    Machine(m.total, UsedAfter(m.used, m.total, 1025),
            InstallTables(Cleared(m.cells, d, 1024), d, TableFrames(m, 1024)), d, true, m.halted)
  }

  lemma OneMoreTable(m: Machine, cells: Memory, i: Slot)
    ensures InstallTables(cells, TakenFrame(m, 0), TableFrames(m, i + 1))
         == InstallTable(InstallTables(cells, TakenFrame(m, 0), TableFrames(m, i)), TakenFrame(m, 0),
                         TakenFrame(m, i + 1), i)
  {
    assert TableFrames(m, i + 1)[..i] == TableFrames(m, i);
  }

  /**
    The free pages `init` needs.  Page 0 is both a page and the null result:
    if it is reserved, the last table may be the null page; if it is free, the
    directory lies in it.
   */
  function PagesNeeded(used: set<nat>): nat
  {
    if 0 in used then 1024 else 1025
  }

  ghost predicate EnoughPages(m: Machine)
  {
    |FreePages(m.used, m.total)| >= PagesNeeded(m.used)
  }

  lemma FramesWhilePagesLast(m: Machine)
    requires EnoughPages(m)
    ensures OwnFrames(TakenFrame(m, 0), TableFrames(m, 1024))
  {
    var d, tables := TakenFrame(m, 0), TableFrames(m, 1024);
    forall i | 0 <= i < 1024
      ensures tables[i] != d
    {
      TakenFramesDiffer(m, 0, i + 1);
    }
    forall i, j | 0 <= i < j < 1024
      ensures tables[i] != tables[j]
    {
      TakenFramesDiffer(m, i + 1, j + 1);
    }
  }

  lemma TakenFramesDiffer(m: Machine, i: nat, j: nat)
    requires EnoughPages(m) && i < j <= 1024
    ensures TakenFrame(m, i) != TakenFrame(m, j)
  {
    if j < |FreePages(m.used, m.total)| {
      LaterPageDiffers(m.used, m.total, i, j);
    } else {
      RunPastTheEnd(m.used, m.total, j);
      RunTakesFreePage(m.used, m.total, i);
    }
  }

  lemma EnoughPagesMeanIdentity(m: Machine)
    requires EnoughPages(m)
    ensures WellFormed(Init(m).cells, Init(m).dir) && Identity(Init(m).cells, Init(m).dir)
  {
    var d, tables := TakenFrame(m, 0), TableFrames(m, 1024);
    FramesWhilePagesLast(m);
    InstallTablesInstalls(Cleared(m.cells, d, 1024), d, tables);
    InstalledIsIdentity(Init(m).cells, d, tables);
  }

  /** Table `i` lies in the page that call `i + 1` of `allocate_page` returned. */
  lemma InitTables(m: Machine, i: Slot)
    requires EnoughPages(m)
    ensures Table(Init(m).cells, Init(m).dir, i) == TakenFrame(m, i + 1)
  {
    var d, tables := TakenFrame(m, 0), TableFrames(m, 1024);
    FramesWhilePagesLast(m);
    InstallTablesInstalls(Cleared(m.cells, d, 1024), d, tables);
    assert Table(Init(m).cells, d, i) == tables[i];
  }

  /** The structures are exactly the 1025 pages taken. */
  lemma StructuresAreTaken(m: Machine, f: Frame)
    requires EnoughPages(m)
    ensures IsStructure(Init(m).cells, Init(m).dir, f) <==> exists k: nat :: k < 1025 && TakenFrame(m, k) == f
  {
    if IsStructure(Init(m).cells, Init(m).dir, f) && f != Init(m).dir {
      var i: Slot :| Table(Init(m).cells, Init(m).dir, i) == f;
      InitTables(m, i);
    }
    if k: nat :| k < 1025 && TakenFrame(m, k) == f {
      if k > 0 {
        InitTables(m, k - 1);
      }
    }
  }

  lemma LastTwoTables(cells: Memory, d: Frame, tables: seq<Frame>)
    requires |tables| == 1024
    ensures InstallTables(cells, d, tables)
         == InstallTable(InstallTable(InstallTables(cells, d, tables[..1022]), d, tables[1022], 1022), d, tables[1023], 1023)
  {
    assert tables[..1023][..1022] == tables[..1022];
  }

  /** The null page used twice, by two tables or by table and directory: the later use overwrites the earlier. */
  lemma NullTablesCollide(cells: Memory, d: Frame, tables: seq<Frame>)
    requires |tables| == 1024 && tables[1023] == 0 && (d == 0 || tables[1022] == 0)
    ensures !Identity(InstallTables(cells, d, tables), d)
  {
    LastTwoTables(cells, d, tables);
    var before := InstallTable(InstallTables(cells, d, tables[..1022]), d, tables[1022], 1022);
    var after := InstallTable(before, d, 0, 1023);
    if d == 0 {
      // The directory itself was overwritten: its last entry refers to itself.
      var lastPage: Frame := 0xF_FFFF;
      assert after[Cell(0, 1023)].frame == 0;
      assert Walk(after, d, lastPage) != Some(lastPage);
    } else {
      var page: Frame := 1022 * 1024;
      InstallFrames(before, d, 0, 1023, d, 1022);
      FilledTable(before, d, 0, 1023, 0);
      assert after[Cell(d, 1022)].frame == 0;
      assert after[Cell(0, 0)].frame == 1023 * 1024;
      assert Walk(after, d, page) != Some(page);
    }
  }

  lemma FewerPagesMeanNoIdentity(m: Machine)
    requires !EnoughPages(m)
    ensures !Identity(Init(m).cells, Init(m).dir)
  {
    var free := |FreePages(m.used, m.total)|;
    RunPastTheEnd(m.used, m.total, 1024);
    if free < 1024 {
      RunPastTheEnd(m.used, m.total, 1023);
    } else {
      DirectoryInPageZero(m);
    }
    NullTablesCollide(Cleared(m.cells, TakenFrame(m, 0), 1024), TakenFrame(m, 0), TableFrames(m, 1024));
  }

  lemma DirectoryInPageZero(m: Machine)
    requires 0 !in m.used
    ensures TakenFrame(m, 0) == 0
  {
    assert UsedAfter(m.used, m.total, 0) == m.used;
  }

  /**
    `init` yields translate(v) = v for every 32-bit v exactly when it has
    enough free pages: 1024 with page 0 reserved, 1025 without.
   */
  lemma InitIsIdentityIff(m: Machine)
    ensures (forall v: Addr :: Translate(Init(m).cells, Init(m).dir, v) == Some(v)) <==> EnoughPages(m)
  {
    IdentityByAddress(Init(m).cells, Init(m).dir);
    if EnoughPages(m) {
      EnoughPagesMeanIdentity(m);
    } else {
      FewerPagesMeanNoIdentity(m);
    }
  }

  /** The frames `init` takes: distinct, formerly free, non-null, and marked used afterwards. */
  lemma InitOwnsItsFrames(m: Machine, f: Frame)
    requires 0 in m.used && |FreePages(m.used, m.total)| >= 1025
    requires IsStructure(Init(m).cells, Init(m).dir, f)
    ensures f != 0 && f !in m.used && f in Init(m).used
  {
    var d, tables := TakenFrame(m, 0), TableFrames(m, 1024);
    FramesWhilePagesLast(m);
    InstallTablesInstalls(Cleared(m.cells, d, 1024), d, tables);
    var k: nat := if f == d then 0 else
      var i: Slot :| Table(Init(m).cells, d, i) == f;
      i + 1;
    assert f == TakenFrame(m, k);
    RunTakesFreePage(m.used, m.total, k);
    RunMarksPage(m.used, m.total, k, 1025);
  }

  /** ... and exactly 1025 pages are gone. */
  lemma InitTakes1025Pages(m: Machine)
    requires |FreePages(m.used, m.total)| >= 1025
    ensures |FreePages(Init(m).used, m.total)| == |FreePages(m.used, m.total)| - 1025
    ensures m.used <= Init(m).used
  {
    RunCounts(m.used, m.total, 1025);
    UsedGrows(m.used, m.total, 0, 1025);
  }

  // --------------------------------------------------------- with too few pages ---

  /** Memory outside the frames it is given is left alone. */
  lemma InitTouchesTakenFrames(m: Machine, f: Frame, j: Slot)
    requires forall k: nat :: k < 1025 ==> TakenFrame(m, k) != f
    ensures Init(m).cells[Cell(f, j)] == m.cells[Cell(f, j)]
  {
    var d := TakenFrame(m, 0);
    forall i | 0 <= i < 1024
      ensures TableFrames(m, 1024)[i] != f
    {
      assert TakenFrame(m, i + 1) != f;
    }
    OtherFramesKept(Cleared(m.cells, d, 1024), d, TableFrames(m, 1024), f, j);
  }

  /** Every page is taken, or 1025 of them. */
  lemma InitTakesWhatThereIs(m: Machine)
    ensures var free, left := |FreePages(m.used, m.total)|, |FreePages(Init(m).used, m.total)|;
      left == if free < 1025 then 0 else free - 1025
  {
    if |FreePages(m.used, m.total)| < 1025 {
      RunPastTheEnd(m.used, m.total, 1025);
    } else {
      RunCounts(m.used, m.total, 1025);
    }
  }

  lemma LaterFrameDiffers(m: Machine, i: nat, k: nat)
    requires 0 in m.used && i < k && i < |FreePages(m.used, m.total)|
    ensures TakenFrame(m, k) != TakenFrame(m, i)
  {
    if k < |FreePages(m.used, m.total)| {
      LaterPageDiffers(m.used, m.total, i, k);
    } else {
      RunPastTheEnd(m.used, m.total, k);
      RunTakesFreePage(m.used, m.total, i);
    }
  }

  lemma DirectoryStandsAlone(m: Machine)
    requires 0 in m.used && FreePages(m.used, m.total) != {}
    ensures NotIn(TakenFrame(m, 0), TableFrames(m, 1024))
  {
    forall i | 0 <= i < 1024
      ensures TableFrames(m, 1024)[i] != TakenFrame(m, 0)
    {
      LaterFrameDiffers(m, 0, i + 1);
    }
  }

  /** The table that ends up in the frame given to table `i`: all that get no page share the null page. */
  function TableThere(free: nat, i: Slot): Slot
  {
    if i + 1 < free then i else 1023
  }

  lemma LaterTablesElsewhere(m: Machine, i: Slot, k: nat)
    requires 0 in m.used && FreePages(m.used, m.total) != {}
    requires TableThere(|FreePages(m.used, m.total)|, i) < k < 1024
    ensures TableFrames(m, 1024)[k] != TableFrames(m, 1024)[i]
  {
    LaterFrameDiffers(m, i + 1, k + 1);
  }

  lemma SharedFrame(m: Machine, i: Slot)
    requires 0 in m.used && FreePages(m.used, m.total) != {}
    ensures TableFrames(m, 1024)[TableThere(|FreePages(m.used, m.total)|, i)] == TableFrames(m, 1024)[i]
  {
    if i + 1 >= |FreePages(m.used, m.total)| {
      RunPastTheEnd(m.used, m.total, i + 1);
      RunPastTheEnd(m.used, m.total, 1024);
    }
  }

  /**
    What `init` leaves when pages are short (page 0 being reserved and one page
    free at least): regions whose table got a page are mapped to themselves,
    all others to the last 4 MiB.
   */
  lemma InitTranslates(m: Machine, page: Frame)
    requires 0 in m.used && FreePages(m.used, m.total) != {}
    ensures var free := |FreePages(m.used, m.total)|;
      Walk(Init(m).cells, Init(m).dir, page) == Some(if page / 1024 + 1 < free then page else 1023 * 1024 + page % 1024)
  {
    var d, tables, i: Slot := TakenFrame(m, 0), TableFrames(m, 1024), page / 1024;
    var cells, last := Cleared(m.cells, d, 1024), TableThere(|FreePages(m.used, m.total)|, i);
    DirectoryStandsAlone(m);
    EveryTableIsEntered(cells, d, tables, i);
    SharedFrame(m, i);
    forall k | last < k < 1024
      ensures tables[k] != tables[last]
    {
      LaterTablesElsewhere(m, i, k);
    }
    LastTableStays(cells, d, tables, last, page % 1024);
  }

  /** With no page at all, directory and tables are all the null page, which ends up as table 1023 with a last entry to itself. */
  lemma InitWithoutPages(m: Machine, j: Slot)
    requires FreePages(m.used, m.total) == {}
    ensures Init(m).dir == 0 && Init(m).used == m.used
    ensures var e := Init(m).cells[Cell(0, j)];
      KernelEntry(e) && e.frame == if j == 1023 then 0 else 1023 * 1024 + j
  {
    NothingTaken(m, 1025);
    NothingTaken(m, 0);
    NothingTaken(m, 1024);
    var before := InstallTables(Cleared(m.cells, 0, 1024), 0, TableFrames(m, 1024)[..1023]);
    assert Init(m).cells == InstallTable(before, 0, 0, 1023);
    CellInjective(0, j, 0, 1023);
  }

  lemma {:induction false} NothingTaken(m: Machine, k: nat)
    requires FreePages(m.used, m.total) == {}
    ensures UsedAfter(m.used, m.total, k) == m.used && TakenFrame(m, k) == 0
  {
    if k > 0 {
      NothingTaken(m, k - 1);
    }
  }
}
