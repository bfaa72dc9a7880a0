/**
  Arbitrary interleavings of `allocate_page`, `free_page` and `map_page`
  (kernel/memory.cpp) with stores by the callers, after the tables have been
  built and paging is on.  What the callers own stays theirs as long as they
  free only pages they were given, whatever they map and store.  The page
  tables stay intact, whatever callers do, exactly if every step is harmless.
 */
module Ownership {
  import opened Options
  import opened PageSet
  import opened Paging
  import Boot

  /** `live` are the pages handed out and not freed; `log` the mappings made so far. */
  datatype System = System(m: Machine, live: multiset<nat>, log: seq<Mapping>)

  datatype Op =
    | Alloc
    | Free(page: Frame)
    | Map(call: Mapping)
    | Store(page: Frame, slot: Slot, value: Entry)

  /** One call or store; a kernel that has faulted does nothing more. */
  ghost function Step(s: System, op: Op): System
  {
    if s.m.halted then s
    else
      match op
      case Alloc =>
        var p := NextPage(s.m.used, s.m.total);
        System(s.m.(used := UsedAfterAlloc(s.m.used, s.m.total)),
               if FreePages(s.m.used, s.m.total) == {} then s.live else s.live + multiset{p}, s.log)
      case Free(page) =>
        System(s.m.(used := s.m.used - {page}), s.live - multiset{page}, s.log)
      case Map(call) =>
        System(MapPage(s.m, call.phys, call.virt), s.live, s.log + [call])
      case Store(page, slot, value) =>
        match Reach(s.m, page)
        case None => s.(m := Fault(s.m))
        case Some(g) => s.(m := s.m.(cells := s.m.cells[Cell(g, slot) := value]))
  }

  ghost function Run(s: System, ops: seq<Op>): System
  {
    if ops == [] then s else Step(Run(s, ops[..|ops| - 1]), ops[|ops| - 1])
  }

  function Start(m: Machine): System
  {
    System(m, multiset{}, [])
  }

  /** What `init` establishes when it has its 1025 pages. */
  ghost predicate Booted(m: Machine)
  {
    && WellFormed(m.cells, m.dir) && Identity(m.cells, m.dir)
    && m.paging && 0 in m.used
    && (forall f: Frame :: IsStructure(m.cells, m.dir, f) ==> f in m.used && f != 0)
  }

  /** The hypothesis of the theorems below is what `init` delivers. */
  lemma InitBoots(m: Machine)
    requires 0 in m.used && |FreePages(m.used, m.total)| >= 1025
    ensures Booted(Boot.Init(m))
  {
    Boot.EnoughPagesMeanIdentity(m);
    Boot.InitTakes1025Pages(m);
    forall f: Frame | IsStructure(Boot.Init(m).cells, Boot.Init(m).dir, f)
      ensures f in Boot.Init(m).used && f != 0
    {
      Boot.InitOwnsItsFrames(m, f);
    }
  }

  // ------------------------------------------- ownership, whatever is mapped ---

  /** Callers free only pages they were given and have not freed. */
  ghost predicate FreesLive(s: System, op: Op)
  {
    op.Free? ==> op.page in s.live
  }

  ghost predicate FreesLiveRun(s: System, ops: seq<Op>)
  {
    ops == [] || (FreesLiveRun(s, ops[..|ops| - 1]) && FreesLive(Run(s, ops[..|ops| - 1]), ops[|ops| - 1]))
  }

  /** A live page is live once, in use, and holds no part of the page tables. */
  ghost predicate Owned(m: Machine, s: System)
  {
    && s.m.total == m.total && 0 in s.m.used
    && (forall f: Frame :: IsStructure(m.cells, m.dir, f) ==> f in s.m.used)
    && (forall p: nat :: p in s.live ==>
          p != 0 && s.live[p] == 1 && p in s.m.used && p < m.total && !IsStructure(m.cells, m.dir, p))
  }

  /** No page is gained: free and live pages are at most those that were free at first. */
  ghost predicate Bounded(m: Machine, s: System)
  {
    |FreePages(s.m.used, m.total)| + |s.live| <= |FreePages(m.used, m.total)|
  }

  /** A call takes at most one page, for a table. */
  lemma MapTakesAtMostOne(m: Machine, call: Mapping)
    ensures var m' := MapPage(m, call.phys, call.virt);
      m'.total == m.total && (m'.used == m.used || m'.used == UsedAfterAlloc(m.used, m.total))
  {
  }

  lemma AllocOwned(m: Machine, s: System)
    requires Owned(m, s) && Bounded(m, s) && !s.m.halted
    ensures Owned(m, Step(s, Alloc)) && Bounded(m, Step(s, Alloc))
  {
    if FreePages(s.m.used, m.total) != {} {
      AllocTakesOne(s.m.used, m.total);
    }
  }

  lemma FreeOwned(m: Machine, s: System, page: Frame)
    requires Owned(m, s) && Bounded(m, s) && page in s.live && !s.m.halted
    ensures Owned(m, Step(s, Free(page))) && Bounded(m, Step(s, Free(page)))
  {
    FreeReturnsOne(s.m.used, m.total, page);
    assert |s.live - multiset{page}| == |s.live| - 1;
  }

  lemma MapOwned(m: Machine, s: System, call: Mapping)
    requires Owned(m, s) && Bounded(m, s) && !s.m.halted
    ensures Owned(m, Step(s, Map(call))) && Bounded(m, Step(s, Map(call)))
  {
    MapTakesAtMostOne(s.m, call);
    if FreePages(s.m.used, m.total) != {} {
      AllocTakesOne(s.m.used, m.total);
    }
  }

  lemma StepOwned(m: Machine, s: System, op: Op)
    requires Owned(m, s) && Bounded(m, s) && FreesLive(s, op)
    ensures Owned(m, Step(s, op)) && Bounded(m, Step(s, op))
  {
    if !s.m.halted {
      match op
      case Alloc => AllocOwned(m, s);
      case Free(page) => FreeOwned(m, s, page);
      case Map(call) => MapOwned(m, s, call);
      case Store(_, _, _) =>
    }
  }

  /**
    Over every interleaving in which callers free only their own pages,
    whatever they map and wherever they store: no page is live twice, and no
    null, directory or table page is ever handed out or marked free.
   */
  lemma {:induction false} PagesStayOwned(m: Machine, ops: seq<Op>)
    requires Booted(m) && FreesLiveRun(Start(m), ops)
    ensures Owned(m, Run(Start(m), ops)) && Bounded(m, Run(Start(m), ops))
  {
    if ops != [] {
      PagesStayOwned(m, ops[..|ops| - 1]);
      StepOwned(m, Run(Start(m), ops[..|ops| - 1]), ops[|ops| - 1]);
    }
  }

  /** A page about to be handed out is neither live already nor part of the tables. */
  lemma HandedOutPageIsFresh(m: Machine, ops: seq<Op>)
    requires Booted(m) && FreesLiveRun(Start(m), ops)
    ensures var s := Run(Start(m), ops);
      FreePages(s.m.used, m.total) != {} ==>
        var p := NextFrame(s.m.used, m.total);
        p !in s.live && p != 0 && !IsStructure(m.cells, m.dir, p)
  {
    PagesStayOwned(m, ops);
  }

  // ---------------------------------------------------------------- other bits ---

  lemma StepKeepsFlags(s: System, op: Op)
    requires !op.Store?
    ensures FlagsKept(s.m.cells, Step(s, op).m.cells)
  {
    if op.Map? {
      MapPageKeepsFlags(s.m, op.call.phys, op.call.virt);
    }
  }

  /**
    Over every interleaving of allocate, free and map the accessed, dirty and
    unused bits of every entry in memory stay as they were: only stores by
    callers can set them.
   */
  lemma {:induction false} RunKeepsFlags(s: System, ops: seq<Op>)
    requires forall a :: 0 <= a < |ops| ==> !ops[a].Store?
    ensures FlagsKept(s.m.cells, Run(s, ops).m.cells)
  {
    if ops != [] {
      var init := ops[..|ops| - 1];
      RunKeepsFlags(s, init);
      StepKeepsFlags(Run(s, init), ops[|ops| - 1]);
      FlagsStayKept(s.m.cells, Run(s, init).m.cells, Run(s, ops).m.cells);
    }
  }

  // ----------------------------------------------------- when tables stay intact ---

  /** Everything but the contents of memory and the bitmap is as `init` left it. */
  ghost predicate SameTables(m: Machine, m': Machine)
  {
    && m' == m.(used := m'.used, cells := m'.cells)
    && WellFormed(m'.cells, m.dir)
    && (forall i: Slot :: Table(m'.cells, m.dir, i) == Table(m.cells, m.dir, i))
  }

  ghost predicate Logged(m: Machine, s: System)
  {
    forall page: Frame :: Walk(s.m.cells, m.dir, page) == Some(LogFrame(s.log, page))
  }

  ghost predicate Conserved(m: Machine, s: System)
  {
    |FreePages(s.m.used, m.total)| + |s.live| == |FreePages(m.used, m.total)|
  }

  /** Tables in place, translation by the log, nothing lost, nothing faulted, and everything owned. */
  ghost predicate Inv(m: Machine, s: System)
  {
    SameTables(m, s.m) && Owned(m, s) && Logged(m, s) && Conserved(m, s)
  }

  /** The machine of the start with the bitmap of now, on which the log has been followed. */
  function Base(m: Machine, s: System): Machine
  {
    m.(used := s.m.used)
  }

  /** Freeing a page that is owned, or that is not in use, or that the allocator and the tables do not know. */
  ghost predicate HarmlessFree(m: Machine, s: System, page: Frame)
  {
    || page in s.live || page !in s.m.used
    || (m.total <= page && page != 0 && !IsStructure(m.cells, m.dir, page))
  }

  /** A store outside directory and tables, or of an entry that says what is the case. */
  ghost predicate HarmlessStore(m: Machine, s: System, g: Frame, j: Slot, e: Entry)
  {
    && (g == m.dir ==> KernelEntry(e) && e.frame == Table(m.cells, m.dir, j))
    && (forall i: Slot :: Table(m.cells, m.dir, i) == g ==> KernelEntry(e) && e.frame == LogFrame(s.log, i * 1024 + j))
  }

  /** What a caller has to see to before each call or store. */
  ghost predicate Harmless(m: Machine, s: System, op: Op)
  {
    match op
    case Alloc => true
    case Free(page) => HarmlessFree(m, s, page)
    case Map(call) => Lands(Base(m, s), s.log, s.m, call)
    case Store(page, slot, value) =>
      Reach(s.m, page).Some? && HarmlessStore(m, s, Reach(s.m, page).value, slot, value)
  }

  ghost predicate HarmlessRun(m: Machine, ops: seq<Op>)
  {
    ops == [] ||
    (HarmlessRun(m, ops[..|ops| - 1]) && Harmless(m, Run(Start(m), ops[..|ops| - 1]), ops[|ops| - 1]))
  }

  lemma InvFollowsLog(m: Machine, s: System)
    requires SameTables(m, s.m) && Logged(m, s)
    ensures FollowsLog(Base(m, s), s.log, s.m)
  {
  }

  lemma SameStructures(m: Machine, m': Machine, f: Frame)
    requires SameTables(m, m')
    ensures IsStructure(m'.cells, m.dir, f) <==> IsStructure(m.cells, m.dir, f)
  {
    if IsStructure(m.cells, m.dir, f) && f != m.dir {
      var i: Slot :| Table(m.cells, m.dir, i) == f;
      assert Table(m'.cells, m.dir, i) == f;
    }
  }

  lemma AllocKeeps(m: Machine, s: System)
    requires Inv(m, s) && !m.halted
    ensures Inv(m, Step(s, Alloc))
  {
    AllocOwned(m, s);
    if FreePages(s.m.used, m.total) != {} {
      AllocTakesOne(s.m.used, m.total);
    }
  }

  // ------------------------------------------------------------------- freeing ---

  lemma LiveFreeKeeps(m: Machine, s: System, page: Frame)
    requires Inv(m, s) && page in s.live && !m.halted
    ensures Inv(m, Step(s, Free(page)))
  {
    FreeOwned(m, s, page);
    FreeReturnsOne(s.m.used, m.total, page);
    assert |s.live - multiset{page}| == |s.live| - 1;
  }

  lemma StrangeFreeIs(s: System, page: Frame)
    requires page !in s.live && !s.m.halted
    ensures Step(s, Free(page)) == s.(m := s.m.(used := s.m.used - {page}))
  {
    assert s.live - multiset{page} == s.live;
  }

  /** Freeing a page that is in use and not owned makes the allocator have one too many. */
  lemma StrangeFreeGains(m: Machine, s: System, page: Frame)
    requires Inv(m, s) && !m.halted && page !in s.live && page in s.m.used && page < m.total
    ensures !Conserved(m, Step(s, Free(page)))
  {
    StrangeFreeIs(s, page);
    FreeReturnsOne(s.m.used, m.total, page);
  }

  /** Beyond the allocator's range only the null page and the tables matter. */
  lemma UnknownFreeKeepsIff(m: Machine, s: System, page: Frame)
    requires Inv(m, s) && !m.halted && page !in s.live && m.total <= page
    ensures Inv(m, Step(s, Free(page))) <==> page !in s.m.used || (page != 0 && !IsStructure(m.cells, m.dir, page))
  {
    StrangeFreeIs(s, page);
    assert FreePages(s.m.used - {page}, m.total) == FreePages(s.m.used, m.total);
  }

  lemma UnusedFreeIsNothing(s: System, page: Frame)
    requires page !in s.live && page !in s.m.used && !s.m.halted
    ensures Step(s, Free(page)) == s
  {
    StrangeFreeIs(s, page);
    assert s.m.used - {page} == s.m.used;
  }

  lemma FreeKeepsIff(m: Machine, s: System, page: Frame)
    requires Inv(m, s) && !m.halted
    ensures Inv(m, Step(s, Free(page))) <==> HarmlessFree(m, s, page)
  {
    if page in s.live {
      LiveFreeKeeps(m, s, page);
    } else if page !in s.m.used {
      UnusedFreeIsNothing(s, page);
    } else if page < m.total {
      StrangeFreeGains(m, s, page);
    } else {
      UnknownFreeKeepsIff(m, s, page);
    }
  }

  // ------------------------------------------------------------------- storing ---

  /** An entry of the directory or of a table, written over by one that says the same. */
  lemma SameEntryKeeps(m: Machine, s: System, g: Frame, j: Slot, e: Entry)
    requires SameTables(m, s.m) && Logged(m, s) && HarmlessStore(m, s, g, j, e) && IsStructure(m.cells, m.dir, g)
    ensures var s' := s.(m := s.m.(cells := s.m.cells[Cell(g, j) := e]));
      SameTables(m, s'.m) && Logged(m, s')
  {
    var cells' := s.m.cells[Cell(g, j) := e];
    var was := s.m.cells[Cell(g, j)];
    assert KernelEntry(was) && KernelEntry(e) && e.frame == was.frame by {
      InvFollowsLog(m, s);
      if g != m.dir {
        var i: Slot :| Table(m.cells, m.dir, i) == g;
        EntryHoldsLogFrame(Base(m, s), s.log, s.m, i, j);
        assert Table(s.m.cells, m.dir, i) == g;
      } else {
        assert Table(s.m.cells, m.dir, j) == Table(m.cells, m.dir, j);
      }
    }
    forall f: Frame, k: Slot
      ensures Agree(s.m.cells[Cell(f, k)], cells'[Cell(f, k)])
    {
      CellInjective(f, k, g, j);
    }
    SameFramesWalk(s.m.cells, cells', m.dir);
  }

  /** Entries that lead alike. */
  predicate Agree(e: Entry, e': Entry)
  {
    e' == e || (KernelEntry(e) && KernelEntry(e') && e'.frame == e.frame)
  }

  /** Memories whose entries lead alike have the same tables and translate alike. */
  lemma SameFramesWalk(cells: Memory, cells': Memory, dir: Frame)
    requires WellFormed(cells, dir)
    requires forall f: Frame, j: Slot :: Agree(cells[Cell(f, j)], cells'[Cell(f, j)])
    ensures WellFormed(cells', dir)
    ensures forall i: Slot :: Table(cells', dir, i) == Table(cells, dir, i)
    ensures forall page: Frame :: Walk(cells', dir, page) == Walk(cells, dir, page)
  {
    forall i: Slot
      ensures KernelEntry(cells'[Cell(dir, i)]) && Table(cells', dir, i) == Table(cells, dir, i)
    {
      assert Agree(cells[Cell(dir, i)], cells'[Cell(dir, i)]);
    }
    forall i: Slot, j: Slot
      ensures KernelEntry(cells'[Cell(Table(cells', dir, i), j)])
      ensures cells'[Cell(Table(cells', dir, i), j)].frame == cells[Cell(Table(cells, dir, i), j)].frame
    {
      assert Agree(cells[Cell(Table(cells, dir, i), j)], cells'[Cell(Table(cells, dir, i), j)]);
    }
    forall page: Frame
      ensures Walk(cells', dir, page) == Walk(cells, dir, page)
    {
      var i: Slot, j: Slot := page / 1024, page % 1024;
      assert KernelEntry(cells[Cell(dir, i)]) && KernelEntry(cells'[Cell(dir, i)]);
      assert cells'[Cell(Table(cells', dir, i), j)].frame == cells[Cell(Table(cells, dir, i), j)].frame;
    }
  }

  lemma HarmlessStoreKeeps(m: Machine, s: System, g: Frame, j: Slot, e: Entry)
    requires Inv(m, s) && HarmlessStore(m, s, g, j, e)
    ensures Inv(m, s.(m := s.m.(cells := s.m.cells[Cell(g, j) := e])))
  {
    if IsStructure(m.cells, m.dir, g) {
      SameEntryKeeps(m, s, g, j, e);
    } else {
      SameStructures(m, s.m, g);
      StoreOutside(s.m.cells, m.dir, g, j, e);
    }
  }

  lemma HarmfulStoreBreaks(m: Machine, s: System, g: Frame, j: Slot, e: Entry)
    requires Inv(m, s.(m := s.m.(cells := s.m.cells[Cell(g, j) := e])))
    ensures HarmlessStore(m, s, g, j, e)
  {
    var s' := s.(m := s.m.(cells := s.m.cells[Cell(g, j) := e]));
    InvFollowsLog(m, s');
    assert s'.m.cells[Cell(g, j)] == e;
    if g == m.dir {
      assert KernelEntry(s'.m.cells[Cell(m.dir, j)]) && Table(s'.m.cells, m.dir, j) == Table(m.cells, m.dir, j);
    }
    forall i: Slot | Table(m.cells, m.dir, i) == g
      ensures KernelEntry(e) && e.frame == LogFrame(s.log, i * 1024 + j)
    {
      assert Table(s'.m.cells, m.dir, i) == g;
      EntryHoldsLogFrame(Base(m, s'), s.log, s'.m, i, j);
    }
  }

  lemma StoreKeepsIff(m: Machine, s: System, page: Frame, slot: Slot, value: Entry)
    requires Inv(m, s) && m.paging && !m.halted
    ensures Inv(m, Step(s, Store(page, slot, value))) <==> Harmless(m, s, Store(page, slot, value))
  {
    assert Walk(s.m.cells, m.dir, page) == Some(LogFrame(s.log, page));
    var g := LogFrame(s.log, page);
    if HarmlessStore(m, s, g, slot, value) {
      HarmlessStoreKeeps(m, s, g, slot, value);
    } else if Inv(m, Step(s, Store(page, slot, value))) {
      HarmfulStoreBreaks(m, s, g, slot, value);
    }
  }

  // ------------------------------------------------------------------- mapping ---

  /** If free and live pages still add up, the call has taken no page. */
  lemma ConservedMapTakesNone(m: Machine, s: System, call: Mapping)
    requires Owned(m, s) && Conserved(m, s) && !s.m.halted && Conserved(m, Step(s, Map(call)))
    ensures MapPage(s.m, call.phys, call.virt).used == s.m.used
  {
    MapTakesAtMostOne(s.m, call);
    if FreePages(s.m.used, m.total) != {} {
      AllocTakesOne(s.m.used, m.total);
    }
  }

  lemma MapFollowsIffKeeps(m: Machine, s: System, call: Mapping)
    requires Inv(m, s) && !m.halted
    ensures Inv(m, Step(s, Map(call)))
       <==> FollowsLog(Base(m, s), s.log + [call], MapPage(s.m, call.phys, call.virt))
  {
    var s' := Step(s, Map(call));
    if Inv(m, s') {
      ConservedMapTakesNone(m, s, call);
      InvFollowsLog(m, s');
    }
  }

  // ------------------------------------------------------------------ the theorem ---

  /** A step keeps the tables intact, and everything accounted for, exactly if it is harmless. */
  lemma StepKeepsIff(m: Machine, s: System, op: Op)
    requires Inv(m, s) && m.paging && !m.halted
    ensures Inv(m, Step(s, op)) <==> Harmless(m, s, op)
  {
    match op
    case Alloc => AllocKeeps(m, s);
    case Free(page) => FreeKeepsIff(m, s, page);
    case Store(page, slot, value) => StoreKeepsIff(m, s, page, slot, value);
    case Map(call) =>
      InvFollowsLog(m, s);
      MapFollowsIffKeeps(m, s, call);
      StepFollowsLogIff(Base(m, s), s.log, s.m, call);
  }

  lemma {:induction false} HarmlessRunKeeps(m: Machine, ops: seq<Op>)
    requires Booted(m) && !m.halted && HarmlessRun(m, ops)
    ensures Inv(m, Run(Start(m), ops))
  {
    if ops != [] {
      HarmlessRunKeeps(m, ops[..|ops| - 1]);
      StepKeepsIff(m, Run(Start(m), ops[..|ops| - 1]), ops[|ops| - 1]);
    }
  }

  ghost predicate KeptThroughout(m: Machine, ops: seq<Op>)
  {
    forall n :: 0 <= n <= |ops| ==> Inv(m, Run(Start(m), ops[..n]))
  }

  lemma {:induction false} HarmlessPrefix(m: Machine, ops: seq<Op>, n: nat)
    requires HarmlessRun(m, ops) && n <= |ops|
    ensures HarmlessRun(m, ops[..n])
  {
    if n < |ops| {
      HarmlessPrefix(m, ops[..|ops| - 1], n);
      assert ops[..|ops| - 1][..n] == ops[..n];
    } else {
      assert ops[..n] == ops;
    }
  }

  lemma {:induction false} HarmBreaks(m: Machine, ops: seq<Op>) returns (n: nat)
    requires Booted(m) && !m.halted && !HarmlessRun(m, ops)
    ensures n <= |ops| && !Inv(m, Run(Start(m), ops[..n]))
  {
    var init := ops[..|ops| - 1];
    if HarmlessRun(m, init) {
      HarmlessRunKeeps(m, init);
      StepKeepsIff(m, Run(Start(m), init), ops[|ops| - 1]);
      n := |ops|;
      assert ops[..n] == ops;
    } else {
      n := HarmBreaks(m, init);
      assert init[..n] == ops[..n];
    }
  }

  /**
    Over every interleaving at all: tables in place, translation by the log,
    pages owned once, free plus live pages constant and no fault, after every
    step, exactly if every step is harmless.
   */
  lemma TablesKeptIff(m: Machine, ops: seq<Op>)
    requires Booted(m) && !m.halted
    ensures KeptThroughout(m, ops) <==> HarmlessRun(m, ops)
  {
    if HarmlessRun(m, ops) {
      forall n | 0 <= n <= |ops|
        ensures Inv(m, Run(Start(m), ops[..n]))
      {
        HarmlessPrefix(m, ops, n);
        HarmlessRunKeeps(m, ops[..n]);
      }
    } else {
      var n := HarmBreaks(m, ops);
    }
  }

  // ------------------------------------------------------------- ordinary callers ---

  /** A caller that keeps to its own pages: it frees them, stores into them, and maps over no structure page. */
  ghost predicate Allowed(m: Machine, s: System, op: Op)
  {
    match op
    case Alloc => true
    case Free(page) => page in s.live
    case Map(call) => !IsStructure(m.cells, m.dir, call.virt / 4096)
    case Store(page, _, _) => Reach(s.m, page).Some? && Reach(s.m, page).value in s.live
  }

  ghost predicate AllowedRun(m: Machine, ops: seq<Op>)
  {
    ops == [] ||
    (AllowedRun(m, ops[..|ops| - 1]) && Allowed(m, Run(Start(m), ops[..|ops| - 1]), ops[|ops| - 1]))
  }

  ghost predicate OrdinaryLog(m: Machine, log: seq<Mapping>)
  {
    forall a :: 0 <= a < |log| ==> !IsStructure(m.cells, m.dir, log[a].virt / 4096)
  }

  lemma AllowedStepLogsOrdinary(m: Machine, s: System, op: Op)
    requires OrdinaryLog(m, s.log) && Allowed(m, s, op)
    ensures OrdinaryLog(m, Step(s, op).log)
  {
    assert op.Map? && !s.m.halted ==> Step(s, op).log == s.log + [op.call];
  }

  lemma {:induction false} AllowedLogIsOrdinary(m: Machine, ops: seq<Op>)
    requires AllowedRun(m, ops)
    ensures OrdinaryLog(m, Run(Start(m), ops).log)
  {
    if ops != [] {
      AllowedLogIsOrdinary(m, ops[..|ops| - 1]);
      AllowedStepLogsOrdinary(m, Run(Start(m), ops[..|ops| - 1]), ops[|ops| - 1]);
    }
  }

  lemma OrdinaryMapLands(m: Machine, s: System, call: Mapping)
    requires Inv(m, s) && OrdinaryLog(m, s.log)
    ensures Lands(Base(m, s), s.log, s.m, call)
  {
    var t := Table(m.cells, m.dir, call.virt / 4096 / 1024);
    assert IsStructure(m.cells, m.dir, t);
    LogKeepsUnwritten(s.log, t);
    LogKeepsUnwritten(s.log, m.dir);
    InvFollowsLog(m, s);
    KeptDirectoryLandsIff(Base(m, s), s.log, s.m, call);
  }

  lemma AllowedIsHarmless(m: Machine, s: System, op: Op)
    requires Inv(m, s) && OrdinaryLog(m, s.log) && Allowed(m, s, op)
    ensures Harmless(m, s, op)
  {
    if op.Map? {
      OrdinaryMapLands(m, s, op.call);
    }
  }

  lemma {:induction false} AllowedRunIsHarmless(m: Machine, ops: seq<Op>)
    requires Booted(m) && !m.halted && AllowedRun(m, ops)
    ensures HarmlessRun(m, ops)
  {
    if ops != [] {
      var init := ops[..|ops| - 1];
      AllowedRunIsHarmless(m, init);
      HarmlessRunKeeps(m, init);
      AllowedLogIsOrdinary(m, init);
      AllowedIsHarmless(m, Run(Start(m), init), ops[|ops| - 1]);
    }
  }

  lemma {:induction false} HaltedRunStays(m: Machine, ops: seq<Op>)
    requires m.halted
    ensures Run(Start(m), ops) == Start(m)
  {
    if ops != [] {
      HaltedRunStays(m, ops[..|ops| - 1]);
    }
  }

  /** In particular for callers that keep to their own pages. */
  lemma EveryRunKeepsTables(m: Machine, ops: seq<Op>)
    requires Booted(m) && AllowedRun(m, ops)
    ensures Inv(m, Run(Start(m), ops))
  {
    if m.halted {
      HaltedRunStays(m, ops);
    } else {
      AllowedRunIsHarmless(m, ops);
      HarmlessRunKeeps(m, ops);
    }
  }
}
