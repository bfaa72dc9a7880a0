/**
  What creations cost (`kernel/process.cpp` with `kernel/memory.cpp`): exactly
  one page each, unless the directory lies at 4 MiB and a process's page that
  has taken its place has no entry 1, so that `map_page` creates a table.
  Here is the exact condition.
 */
module Consumption {
  import opened Options
  import opened PageSet
  import opened Paging
  import opened Processes
  import opened Words
  import opened Granting
  import opened ProcessMemory
  import Placement

  /** After the run exactly the pages given to processes are missing, in ascending order. */
  ghost predicate OnePageEach(m: Machine, ops: seq<Op>)
  {
    Consumed(m, Run(Vacant(m), ops).m, Given(Vacant(m), ops))
  }

  /** Every page that is given out before `p` leads to table 1. */
  ghost predicate Leading(m: Machine, p: Frame)
  {
    forall q: Frame :: q in FreePages(m.used, m.total) && q < p ==> LeadsTo(m, q, 1)
  }

  /** A page to be given out, with two more to come, that would stand in for the directory without an entry 1. */
  ghost predicate Costly(m: Machine, p: Frame, q: nat, r: nat)
  {
    && p in FreePages(m.used, m.total) && q in FreePages(m.used, m.total) && r in FreePages(m.used, m.total)
    && p < q < r && Leading(m, p) && !m.cells[Cell(p, 1)].present
  }

  ghost predicate Frugal(m: Machine)
  {
    m.dir == HOME ==> forall p: Frame, q: nat, r: nat :: !Costly(m, p, q, r)
  }

  // ---------------------------------------------------------- the three situations ---

  ghost function TableOne(m: Machine): Frame
  {
    Table(m.cells, m.dir, 1)
  }

  /** The directory is found at its own address. */
  ghost predicate Direct(m0: Machine, m: Machine, given: seq<Frame>)
  {
    && Walk(m.cells, m0.dir, m0.dir) == Some(m0.dir)
    && (m0.dir == HOME ==> given == [] && Walk(m.cells, m0.dir, TableOne(m0)) == Some(TableOne(m0)))
  }

  /** The latest process's page stands in for the directory, and table 1 is at its own address. */
  ghost predicate StandsIn(m0: Machine, m: Machine, given: seq<Frame>)
  {
    && m0.dir == HOME && given != [] && Walk(m.cells, m0.dir, HOME) == Some(Last(given))
    && Walk(m.cells, m0.dir, TableOne(m0)) == Some(TableOne(m0)) && Leading(m0, Last(given))
  }

  /** A page stands in for the directory and keeps calls away from table 1, for good. */
  ghost predicate Stuck(m0: Machine, m: Machine, d: Frame)
  {
    && m0.dir == HOME && Walk(m.cells, m0.dir, HOME) == Some(d) && !IsStructure(m0.cells, m0.dir, d)
    && m0.cells[Cell(d, 1)].present && !LeadsTo(m0, d, 1)
  }

  /** Entries 1 of ordinary pages are as they were at boot. */
  ghost predicate Untouched(m0: Machine, m: Machine)
  {
    forall q: Frame :: !IsStructure(m0.cells, m0.dir, q) ==> m.cells[Cell(q, 1)] == m0.cells[Cell(q, 1)]
  }

  ghost predicate Situated(m0: Machine, m: Machine, given: seq<Frame>)
  {
    && Untouched(m0, m)
    && (Direct(m0, m, given) || StandsIn(m0, m, given) || exists d: Frame :: Stuck(m0, m, d))
  }

  /** No page is in use that was neither in use at boot nor given out. */
  ghost predicate Accounted(m0: Machine, m: Machine, given: seq<Frame>)
  {
    forall q: nat :: q in m.used ==> q in m0.used || q in given
  }

  // -------------------------------------------------------- one write to an entry 0 ---

  /** The entry that maps 4 MiB is entry 0 of table 1. */
  lemma HomeEntry(m0: Machine, m: Machine, g: Frame, e: Entry, page: Frame)
    requires Started(m0) && Anchored(m0, m) && g != m0.dir && e.present && (page == HOME || g == TableOne(m0))
    ensures Walk(m.cells[Cell(g, 0) := e], m0.dir, page)
         == if page == HOME && g == TableOne(m0) then Some(e.frame) else Walk(m.cells, m0.dir, page)
  {
    StoreWalks(m0, m, g, 0, e, page);
    var i: Slot := page / 1024;
    assert i != 1 ==> Table(m0.cells, m0.dir, i) != Table(m0.cells, m0.dir, 1);
  }

  lemma ZeroEntryUntouched(m0: Machine, m: Machine, g: Frame, e: Entry)
    requires Untouched(m0, m)
    ensures Untouched(m0, m.(cells := m.cells[Cell(g, 0) := e]))
  {
    forall q: Frame | !IsStructure(m0.cells, m0.dir, q)
      ensures m.cells[Cell(g, 0) := e][Cell(q, 1)] == m0.cells[Cell(q, 1)]
    {
      CellInjective(g, 0, q, 1);
    }
  }

  // ---------------------------------------------------------------- one more process ---

  lemma DirectStep(m0: Machine, m: Machine, given: seq<Frame>, p: Frame)
    requires Started(m0) && Anchored(m0, m) && Untouched(m0, m) && Direct(m0, m, given)
    ensures var m' := MapPage(m, PageAddr(p), FOUR_MIB);
      && m'.used == m.used && Untouched(m0, m')
      && (m0.dir != HOME ==> Direct(m0, m', given + [p]))
      && (m0.dir == HOME ==>
            Walk(m'.cells, m0.dir, HOME) == Some(p) && Walk(m'.cells, m0.dir, TableOne(m0)) == Some(TableOne(m0)))
  {
    var t := TableOne(m0);
    assert m.cells[Cell(m0.dir, 1)] == m0.cells[Cell(m0.dir, 1)] && KernelEntry(m0.cells[Cell(m0.dir, 1)]);
    AnchoredReach(m0, m, t);
    var g := Walk(m.cells, m.dir, t).value;
    assert g != m0.dir;
    FoundEntryWrites(m, m0.dir, g, p);
    var e := Point(m.cells[Cell(g, 0)], p);
    ZeroEntryUntouched(m0, m, g, e);
    if m0.dir == HOME {
      HomeEntry(m0, m, g, e, HOME);
      HomeEntry(m0, m, g, e, t);
    } else {
      DirectoryKept(m0, m, g, e);
    }
  }

  lemma DirectoryKept(m0: Machine, m: Machine, g: Frame, e: Entry)
    requires Started(m0) && Anchored(m0, m) && Walk(m.cells, m0.dir, m0.dir) == Some(m0.dir) && m0.dir != HOME
    requires e.present && (g == TableOne(m0) || !IsStructure(m0.cells, m0.dir, g))
    ensures Walk(m.cells[Cell(g, 0) := e], m0.dir, m0.dir) == Some(m0.dir)
  {
    assert TableOne(m0) != m0.dir;
    StoreWalks(m0, m, g, 0, e, m0.dir);
    var i: Slot := m0.dir / 1024;
    assert i != 1 ==> Table(m0.cells, m0.dir, i) != Table(m0.cells, m0.dir, 1);
    assert IsStructure(m0.cells, m0.dir, Table(m0.cells, m0.dir, i));
  }

  /** The frame that a stand-in's entry leads to is neither table 1 nor the directory. */
  lemma StuckTarget(m0: Machine, m: Machine, d: Frame)
    requires Started(m0) && Anchored(m0, m) && Stuck(m0, m, d)
    ensures var g := Walk(m.cells, m0.dir, m0.cells[Cell(d, 1)].frame);
      g.Some? && g.value != TableOne(m0) && g.value != m0.dir
  {
    var r := m0.cells[Cell(d, 1)].frame;
    AnchoredReach(m0, m, r);
    assert IsStructure(m0.cells, m0.dir, TableOne(m0));
  }

  lemma StuckStep(m0: Machine, m: Machine, d: Frame, p: Frame)
    requires Started(m0) && Anchored(m0, m) && Untouched(m0, m) && Stuck(m0, m, d)
    ensures var m' := MapPage(m, PageAddr(p), FOUR_MIB);
      m'.used == m.used && Untouched(m0, m') && Stuck(m0, m', d)
  {
    StuckTarget(m0, m, d);
    var g := Walk(m.cells, m0.dir, m0.cells[Cell(d, 1)].frame).value;
    assert m.cells[Cell(d, 1)] == m0.cells[Cell(d, 1)];
    FoundEntryWrites(m, d, g, p);
    var e := Point(m.cells[Cell(g, 0)], p);
    ZeroEntryUntouched(m0, m, g, e);
    HomeEntry(m0, m, g, e, HOME);
  }

  lemma StandInStep(m0: Machine, m: Machine, given: seq<Frame>, p: Frame)
    requires Started(m0) && Anchored(m0, m) && Untouched(m0, m) && StandsIn(m0, m, given)
    requires !IsStructure(m0.cells, m0.dir, Last(given)) && LeadsTo(m0, Last(given), 1)
    ensures var m' := MapPage(m, PageAddr(p), FOUR_MIB);
      && m'.used == m.used && Untouched(m0, m') && Walk(m'.cells, m0.dir, HOME) == Some(p)
      && Walk(m'.cells, m0.dir, TableOne(m0)) == Some(TableOne(m0))
  {
    var t := TableOne(m0);
    assert m.cells[Cell(Last(given), 1)] == m0.cells[Cell(Last(given), 1)];
    FoundEntryWrites(m, Last(given), t, p);
    var e := Point(m.cells[Cell(t, 0)], p);
    assert t != m0.dir;
    ZeroEntryUntouched(m0, m, t, e);
    HomeEntry(m0, m, t, e, HOME);
    HomeEntry(m0, m, t, e, t);
  }

  /** The page given out next extends the leading ones if the latest leads to table 1. */
  lemma LeadingExtends(m0: Machine, m: Machine, given: seq<Frame>)
    requires m.total == m0.total && Consumed(m0, m, given) && Accounted(m0, m, given) && FreePages(m.used, m.total) != {}
    requires given != [] ==> Leading(m0, Last(given)) && LeadsTo(m0, Last(given), 1)
    ensures Leading(m0, NextFrame(m.used, m.total))
  {
    var p := NextFrame(m.used, m.total);
    forall q: Frame | q in FreePages(m0.used, m0.total) && q < p
      ensures LeadsTo(m0, q, 1)
    {
      assert q in m.used && q in given;
      var x :| 0 <= x < |given| && given[x] == q;
      assert q <= Last(given);
    }
  }

  /** Without an entry 1 nothing more than the page is taken if it was the last. */
  lemma LastPageStep(m: Machine, d: Frame, p: Frame)
    requires m.paging && Walk(m.cells, m.dir, m.dir) == Some(d) && FreePages(m.used, m.total) == {}
    ensures MapPage(m, PageAddr(p), FOUR_MIB).used == m.used
  {
  }

  lemma CostlyPageIsLast(m0: Machine, m: Machine, given: seq<Frame>)
    requires Frugal(m0) && m0.dir == HOME && m.total == m0.total && Consumed(m0, m, given) && given != []
    requires Leading(m0, Last(given)) && !m0.cells[Cell(Last(given), 1)].present && FreePages(m.used, m.total) != {}
    ensures FreePages(UsedAfterAlloc(m.used, m.total), m.total) == {}
  {
    var q := NextPage(m.used, m.total);
    forall r: nat
      ensures r !in FreePages(UsedAfterAlloc(m.used, m.total), m.total)
    {
      assert !Costly(m0, Last(given), q, r);
    }
  }

  lemma StandInMaps(m0: Machine, m: Machine, given: seq<Frame>)
    requires Started(m0) && Frugal(m0) && Anchored(m0, m) && Consumed(m0, m, given) && Accounted(m0, m, given)
    requires Untouched(m0, m) && StandsIn(m0, m, given) && FreePages(m.used, m.total) != {}
    ensures var m', p := Grant(m, FOUR_MIB).0, NextFrame(m.used, m.total);
      && m'.used == UsedAfterAlloc(m.used, m.total)
      && (FreePages(m'.used, m.total) != {} ==> Situated(m0, m', given + [p]))
  {
    var m1, p, a := m.(used := UsedAfterAlloc(m.used, m.total)), NextFrame(m.used, m.total), Last(given);
    GivenIsOrdinary(m0, m, given);
    TakingKeepsAnchored(m0, m);
    ConsumeOne(m0, m, given);
    if !m0.cells[Cell(a, 1)].present {
      CostlyPageIsLast(m0, m, given);
      LastPageStep(m1, a, p);
    } else if LeadsTo(m0, a, 1) {
      LeadingExtends(m0, m, given);
      StandInStep(m0, m1, given, p);
      assert StandsIn(m0, Grant(m, FOUR_MIB).0, given + [p]);
    } else {
      assert Stuck(m0, m1, a);
      StuckStep(m0, m1, a, p);
    }
  }

  lemma DirectMaps(m0: Machine, m: Machine, given: seq<Frame>)
    requires Started(m0) && Anchored(m0, m) && Consumed(m0, m, given) && Accounted(m0, m, given)
    requires Untouched(m0, m) && Direct(m0, m, given) && FreePages(m.used, m.total) != {}
    ensures var m', p := Grant(m, FOUR_MIB).0, NextFrame(m.used, m.total);
      m'.used == UsedAfterAlloc(m.used, m.total) && Situated(m0, m', given + [p])
  {
    var m1, p := m.(used := UsedAfterAlloc(m.used, m.total)), NextFrame(m.used, m.total);
    TakingKeepsAnchored(m0, m);
    ConsumeOne(m0, m, given);
    DirectStep(m0, m1, given, p);
    if m0.dir == HOME {
      LeadingExtends(m0, m, given);
      assert StandsIn(m0, Grant(m, FOUR_MIB).0, given + [p]);
    }
  }

  /** A page granted at 4 MiB is the only one taken. */
  lemma GrantTakesOne(m0: Machine, m: Machine, given: seq<Frame>)
    requires Started(m0) && Frugal(m0) && Anchored(m0, m) && Consumed(m0, m, given) && Accounted(m0, m, given)
    requires Situated(m0, m, given) && FreePages(m.used, m.total) != {}
    ensures var m', p := Grant(m, FOUR_MIB).0, NextFrame(m.used, m.total);
      && m'.used == UsedAfterAlloc(m.used, m.total)
      && (FreePages(m'.used, m.total) != {} ==> Situated(m0, m', given + [p]))
  {
    if Direct(m0, m, given) {
      DirectMaps(m0, m, given);
    } else if StandsIn(m0, m, given) {
      StandInMaps(m0, m, given);
    } else {
      var d: Frame :| Stuck(m0, m, d);
      var m1, p := m.(used := UsedAfterAlloc(m.used, m.total)), NextFrame(m.used, m.total);
      TakingKeepsAnchored(m0, m);
      ConsumeOne(m0, m, given);
      StuckStep(m0, m1, d, p);
    }
  }

  // --------------------------------------------------------------------------- runs ---

  /** What every run keeps. */
  ghost predicate Thrifty(m0: Machine, k: Kernel, given: seq<Frame>)
  {
    && Anchored(m0, k.m) && Consumed(m0, k.m, given) && Accounted(m0, k.m, given) && Numbered(k, given)
    && (FreePages(k.m.used, k.m.total) != {} ==> Situated(m0, k.m, given))
  }

  lemma StartIsThrifty(m: Machine)
    requires Started(m)
    ensures Thrifty(m, Vacant(m), [])
  {
    StartPidsDistinct(m);
    StartIsAnchored(m);
    assert Direct(m, m, []);
  }

  /** A step that gives out a page is a grant at 4 MiB; the others leave memory alone. */
  lemma StepGrants(m0: Machine, k: Kernel, op: Op, given: seq<Frame>)
    requires Started(m0) && Anchored(m0, k.m) && Numbered(k, given)
    ensures Creates(k, op) ==> FreePages(k.m.used, k.m.total) != {} && Step(k, op).m == Grant(k.m, FOUR_MIB).0
    ensures !Creates(k, op) ==> Step(k, op).m == k.m
  {
    if FreePages(k.m.used, k.m.total) == {} {
      NoPageComesBack(m0, k, op);
      if op.OpCreate? || op.OpFork? {
        NoPageNoProcess(k, if op.OpCreate? then op.entry else 0);
      }
    } else if op.OpCreate? || (op.OpFork? && k.current.Some?) {
      CreateOrNothing(m0, k, if op.OpCreate? then op.entry else 0);
    } else {
      OtherStepsKeepMemory(k, op);
    }
  }

  lemma CreateOrNothing(m0: Machine, k: Kernel, entry: Word)
    requires Started(m0) && Anchored(m0, k.m) && PidsDistinct(k)
    ensures Create(k, entry).1 != 0 ==> CanCreate(k) && Create(k, entry).0.m == Grant(k.m, FOUR_MIB).0
    ensures Create(k, entry).1 == 0 ==> Create(k, entry).0.m == k.m
  {
    CreateSucceedsIff(m0, k, entry);
    if CanCreate(k) {
      CreateGrants(k, entry);
    } else if FreePages(k.m.used, k.m.total) == {} {
      NoPageNoProcess(k, entry);
    }
  }

  lemma StepIsThrifty(m0: Machine, k: Kernel, op: Op, given: seq<Frame>)
    requires Started(m0) && Frugal(m0) && Thrifty(m0, k, given)
    ensures Thrifty(m0, Step(k, op), GivenBy(k, op, given))
  {
    StepKeepsAnchored(m0, k, op);
    FewPages(m0, k.m, given);
    StepNumbers(m0, k, op, given);
    StepGrants(m0, k, op, given);
    if Creates(k, op) {
      ConsumeOne(m0, k.m, given);
      GrantTakesOne(m0, k.m, given);
    }
  }

  lemma {:induction false} RunIsThrifty(m: Machine, ops: seq<Op>)
    requires Started(m) && Frugal(m)
    ensures Thrifty(m, Run(Vacant(m), ops), Given(Vacant(m), ops))
  {
    if ops == [] {
      StartIsThrifty(m);
    } else {
      var n := |ops| - 1;
      RunIsThrifty(m, ops[..n]);
      StepIsThrifty(m, Run(Vacant(m), ops[..n]), ops[n], Given(Vacant(m), ops[..n]));
    }
  }

  /**
    From an empty table every run, however long, of creations interleaved with
    terminate, schedule, exit and fork consumes exactly one page per success,
    in ascending order, and nothing faults: table 1 may lie at 4 MiB.
   */
  lemma CreationsConsumePages(m: Machine, ops: seq<Op>)
    requires Started(m) && Frugal(m)
    ensures OnePageEach(m, ops) && !Run(Vacant(m), ops).m.halted
  {
    RunIsThrifty(m, ops);
  }

  // ---------------------------------------------------------------- the extra page ---

  lemma TwoPagesAreLeft(m: Machine, m1: Machine, given: seq<Frame>, q: nat, r: nat)
    requires Holds(m, m1, given) && given != [] && Last(given) < q < r
    requires q in FreePages(m.used, m.total) && r in FreePages(m.used, m.total)
    ensures |FreePages(m1.used, m.total)| >= 2
  {
    forall x | 0 <= x < |given|
      ensures given[x] in FreePages(m.used, m.total) - {q, r}
    {
      assert given[x] <= Last(given);
    }
    Placement.AscendingFits(given, FreePages(m.used, m.total) - {q, r});
    assert FreePages(m.used, m.total) == FreePages(m.used, m.total) - {q, r} + {q, r};
  }

  /** Without an entry 1 a table is created, in a page of its own. */
  lemma AbsentEntryTakesPage(m: Machine, d: Frame, p: Frame)
    requires m.paging && Walk(m.cells, m.dir, m.dir) == Some(d) && !m.cells[Cell(d, 1)].present
    ensures MapPage(m, PageAddr(p), FOUR_MIB).used == UsedAfterAlloc(m.used, m.total)
  {
  }

  lemma StandInIsFound(m0: Machine, m: Machine, given: seq<Frame>)
    requires Started(m0) && m0.dir == HOME && Holds(m0, m, given) && given != []
    ensures Walk(m.cells, m.dir, m.dir) == Some(Last(given))
    ensures m.cells[Cell(Last(given), 1)] == m0.cells[Cell(Last(given), 1)]
  {
    GivenIsOrdinary(m0, m, given);
    MappedTables(m0, m, given);
    assert IsStructure(m0.cells, m0.dir, TableOne(m0));
    OtherFramesKept(m0, m, given, Last(given), 1);
  }

  lemma GrantTakesTwo(m0: Machine, m: Machine, given: seq<Frame>)
    requires Started(m0) && m0.dir == HOME && Holds(m0, m, given) && given != []
    requires !m0.cells[Cell(Last(given), 1)].present && |FreePages(m.used, m.total)| >= 2
    ensures |FreePages(Grant(m, FOUR_MIB).0.used, m.total)| == |FreePages(m.used, m.total)| - 2
  {
    var m1 := m.(used := UsedAfterAlloc(m.used, m.total));
    NullIffExhausted(m.used, m.total);
    StandInIsFound(m0, m, given);
    AbsentEntryTakesPage(m1, Last(given), NextFrame(m.used, m.total));
    AllocTakesOne(m.used, m.total);
    AllocTakesOne(m1.used, m.total);
  }

  /** With such a page among the free ones, some run loses a page. */
  lemma CostlyPageCosts(m: Machine, p: Frame, q: nat, r: nat) returns (ops: seq<Op>)
    requires Started(m) && m.dir == HOME && Costly(m, p, q, r)
    ensures !OnePageEach(m, ops)
  {
    Placement.StartIsReached(m);
    ops := Placement.ReachPage(m, p, []);
    var k, given := Run(Vacant(m), ops), Given(Vacant(m), ops);
    TwoPagesAreLeft(m, k.m, given, q, r);
    GrantTakesTwo(m, k.m, given);
    NoRunFaults(Vacant(m), ops);
    CreateOrNothing(m, k, 0);
    CreateSucceedsIff(m, k, 0);
    Placement.RunSnoc(m, ops, OpCreate(0));
    ops := ops + [OpCreate(0)];
  }

  /**
    Over every run each success consumes exactly one page, exactly if the
    directory is not at 4 MiB, or no page without an entry 1 can come to stand
    in for it while two more pages are free.
   */
  lemma ConsumptionIff(m: Machine)
    requires Started(m)
    ensures (forall ops: seq<Op> :: OnePageEach(m, ops)) <==> Frugal(m)
  {
    if Frugal(m) {
      forall ops: seq<Op>
        ensures OnePageEach(m, ops)
      {
        CreationsConsumePages(m, ops);
      }
    } else {
      var p: Frame, q: nat, r: nat :| Costly(m, p, q, r);
      var ops := CostlyPageCosts(m, p, q, r);
    }
  }
}
