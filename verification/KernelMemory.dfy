/**
  The memory manager of `kernel/memory.cpp` as the kernel runs it: the bitmap
  words, the physical memory and the globals are updated in place.  Every
  method is tied to the page set of `PageSet` and the tables of `Paging`.
 */
module KernelMemory {
  import opened Options
  import opened Bitmap
  import opened PageSet
  import opened Paging
  import opened Words
  import InitSteps

  class MemoryManager {
    // Set up outside memory.cpp; the words lie outside the allocatable pages.
    const totalPages: PageCount
    const bitmap: array<bv32>
    // The 32-bit physical address space, as page-table entries.
    const memory: array<Entry>

    var kernelDirectory: Frame
    var currentDirectory: Frame
    var paging: bool
    var halted: bool

    ghost predicate Valid()
      reads this
    {
      && totalPages <= 32 * bitmap.Length
      && memory.Length == CELLS
      && bitmap as object != memory as object
    }

    ghost function UsedPages(): set<nat>
      reads bitmap
    {
      Used(bitmap[..])
    }

    ghost function View(): Machine
      requires Valid()
      reads this, bitmap, memory
    {
      Machine(totalPages, UsedPages(), memory[..], currentDirectory, paging, halted)
    }

    constructor (totalPages: PageCount, bitmap: array<bv32>, memory: array<Entry>)
      requires totalPages <= 32 * bitmap.Length && memory.Length == CELLS
      requires bitmap as object != memory as object
      ensures Valid()
      ensures this.totalPages == totalPages && this.bitmap == bitmap && this.memory == memory
      ensures currentDirectory == 0 && !paging && !halted
    {
      this.totalPages, this.bitmap, this.memory := totalPages, bitmap, memory;
      kernelDirectory, currentDirectory := 0, 0;
      paging, halted := false, false;
    }

    method IsMarked(page: nat) returns (marked: bool)
      requires page < 32 * bitmap.Length
      ensures marked <==> page in UsedPages()
    {
      marked := bitmap[page / 32] & (1 << (page % 32)) != 0;
      assert marked <==> InUse(bitmap[..], page);
    }

    method MarkPage(page: nat)
      requires page < 32 * bitmap.Length
      modifies bitmap
      ensures UsedPages() == old(UsedPages()) + {page}
    {
      SetAddsPage(bitmap[..], page);
      bitmap[page / 32] := bitmap[page / 32] | (1 << (page % 32));
      assert bitmap[..] == SetPage(old(bitmap[..]), page);
    }

    /** First fit; the result is an address, 0 when no page is free. */
    method AllocatePage() returns (addr: Addr)
      requires Valid()
      modifies bitmap
      ensures Valid()
      ensures UsedPages() == UsedAfterAlloc(old(UsedPages()), totalPages)
      ensures addr == PageAddr(NextFrame(old(UsedPages()), totalPages))
      ensures old(FreePages(UsedPages(), totalPages)) == {} ==> bitmap[..] == old(bitmap[..]) && addr == 0
      ensures old(FreePages(UsedPages(), totalPages)) != {} ==>
        && addr % 4096 == 0 && IsLeastFree(addr / 4096, old(UsedPages()), totalPages)
        && UsedPages() == old(UsedPages()) + {addr / 4096}
    {
      for i := 0 to totalPages
        invariant bitmap[..] == old(bitmap[..])
        invariant forall q: nat :: q < i ==> q in UsedPages()
      {
        var marked := IsMarked(i);
        if !marked {
          FirstFitIsNext(UsedPages(), totalPages, i);
          MarkPage(i);
          return i * 4096;
        }
      }
      assert FreePages(UsedPages(), totalPages) == {};
      return 0;
    }

    method FreePage(ptr: Addr)
      requires Valid()
      requires ptr / 4096 < 32 * bitmap.Length
      modifies bitmap
      ensures Valid()
      ensures UsedPages() == old(UsedPages()) - {ptr / 4096}
    {
      var page := ptr / 4096;
      ClearRemovesPage(bitmap[..], page);
      bitmap[page / 32] := bitmap[page / 32] & !(1 << (page % 32));
      assert bitmap[..] == ClearPage(old(bitmap[..]), page);
    }

    /** `pages * PAGE_SIZE` as a 32-bit product. */
    static method InBytes(pages: PageCount) returns (bytes: Word)
      ensures bytes == 4096 * pages <==> pages < 0x10_0000
      ensures pages == 0x10_0000 ==> bytes == 0
    {
      bytes := pages * 4096 % 0x1_0000_0000;
    }

    /** Exact unless the whole 4 GiB is there, which reads as 0. */
    method GetTotalMemory() returns (bytes: Word)
      ensures bytes == 4096 * totalPages <==> totalPages < 0x10_0000
      ensures totalPages == 0x10_0000 ==> bytes == 0
    {
      bytes := InBytes(totalPages);
    }

    method CountFreePages() returns (pages: PageCount)
      requires Valid()
      ensures pages == |FreePages(UsedPages(), totalPages)|
    {
      var n := 0;
      ghost var used := UsedPages();
      assert FreePages(used, 0) == {};
      for i := 0 to totalPages
        invariant 0 <= n == |FreePages(used, i)|
      {
        FreeBelowNext(used, i);
        var marked := IsMarked(i);
        n := if marked then n else n + 1;
      }
      FreePlusUsed(used, totalPages);
      pages := n;
    }

    /** The free pages in bytes; 0 also when all 2^20 pages exist and are free. */
    method GetFreeMemory() returns (bytes: Word)
      requires Valid()
      ensures bytes == 4096 * |FreePages(UsedPages(), totalPages)| <==> |FreePages(UsedPages(), totalPages)| < 0x10_0000
      ensures |FreePages(UsedPages(), totalPages)| == 0x10_0000 ==> bytes == 0
    {
      var pages := CountFreePages();
      bytes := InBytes(pages);
    }

    /** The processor's address translation; nothing when it faults. */
    method ReachPage(f: Frame) returns (r: Option<Frame>)
      requires Valid()
      ensures r == Reach(View(), f)
      ensures r == if paging then Walk(memory[..], currentDirectory, f) else Some(f)
    {
      if !paging {
        return Some(f);
      }
      var pde := memory[Cell(currentDirectory, f / 1024)];
      if !pde.present {
        return None;
      }
      var pte := memory[Cell(pde.frame, f % 1024)];
      if !pte.present {
        return None;
      }
      return Some(pte.frame);
    }

    method MapPage(physicalAddr: Addr, virtualAddr: Addr)
      requires Valid()
      modifies this, bitmap, memory
      ensures Valid()
      ensures View() == Paging.MapPage(old(View()), physicalAddr, virtualAddr)
      ensures kernelDirectory == old(kernelDirectory)
    {
      var pageIdx: nat := virtualAddr / 4096;
      var tableIdx: Slot := pageIdx / 1024;
      var pageOffset: Slot := pageIdx % 1024;

      var dir := ReachPage(currentDirectory);
      if dir.None? {
        halted := true;
        return;
      }
      var d := dir.value;
      var table: Frame;
      if !memory[Cell(d, tableIdx)].present {
        var page := AllocatePage();
        table := page / 4096;
        PointEntry(Cell(d, tableIdx), table);
        assert View() == CreateTable(old(View()), d, tableIdx);
      } else {
        table := memory[Cell(d, tableIdx)].frame;
      }
      SetEntry(table, pageOffset, physicalAddr / 4096);
    }

    method SetEntry(table: Frame, j: Slot, f: Frame)
      requires Valid()
      modifies this`halted, memory
      ensures View() == WriteEntry(old(View()), table, j, f)
    {
      var t := ReachPage(table);
      if t.None? {
        halted := true;
        return;
      }
      PointEntry(Cell(t.value, j), f);
    }

    method ClearEntry(d: Frame, j: Slot)
      requires Valid()
      modifies this`halted, memory
      ensures View() == InitSteps.ClearEntry(old(View()), d, j)
      ensures FlagsKept(old(memory[..]), memory[..])
    {
      var t := ReachPage(d);
      if t.None? {
        halted := true;
        return;
      }
      var c := Cell(t.value, j);
      memory[c] := memory[c].(present := false);
      assert memory[..] == old(memory[..])[c := old(memory[..])[c].(present := false)];
    }

    method ClearDirectory(d: Frame)
      requires Valid()
      modifies this`halted, memory
      ensures View() == InitSteps.ClearRun(old(View()), d, 1024)
    {
      for j := 0 to 1024
        invariant Valid() && View() == InitSteps.ClearRun(old(View()), d, j)
      {
        if !halted {
          ClearEntry(d, j);
        }
      }
    }

    method FillIdentityTable(f: Frame, i: Slot)
      requires Valid()
      modifies this`halted, memory
      ensures View() == InitSteps.FillRun(old(View()), f, i, 1024)
    {
      for j := 0 to 1024
        invariant Valid() && View() == InitSteps.FillRun(old(View()), f, i, j)
      {
        if !halted {
          SetEntry(f, j, i * 1024 + j);
        }
      }
    }

    /** One round of the loop in `init`. */
    method BuildTable(i: Slot)
      requires Valid()
      modifies this`halted, bitmap, memory
      ensures View() == InitSteps.BuildTable(old(View()), kernelDirectory, i)
    {
      var page := AllocatePage();
      var table: Frame := page / 4096;
      assert View() == InitSteps.Alloc(old(View()));
      FillIdentityTable(table, i);
      if !halted {
        SetEntry(kernelDirectory, i, table);
      }
    }

    method PointEntry(c: nat, f: Frame)
      requires memory.Length == CELLS && c < CELLS
      modifies memory
      ensures memory[..] == old(memory[..])[c := Point(old(memory[..])[c], f)]
      ensures memory[c].present && memory[c].rw && !memory[c].user && memory[c].frame == f
      ensures memory[c].accessed == old(memory[c].accessed)
      ensures memory[c].dirty == old(memory[c].dirty) && memory[c].unused == old(memory[c].unused)
      ensures forall i :: 0 <= i < CELLS && i != c ==> memory[i] == old(memory[i])
    {
      memory[c] := memory[c].(present := true);
      memory[c] := memory[c].(rw := true);
      memory[c] := memory[c].(user := false);
      memory[c] := memory[c].(frame := f);
    }

    method BuildTables()
      requires Valid()
      modifies this`halted, bitmap, memory
      ensures View() == InitSteps.BuildRun(old(View()), kernelDirectory, 1024)
    {
      for i := 0 to 1024
        invariant Valid() && View() == InitSteps.BuildRun(old(View()), kernelDirectory, i)
      {
        if !halted {
          BuildTable(i);
        }
      }
    }

    /** Through the current translation, whatever it is. */
    method Init()
      requires Valid()
      modifies this, bitmap, memory
      ensures Valid()
      ensures View() == InitSteps.Init(old(View()))
      ensures kernelDirectory == NextFrame(old(UsedPages()), totalPages)
    {
      ghost var m := View();
      var page := AllocatePage();
      kernelDirectory := page / 4096;
      assert View() == InitSteps.Alloc(m);
      ClearDirectory(kernelDirectory);
      BuildTables();
      if !halted {
        currentDirectory := kernelDirectory;
        SwitchPageDirectory(currentDirectory);
      }
    }

    method SwitchPageDirectory(dir: Frame)
      modifies this`currentDirectory, this`paging
      ensures currentDirectory == dir && paging
    {
      currentDirectory := dir;
      paging := true;
    }
  }

  lemma FirstFitIsNext(used: set<nat>, n: nat, i: nat)
    requires i in FreePages(used, n) && forall q: nat :: q < i ==> q in used
    ensures NextPage(used, n) == i && UsedAfterAlloc(used, n) == used + {i}
  {
  }
}
