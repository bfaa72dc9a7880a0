/**
  First-fit page allocation (`allocate_page` of `kernel/memory.cpp`) on the
  set of used page numbers, and what a run of consecutive allocations does.
 */
module PageSet {

  /** Names the comparison, so that the comprehension below has a trigger. */
  predicate IsPage(p: nat, n: nat)
  {
    p < n
  }

  function PagesBelow(n: nat): set<nat>
  {
    set p: nat | p < n && IsPage(p, n)
  }

  function FreePages(used: set<nat>, n: nat): set<nat>
  {
    PagesBelow(n) - used
  }

  lemma {:induction false} PagesBelowSize(n: nat)
    ensures |PagesBelow(n)| == n
  {
    if n > 0 {
      PagesBelowSize(n - 1);
      assert PagesBelow(n) == PagesBelow(n - 1) + {n - 1};
    } else {
      assert PagesBelow(0) == {};
    }
  }

  /** Free pages and used pages add up to the whole of memory, whatever the bitmap holds. */
  lemma FreePlusUsed(used: set<nat>, n: nat)
    ensures |FreePages(used, n)| + |used * PagesBelow(n)| == n
  {
    PagesBelowSize(n);
    assert FreePages(used, n) + used * PagesBelow(n) == PagesBelow(n);
    assert FreePages(used, n) !! used * PagesBelow(n);
  }

  ghost predicate IsLeastFree(p: nat, used: set<nat>, n: nat)
  {
    p in FreePages(used, n) && forall q: nat :: q < p ==> q in used
  }

  lemma {:induction false} LeastFreeExists(used: set<nat>, n: nat, i: nat)
    requires FreePages(used, n) != {}
    requires i <= n && forall q: nat :: q < i ==> q in used
    ensures exists p: nat :: IsLeastFree(p, used, n)
    decreases n - i
  {
    if i < n && i in used {
      LeastFreeExists(used, n, i + 1);
    } else if i < n {
      assert IsLeastFree(i, used, n);
    }
  }

  /** The page `allocate_page` picks, as a page number; 0 stands for the null result. */
  ghost function NextPage(used: set<nat>, n: nat): (p: nat)
    ensures FreePages(used, n) == {} ==> p == 0
    ensures FreePages(used, n) != {} ==> IsLeastFree(p, used, n)
  {
    if FreePages(used, n) == {} then 0
    else
      LeastFreeExists(used, n, 0);
      var p: nat :| IsLeastFree(p, used, n);
      p
  }

  ghost function UsedAfterAlloc(used: set<nat>, n: nat): set<nat>
  {
    if FreePages(used, n) == {} then used else used + {NextPage(used, n)}
  }

  /** With page 0 reserved, the null result means exactly that memory is exhausted. */
  lemma NullIffExhausted(used: set<nat>, n: nat)
    requires 0 in used
    ensures NextPage(used, n) == 0 <==> FreePages(used, n) == {}
  {
  }

  lemma FreeBelowNext(used: set<nat>, i: nat)
    ensures |FreePages(used, i + 1)| == |FreePages(used, i)| + (if i in used then 0 else 1)
  {
    if i in used {
      assert FreePages(used, i + 1) == FreePages(used, i);
    } else {
      assert FreePages(used, i + 1) == FreePages(used, i) + {i};
    }
  }

  lemma AllocTakesOne(used: set<nat>, n: nat)
    requires FreePages(used, n) != {}
    ensures |FreePages(UsedAfterAlloc(used, n), n)| == |FreePages(used, n)| - 1
    ensures NextPage(used, n) !in used
  {
    var p := NextPage(used, n);
    assert FreePages(used + {p}, n) == FreePages(used, n) - {p};
  }

  lemma FreeReturnsOne(used: set<nat>, n: nat, p: nat)
    requires p < n
    ensures |FreePages(used - {p}, n)| == |FreePages(used, n)| + (if p in used then 1 else 0)
  {
    if p in used {
      assert FreePages(used - {p}, n) == FreePages(used, n) + {p};
    } else {
      assert used - {p} == used;
    }
  }

  // -------------------------------------- a run of consecutive allocations ---

  /** The set of used pages after `k` consecutive calls of `allocate_page`. */
  ghost function UsedAfter(used: set<nat>, n: nat, k: nat): set<nat>
  {
    if k == 0 then used else UsedAfterAlloc(UsedAfter(used, n, k - 1), n)
  }

  /** The results of `k` consecutive calls of `allocate_page`. */
  ghost function PagesTaken(used: set<nat>, n: nat, k: nat): seq<nat>
  {
    seq(k, i requires 0 <= i => NextPage(UsedAfter(used, n, i), n))
  }

  ghost predicate Distinct(s: seq<nat>)
  {
    forall i, j :: 0 <= i < j < |s| ==> s[i] != s[j]
  }

  lemma {:induction false} UsedGrows(used: set<nat>, n: nat, i: nat, k: nat)
    requires i <= k
    ensures UsedAfter(used, n, i) <= UsedAfter(used, n, k)
    decreases k
  {
    if i < k {
      UsedGrows(used, n, i, k - 1);
    }
  }

  /** While pages last, each call uses up one free page. */
  lemma {:induction false} RunCounts(used: set<nat>, n: nat, k: nat)
    requires k <= |FreePages(used, n)|
    ensures |FreePages(UsedAfter(used, n, k), n)| == |FreePages(used, n)| - k
  {
    if k > 0 {
      RunCounts(used, n, k - 1);
      AllocTakesOne(UsedAfter(used, n, k - 1), n);
    }
  }

  lemma RunTakesFreePage(used: set<nat>, n: nat, i: nat)
    requires i < |FreePages(used, n)|
    ensures NextPage(UsedAfter(used, n, i), n) in FreePages(UsedAfter(used, n, i), n)
    ensures NextPage(UsedAfter(used, n, i), n) in FreePages(used, n)
    ensures UsedAfter(used, n, i + 1) == UsedAfter(used, n, i) + {NextPage(UsedAfter(used, n, i), n)}
  {
    RunCounts(used, n, i);
    UsedGrows(used, n, 0, i);
  }

  lemma LaterPageDiffers(used: set<nat>, n: nat, i: nat, j: nat)
    requires i < j < |FreePages(used, n)|
    ensures NextPage(UsedAfter(used, n, i), n) != NextPage(UsedAfter(used, n, j), n)
  {
    RunTakesFreePage(used, n, i);
    UsedGrows(used, n, i + 1, j);
    RunTakesFreePage(used, n, j);
  }

  /** While pages last, consecutive allocations return pairwise different, formerly free pages ... */
  lemma RunTakesDistinctPages(used: set<nat>, n: nat, k: nat)
    requires k <= |FreePages(used, n)|
    ensures Distinct(PagesTaken(used, n, k))
    ensures forall i :: 0 <= i < k ==> PagesTaken(used, n, k)[i] in FreePages(used, n)
  {
    var pages := PagesTaken(used, n, k);
    forall i, j | 0 <= i < j < k
      ensures pages[i] != pages[j]
    {
      LaterPageDiffers(used, n, i, j);
    }
    forall i | 0 <= i < k
      ensures pages[i] in FreePages(used, n)
    {
      RunTakesFreePage(used, n, i);
    }
  }

  /** ... and every page handed out stays marked. */
  lemma RunMarksPage(used: set<nat>, n: nat, i: nat, k: nat)
    requires i < k <= |FreePages(used, n)|
    ensures NextPage(UsedAfter(used, n, i), n) in UsedAfter(used, n, k)
  {
    RunTakesFreePage(used, n, i);
    UsedGrows(used, n, i + 1, k);
  }

  /** Once pages have run out every further call returns null and marks nothing. */
  lemma {:induction false} RunPastTheEnd(used: set<nat>, n: nat, k: nat)
    requires k >= |FreePages(used, n)|
    ensures FreePages(UsedAfter(used, n, k), n) == {}
    ensures NextPage(UsedAfter(used, n, k), n) == 0
  {
    if k == |FreePages(used, n)| {
      RunCounts(used, n, k);
    } else {
      RunPastTheEnd(used, n, k - 1);
    }
  }
}
