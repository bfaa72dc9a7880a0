/**
  The physical page bitmap of `kernel/memory.cpp`: 32 pages to a word, bit set
  when the page is in use.  The first half is bit arithmetic, the second half
  the set of used page numbers that the words stand for.
 */
module Bitmap {

  // ---------------------------------------------------------------- bits ---

  function Mask(k: nat): bv32
    requires k < 32
  {
    (1 as bv32) << (k as bv6)
  }

  predicate Bit(w: bv32, k: nat)
    requires k < 32
  {
    w & Mask(k) != 0
  }

  lemma ShiftsDisjoint(k: bv6, j: bv6)
    requires k < 32 && j < 32
    ensures (1 as bv32) << k != 0
    ensures k != j ==> ((1 as bv32) << k) & (1 << j) == 0
  {
  }

  lemma ShiftCountInjective(k: nat, j: nat)
    requires k < 32 && j < 32
    ensures k as bv6 < 32 && j as bv6 < 32
    ensures k as bv6 == j as bv6 ==> k == j
  {
    assert (k as bv6) as nat == k;
    assert (j as bv6) as nat == j;
  }

  lemma MasksDisjoint(k: nat, j: nat)
    requires k < 32 && j < 32
    ensures Mask(k) != 0
    ensures k != j ==> Mask(k) & Mask(j) == 0
  {
    ShiftCountInjective(k, j);
    ShiftsDisjoint(k as bv6, j as bv6);
  }

  lemma AndDistributesOverOr(w: bv32, m: bv32, n: bv32)
    ensures (w | m) & n == (w & n) | (m & n)
  {
  }

  lemma OrZero(w: bv32)
    ensures w | 0 == w
  {
  }

  lemma OrMasked(w: bv32, m: bv32, n: bv32)
    requires m & n == 0
    ensures (w | m) & n == w & n
  {
    AndDistributesOverOr(w, m, n);
    OrZero(w & n);
  }

  lemma OrLeavesDisjointBits(w: bv32, m: bv32, n: bv32)
    requires m & n == 0
    ensures (w | m) & n == 0 <==> w & n == 0
  {
    OrMasked(w, m, n);
  }

  lemma ComplementKeepsDisjoint(m: bv32, n: bv32)
    requires m & n == 0
    ensures !m & n == n
  {
  }

  lemma AndAssociates(w: bv32, m: bv32, n: bv32)
    ensures (w & m) & n == w & (m & n)
  {
  }

  lemma ClearMasked(w: bv32, m: bv32, n: bv32)
    requires m & n == 0
    ensures (w & !m) & n == w & n
  {
    AndAssociates(w, !m, n);
    ComplementKeepsDisjoint(m, n);
  }

  lemma ClearLeavesDisjointBits(w: bv32, m: bv32, n: bv32)
    requires m & n == 0
    ensures (w & !m) & n == 0 <==> w & n == 0
  {
    ClearMasked(w, m, n);
  }

  lemma OrThenAnd(w: bv32, m: bv32)
    ensures (w | m) & m == m
  {
  }

  lemma ClearThenAnd(w: bv32, m: bv32)
    ensures (w & !m) & m == 0
  {
  }

  lemma SetSame(w: bv32, k: nat)
    requires k < 32
    ensures Bit(w | Mask(k), k)
  {
    MasksDisjoint(k, k);
    OrThenAnd(w, Mask(k));
  }

  lemma SetOther(w: bv32, k: nat, j: nat)
    requires k < 32 && j < 32 && j != k
    ensures Bit(w | Mask(k), j) == Bit(w, j)
  {
    MasksDisjoint(k, j);
    OrLeavesDisjointBits(w, Mask(k), Mask(j));
  }

  lemma ClearSame(w: bv32, k: nat)
    requires k < 32
    ensures !Bit(w & !Mask(k), k)
  {
    ClearThenAnd(w, Mask(k));
  }

  lemma ClearOther(w: bv32, k: nat, j: nat)
    requires k < 32 && j < 32 && j != k
    ensures Bit(w & !Mask(k), j) == Bit(w, j)
  {
    MasksDisjoint(k, j);
    ClearLeavesDisjointBits(w, Mask(k), Mask(j));
  }

  /** Setting a bit sets that bit and leaves the other 31 as they were. */
  lemma SetBitFrames(w: bv32, k: nat, j: nat)
    requires k < 32 && j < 32
    ensures Bit(w | Mask(k), j) <==> j == k || Bit(w, j)
  {
    if j == k {
      SetSame(w, k);
    } else {
      SetOther(w, k, j);
    }
  }

  // ------------------------------------------------- words as a page set ---

  predicate InUse(words: seq<bv32>, page: nat)
    requires page < 32 * |words|
  {
    Bit(words[page / 32], page % 32)
  }

  /** The page numbers whose bit is set. */
  function Used(words: seq<bv32>): set<nat>
  {
    set page: nat | page < 32 * |words| && InUse(words, page)
  }

  function SetPage(words: seq<bv32>, page: nat): (words': seq<bv32>)
    requires page < 32 * |words|
    ensures |words'| == |words|
  {
    words[page / 32 := words[page / 32] | Mask(page % 32)]
  }

  function ClearPage(words: seq<bv32>, page: nat): (words': seq<bv32>)
    requires page < 32 * |words|
    ensures |words'| == |words|
  {
    words[page / 32 := words[page / 32] & !Mask(page % 32)]
  }

  lemma WordReplaced(words: seq<bv32>, page: nat, w: bv32, q: nat)
    requires page < 32 * |words| && q < 32 * |words|
    ensures InUse(words[page / 32 := w], q) == if q / 32 == page / 32 then Bit(w, q % 32) else InUse(words, q)
    ensures q == page <==> q / 32 == page / 32 && q % 32 == page % 32
  {
  }

  lemma SetPageFrames(words: seq<bv32>, page: nat, q: nat)
    requires page < 32 * |words| && q < 32 * |words|
    ensures InUse(SetPage(words, page), q) <==> q == page || InUse(words, q)
  {
    WordReplaced(words, page, words[page / 32] | Mask(page % 32), q);
    SetBitFrames(words[page / 32], page % 32, q % 32);
  }

  lemma ClearPageSelf(words: seq<bv32>, page: nat)
    requires page < 32 * |words|
    ensures !InUse(ClearPage(words, page), page)
  {
    ClearSame(words[page / 32], page % 32);
  }

  lemma ClearPageOther(words: seq<bv32>, page: nat, q: nat)
    requires page < 32 * |words| && q < 32 * |words| && q != page
    ensures InUse(ClearPage(words, page), q) == InUse(words, q)
  {
    if q / 32 == page / 32 {
      ClearOther(words[page / 32], page % 32, q % 32);
    }
    OtherBitKept(words, page, words[page / 32] & !Mask(page % 32), q);
  }

  lemma OtherBitKept(words: seq<bv32>, page: nat, w: bv32, q: nat)
    requires page < 32 * |words| && q < 32 * |words|
    requires q / 32 == page / 32 ==> Bit(w, q % 32) == Bit(words[page / 32], q % 32)
    ensures InUse(words[page / 32 := w], q) == InUse(words, q)
  {
  }

  lemma ClearPageFrames(words: seq<bv32>, page: nat, q: nat)
    requires page < 32 * |words| && q < 32 * |words|
    ensures InUse(ClearPage(words, page), q) <==> q != page && InUse(words, q)
  {
    if q == page {
      ClearPageSelf(words, page);
    } else {
      ClearPageOther(words, page, q);
    }
  }

  /** The word update of `allocate_page` adds exactly one page. */
  lemma SetAddsPage(words: seq<bv32>, page: nat)
    requires page < 32 * |words|
    ensures Used(SetPage(words, page)) == Used(words) + {page}
  {
    forall q: nat
      ensures q in Used(SetPage(words, page)) <==> q in Used(words) + {page}
    {
      if q < 32 * |words| {
        SetPageFrames(words, page, q);
      }
    }
  }

  /** The word update of `free_page` removes exactly one page. */
  lemma ClearRemovesPage(words: seq<bv32>, page: nat)
    requires page < 32 * |words|
    ensures Used(ClearPage(words, page)) == Used(words) - {page}
  {
    forall q: nat
      ensures q in Used(ClearPage(words, page)) <==> q in Used(words) - {page}
    {
      if q < 32 * |words| {
        ClearPageFrames(words, page, q);
      }
    }
  }
}
