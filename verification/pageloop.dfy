/**
 The page counter of `main` as Go runs it: `i` is a 64-bit `int`, so `i++`
 wraps from the largest value to the smallest. The loop
 `for i := startPage; i <= endPage; i++` then never exits when `endPage` is
 the largest `int`, since every `int` is at most `endPage`. The corrected
 loop stops after processing `endPage`, before incrementing past it.
 */
module PageLoop {
  import Harvest
  import Listing

  const MinInt64: int := -0x8000_0000_0000_0000
  const MaxInt64: int := 0x7FFF_FFFF_FFFF_FFFF

  predicate IsInt64(i: int) {
    MinInt64 <= i <= MaxInt64
  }

  /** `i++` on a 64-bit `int`: two's-complement arithmetic, so the result is
      the 64-bit value congruent to `i + 1` modulo 2^64. */
  function Inc64(i: int): (j: int)
    requires IsInt64(i)
    ensures IsInt64(j)
    ensures (j - (i + 1)) % 0x1_0000_0000_0000_0000 == 0
  {
    if i == MaxInt64 then MinInt64 else i + 1
  }

  /** Two's-complement congruence picks one 64-bit value: `Inc64` is the only
      way to add one that stays in range and agrees modulo 2^64. */
  lemma Inc64Unique(i: int, j: int)
    requires IsInt64(i) && IsInt64(j)
    requires (j - (i + 1)) % 0x1_0000_0000_0000_0000 == 0
    ensures j == Inc64(i)
  {
    var d := j - (i + 1);
    assert -0x1_0000_0000_0000_0000 <= d < 0x1_0000_0000_0000_0000;
  }

  /** The pages the loop as written visits in its first `fuel` iterations. */
  function PagesAsWritten(i: int, endPage: int, fuel: nat): seq<int>
    requires IsInt64(i) && IsInt64(endPage)
    decreases fuel
  {
    if fuel == 0 || i > endPage then [] else [i] + PagesAsWritten(Inc64(i), endPage, fuel - 1)
  }

  /** With `endPage` the largest `int`, the loop as written runs every
      iteration it is given: it never exits. */
  lemma {:induction false} AsWrittenNeverExits(i: int, fuel: nat)
    requires IsInt64(i)
    ensures |PagesAsWritten(i, MaxInt64, fuel)| == fuel
    decreases fuel
  {
    if fuel > 0 {
      AsWrittenNeverExits(Inc64(i), fuel - 1);
    }
  }

  /** The smallest case: the range holding only the largest `int` visits it,
      then wraps to the smallest `int`, a page far outside the range. */
  lemma AsWrittenLeavesRange()
    ensures PagesAsWritten(MaxInt64, MaxInt64, 2) == [MaxInt64, MinInt64]
    ensures MinInt64 < MaxInt64
  {
    assert PagesAsWritten(MinInt64, MaxInt64, 1) == [MinInt64] + PagesAsWritten(MinInt64 + 1, MaxInt64, 0);
  }

  /** Below the largest `int` the loop as written is right: given enough
      iterations it visits exactly the range. */
  lemma {:induction false} AsWrittenBelowMax(i: int, endPage: int, fuel: nat)
    requires IsInt64(i) && IsInt64(endPage) && endPage < MaxInt64
    requires fuel > endPage - i
    ensures PagesAsWritten(i, endPage, fuel) == Harvest.PageRange(i, endPage)
    decreases fuel
  {
    if i <= endPage {
      AsWrittenBelowMax(i + 1, endPage, fuel - 1);
    }
  }

  /** The corrected loop: stop after `endPage` instead of incrementing past
      it, so that `i` never wraps. */
  function PagesCorrected(i: int, endPage: int): (pages: seq<int>)
    requires IsInt64(i) && IsInt64(endPage)
    ensures forall k :: 0 <= k < |pages| ==> IsInt64(pages[k])
    decreases endPage - i
  {
    if i > endPage then []
    else if i == endPage then [i]
    else [i] + PagesCorrected(Inc64(i), endPage)
  }

  /** The corrected loop visits exactly `startPage..endPage`, for every pair
      of 64-bit bounds. */
  lemma {:induction false} CorrectedIsRange(startPage: int, endPage: int)
    requires IsInt64(startPage) && IsInt64(endPage)
    ensures PagesCorrected(startPage, endPage) == Harvest.PageRange(startPage, endPage)
    decreases endPage - startPage
  {
    if startPage < endPage {
      CorrectedIsRange(startPage + 1, endPage);
    } else if startPage == endPage {
      assert Harvest.PageRange(startPage + 1, endPage) == [];
    }
  }

  /** The harvest run reports exactly the pages the corrected loop visits. */
  lemma CorrectedVisitsRange(outputDir: string, startPage: int, endPage: int,
                             fetch: string -> Listing.FetchedPage,
                             download: (int, Harvest.Download) -> Harvest.DownloadResult)
    requires IsInt64(startPage) && IsInt64(endPage)
    ensures Harvest.ProcessedPages(Harvest.Run(outputDir, startPage, endPage, fetch, download))
         == PagesCorrected(startPage, endPage)
         == Harvest.PageRange(startPage, endPage)
  {
    Harvest.RunProcessesRange(outputDir, startPage, endPage, fetch, download);
    CorrectedIsRange(startPage, endPage);
  }
}
