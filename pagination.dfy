/** Block pagination of the board list (src/common/components/Pagination.tsx):
    page buttons come in blocks of five, with "previous block" and "next block"
    buttons and a click guard. Page numbers are integers; `Math.floor` of a
    division by the positive block size is Dafny's `/`. */
module Pagination {
  import opened Wrappers

  const BlockSize := 5

  datatype BlockInfo = BlockInfo(blockIndex: int, startPage: int, endPage: int, isFirstBlock: bool, isLastBlock: bool)

  datatype BlockNavigation = BlockNavigation(
    prevBlockPage: Option<int>, nextBlockPage: Option<int>, showPrevButton: bool, showNextButton: bool)

  function Min(a: int, b: int): int { if a <= b then a else b }

  /** `getCurrentBlockInfo`: the block holding `currentPage` starts at the unique
      page that is 1 modulo 5 and lies at most four pages before it. */
  function CurrentBlockInfo(currentPage: int, totalPages: int): (info: BlockInfo)
    ensures info.startPage % BlockSize == 1
    ensures info.startPage <= currentPage < info.startPage + BlockSize
    ensures info.startPage == info.blockIndex * BlockSize + 1
    ensures info.endPage <= info.startPage + BlockSize - 1 && info.endPage <= totalPages
    ensures info.endPage == info.startPage + BlockSize - 1 || info.endPage == totalPages
    ensures info.isFirstBlock <==> info.startPage == 1
  {
    var blockIndex := (currentPage - 1) / BlockSize;
    var startPage := blockIndex * BlockSize + 1;
    var endPage := Min(totalPages, startPage + BlockSize - 1);
    BlockInfo(blockIndex, startPage, endPage, blockIndex == 0, endPage == totalPages)
  }

  /** `getBlockPageRange`: the page buttons of the current block, built by a loop. */
  method BlockPageRange(currentPage: int, totalPages: int) returns (range: seq<int>)
    ensures var info := CurrentBlockInfo(currentPage, totalPages);
      && (forall k | 0 <= k < |range| :: range[k] == info.startPage + k)
      && (forall p :: p in range <==> info.startPage <= p <= info.endPage)
    ensures |range| <= BlockSize
    ensures 1 <= currentPage <= totalPages ==> currentPage in range
  {
    var startPage := ((currentPage - 1) / BlockSize) * BlockSize + 1;
    var endPage := Min(totalPages, startPage + BlockSize - 1);
    range := [];
    var i := startPage;
    while i <= endPage
      invariant startPage <= i <= if endPage < startPage then startPage else endPage + 1
      invariant |range| == i - startPage
      invariant forall k | 0 <= k < |range| :: range[k] == startPage + k
    {
      range := range + [i];
      i := i + 1;
    }
    forall p ensures p in range <==> startPage <= p <= endPage {
      if startPage <= p <= endPage {
        assert range[p - startPage] == p;
      }
    }
  }

  /** `getBlockNavigation`: the targets of the two block buttons. */
  function Navigation(currentPage: int, totalPages: int): (nav: BlockNavigation)
    ensures var info := CurrentBlockInfo(currentPage, totalPages);
      && (nav.prevBlockPage == None <==> info.blockIndex == 0)
      && (nav.prevBlockPage.Some? ==> nav.prevBlockPage.value == info.startPage - 1)
      && (nav.nextBlockPage == None <==> info.endPage == totalPages)
      && (nav.nextBlockPage.Some? ==> nav.nextBlockPage.value == info.endPage + 1)
      && nav.showPrevButton == nav.prevBlockPage.Some?
      && nav.showNextButton == nav.nextBlockPage.Some?
  {
    var info := CurrentBlockInfo(currentPage, totalPages);
    BlockNavigation(
      if info.isFirstBlock then None else Some(info.startPage - 1),
      if info.isLastBlock then None else Some(info.endPage + 1),
      !info.isFirstBlock,
      !info.isLastBlock)
  }

  /** `handlePageClick`: the page handed to `onPageChange`, if any. */
  function PageClick(page: int, currentPage: int, totalPages: int): (changed: Option<int>)
    ensures changed.Some? ==> changed.value == page
  {
    if page != currentPage && 1 <= page <= totalPages then Some(page) else None
  }

  /** On a page that exists, both block buttons lead to real pages the click guard
      lets through: "previous" to the last page of the previous block and "next" to
      the first page of the next block. */
  lemma BlockButtonsLeadToNeighbourBlocks(currentPage: int, totalPages: int)
    requires 1 <= currentPage <= totalPages
    ensures var info, nav := CurrentBlockInfo(currentPage, totalPages), Navigation(currentPage, totalPages);
      && (nav.prevBlockPage.Some? ==>
            && PageClick(nav.prevBlockPage.value, currentPage, totalPages) == nav.prevBlockPage
            && CurrentBlockInfo(nav.prevBlockPage.value, totalPages).blockIndex == info.blockIndex - 1
            && CurrentBlockInfo(nav.prevBlockPage.value, totalPages).endPage == nav.prevBlockPage.value)
      && (nav.nextBlockPage.Some? ==>
            && PageClick(nav.nextBlockPage.value, currentPage, totalPages) == nav.nextBlockPage
            && CurrentBlockInfo(nav.nextBlockPage.value, totalPages).blockIndex == info.blockIndex + 1
            && CurrentBlockInfo(nav.nextBlockPage.value, totalPages).startPage == nav.nextBlockPage.value)
  {
    var info, nav := CurrentBlockInfo(currentPage, totalPages), Navigation(currentPage, totalPages);
    if nav.prevBlockPage.Some? {
      var prev := nav.prevBlockPage.value;
      assert info.blockIndex >= 1;
      assert prev == (info.blockIndex - 1) * BlockSize + BlockSize;
      assert (prev - 1) / BlockSize == info.blockIndex - 1;
    }
    if nav.nextBlockPage.Some? {
      var next := nav.nextBlockPage.value;
      assert info.endPage == info.startPage + BlockSize - 1;
      assert next == (info.blockIndex + 1) * BlockSize + 1;
      assert (next - 1) / BlockSize == info.blockIndex + 1;
    }
  }

  /** The click guard fires exactly for an existing page other than the current one. */
  lemma ClickGuard(page: int, currentPage: int, totalPages: int)
    ensures PageClick(page, currentPage, totalPages).Some? <==> page != currentPage && 1 <= page <= totalPages
  {
  }
}
