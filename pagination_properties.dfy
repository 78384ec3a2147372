/**
 What the pager window promises. The premise of most lemmas is the
 framework's guarantee: `is_paginated` is only set when there are at least
 two pages, and the current page number is a valid page.
 */
module PaginationProperties {
  import opened PySeq
  import opened Pagination

  /** What the paginating list view guarantees about its page object. */
  predicate FrameworkInput(pageNumber: int, totalPages: int) {
    2 <= totalPages && 1 <= pageNumber <= totalPages
  }

  /** The view returns window `w` for a paginated list. */
  predicate Produces(pageNumber: int, totalPages: int, w: Window) {
    PaginationData(pageNumber, totalPages, true) == Ok(Pager(w))
  }

  function Min(a: int, b: int): int { if a <= b then a else b }
  function Max(a: int, b: int): int { if a >= b then a else b }

  /** Ascending by one at each step (for the windows, a corollary of their
      per-entry description, stated on its own for readability). */
  predicate Contiguous(s: seq<int>) {
    forall k :: 0 <= k < |s| - 1 ==> s[k + 1] == s[k] + 1
  }

  /** Reference pager in closed form: up to two neighbours on each side,
      and each flag as an arithmetic condition on the position. */
  function Reference(pageNumber: int, totalPages: int): Window {
    Window(
      Range(Max(pageNumber - 2, 1), pageNumber),
      Range(pageNumber + 1, Min(pageNumber + 2, totalPages) + 1),
      pageNumber > 4,
      pageNumber + 3 < totalPages,
      pageNumber > 3,
      pageNumber + 2 < totalPages)
  }

  /** `q` is a page strictly between page 1 and the current page that the
      left window does not show (so an ellipsis stands for it). */
  predicate HiddenLeft(q: int, pageNumber: int, w: Window) {
    1 < q < pageNumber && q !in w.left
  }

  /** `q` is a page strictly between the current page and the last page
      that the right window does not show. */
  predicate HiddenRight(q: int, pageNumber: int, totalPages: int, w: Window) {
    pageNumber < q < totalPages && q !in w.right
  }

  /** Both slices, taken over the page list, are the ranges of the reference. */
  lemma SlicesAreRanges(pageNumber: int, totalPages: int)
    requires FrameworkInput(pageNumber, totalPages)
    ensures LeftSlice(PageRange(totalPages), pageNumber) == Reference(pageNumber, totalPages).left
    ensures RightSlice(PageRange(totalPages), pageNumber) == Reference(pageNumber, totalPages).right
  {
    var pages := PageRange(totalPages);
    var left, right := LeftSlice(pages, pageNumber), RightSlice(pages, pageNumber);
    var refLeft := Range(Max(pageNumber - 2, 1), pageNumber);
    var refRight := Range(pageNumber + 1, Min(pageNumber + 2, totalPages) + 1);
    RangeAt(Max(pageNumber - 2, 1), pageNumber);
    RangeAt(pageNumber + 1, Min(pageNumber + 2, totalPages) + 1);
    assert |left| == |refLeft|;
    forall k | 0 <= k < |left|
      ensures left[k] == refLeft[k]
    {
    }
    assert |right| == |refRight|;
    forall k | 0 <= k < |right|
      ensures right[k] == refRight[k]
    {
    }
  }

  /** Under the framework's guarantee the view never raises and returns the
      reference window: the lists it indexes with `[-1]` and `[0]` are never
      empty in the branches that index them. */
  lemma MatchesReference(pageNumber: int, totalPages: int)
    requires FrameworkInput(pageNumber, totalPages)
    ensures Produces(pageNumber, totalPages, Reference(pageNumber, totalPages))
  {
    SlicesAreRanges(pageNumber, totalPages);
    var ref := Reference(pageNumber, totalPages);
    RangeAt(Max(pageNumber - 2, 1), pageNumber);
    RangeAt(pageNumber + 1, Min(pageNumber + 2, totalPages) + 1);
    if pageNumber != totalPages {
      assert ref.right[|ref.right| - 1] == Min(pageNumber + 2, totalPages);
    }
    if pageNumber != 1 {
      assert ref.left[0] == Max(pageNumber - 2, 1);
    }
  }

  /** The lists the code indexes are non-empty in every branch that indexes
      them: `right[-1]` whenever the page is not the last, `left[0]`
      whenever it is not the first. */
  lemma IndexedListsNonEmpty(pageNumber: int, totalPages: int)
    requires FrameworkInput(pageNumber, totalPages)
    ensures pageNumber != totalPages ==> Index(RightSlice(PageRange(totalPages), pageNumber), -1).Some?
    ensures pageNumber != 1 ==> Index(LeftSlice(PageRange(totalPages), pageNumber), 0).Some?
  {
    SlicesAreRanges(pageNumber, totalPages);
    RangeAt(Max(pageNumber - 2, 1), pageNumber);
    RangeAt(pageNumber + 1, Min(pageNumber + 2, totalPages) + 1);
  }

  /** For a positive page number, the view raises IndexError exactly when
      the framework's guarantee is broken: a single (or no) page marked as
      paginated, or a page past the last. */
  lemma FailsExactlyOutsideFramework(pageNumber: int, totalPages: int)
    requires 1 <= pageNumber
    ensures PaginationData(pageNumber, totalPages, true).Err? <==> !FrameworkInput(pageNumber, totalPages)
  {
    if FrameworkInput(pageNumber, totalPages) {
      MatchesReference(pageNumber, totalPages);
    } else {
      // the right slice starts past the end of the page list, so it is empty
      RangeSlice(1, totalPages + 1, pageNumber, pageNumber + 2);
      assert RightSlice(PageRange(totalPages), pageNumber) == [];
    }
  }

  /** The right window is the ascending run `page+1, page+2` cut off at the
      last page: at most two pages, all after the current one and none past
      the last, and empty exactly on the last page. */
  lemma RightWindow(pageNumber: int, totalPages: int, w: Window)
    requires FrameworkInput(pageNumber, totalPages)
    requires Produces(pageNumber, totalPages, w)
    ensures |w.right| == Min(pageNumber + 2, totalPages) - pageNumber <= 2
    ensures Contiguous(w.right)
    ensures forall k :: 0 <= k < |w.right| ==> w.right[k] == pageNumber + 1 + k
    ensures forall x :: x in w.right <==> pageNumber < x <= Min(pageNumber + 2, totalPages)
    ensures w.right == [] <==> pageNumber == totalPages
  {
    MatchesReference(pageNumber, totalPages);
    RangeAt(pageNumber + 1, Min(pageNumber + 2, totalPages) + 1);
    RangeMembers(pageNumber + 1, Min(pageNumber + 2, totalPages) + 1);
  }

  /** The left window is the ascending run ending at `page-1` and starting
      at `max(page-2, 1)`: at most two pages, none below page 1, and empty
      exactly on page 1. The slice's clamped start is never negative and
      never past its end, so Python never counts it from the list's end. */
  lemma LeftWindow(pageNumber: int, totalPages: int, w: Window)
    requires FrameworkInput(pageNumber, totalPages)
    requires Produces(pageNumber, totalPages, w)
    ensures |w.left| == pageNumber - Max(pageNumber - 2, 1) <= 2
    ensures Contiguous(w.left)
    ensures forall k :: 0 <= k < |w.left| ==> w.left[k] == Max(pageNumber - 2, 1) + k
    ensures forall x :: x in w.left <==> Max(pageNumber - 2, 1) <= x < pageNumber
    ensures w.left == [] <==> pageNumber == 1
    ensures pageNumber != 1 ==> 0 <= LeftStart(pageNumber) <= pageNumber - 1
  {
    MatchesReference(pageNumber, totalPages);
    RangeAt(Max(pageNumber - 2, 1), pageNumber);
    RangeMembers(Max(pageNumber - 2, 1), pageNumber);
  }

  /** The current page is in neither window: everything on the left is
      before it and everything on the right after it. */
  lemma CurrentPageExcluded(pageNumber: int, totalPages: int, w: Window)
    requires FrameworkInput(pageNumber, totalPages)
    requires Produces(pageNumber, totalPages, w)
    ensures forall x :: x in w.left ==> 1 <= x < pageNumber
    ensures forall x :: x in w.right ==> pageNumber < x <= totalPages
    ensures pageNumber !in w.left && pageNumber !in w.right
  {
    LeftWindow(pageNumber, totalPages, w);
    RightWindow(pageNumber, totalPages, w);
  }

  /** On page 1 nothing is shown on the left; on the last page nothing on the right.
      This and the two flag lemmas below follow from the branches directly. */
  lemma EdgePages(pageNumber: int, totalPages: int, w: Window)
    requires FrameworkInput(pageNumber, totalPages)
    requires Produces(pageNumber, totalPages, w)
    ensures pageNumber == 1 ==> w.left == [] && !w.leftHasMore && !w.first
    ensures pageNumber == totalPages ==> w.right == [] && !w.rightHasMore && !w.last
  {
  }

  /** The right-side flags compare the last shown page with the last page:
      `last` when it is before the last page, `right_has_more` when at least
      one page lies between them; so an ellipsis comes with a last-page link. */
  lemma RightFlags(pageNumber: int, totalPages: int, w: Window)
    requires FrameworkInput(pageNumber, totalPages)
    requires Produces(pageNumber, totalPages, w)
    ensures w.last <==> w.right != [] && w.right[|w.right| - 1] < totalPages
    ensures w.rightHasMore <==> w.right != [] && w.right[|w.right| - 1] < totalPages - 1
    ensures w.rightHasMore ==> w.last
  {
  }

  /** The left-side flags compare the first shown page with page 1:
      `first` when it is after page 1, `left_has_more` when at least one page
      lies between them; so an ellipsis comes with a first-page link. */
  lemma LeftFlags(pageNumber: int, totalPages: int, w: Window)
    requires FrameworkInput(pageNumber, totalPages)
    requires Produces(pageNumber, totalPages, w)
    ensures w.first <==> w.left != [] && w.left[0] > 1
    ensures w.leftHasMore <==> w.left != [] && w.left[0] > 2
    ensures w.leftHasMore ==> w.first
  {
  }

  /** What the flags mean for the rendered pager: an explicit link to page 1
      (the last page) is shown exactly when that page is neither the current
      page nor already in the window, and an ellipsis exactly when some page
      between it and the current page is not shown. */
  lemma FlagsMeaning(pageNumber: int, totalPages: int, w: Window)
    requires FrameworkInput(pageNumber, totalPages)
    requires Produces(pageNumber, totalPages, w)
    ensures w.first <==> pageNumber != 1 && 1 !in w.left
    ensures w.last <==> pageNumber != totalPages && totalPages !in w.right
    ensures w.leftHasMore <==> exists q :: HiddenLeft(q, pageNumber, w)
    ensures w.rightHasMore <==> exists q :: HiddenRight(q, pageNumber, totalPages, w)
  {
    LeftWindow(pageNumber, totalPages, w);
    RightWindow(pageNumber, totalPages, w);
    MatchesReference(pageNumber, totalPages);
    if w.leftHasMore {
      assert HiddenLeft(2, pageNumber, w);
    }
    if w.rightHasMore {
      assert HiddenRight(totalPages - 1, pageNumber, totalPages, w);
    }
  }

  /** The pager for a few concrete positions. */
  lemma Scenarios()
    ensures PaginationData(1, 10, true) == Ok(Pager(Window([], [2, 3], false, true, false, true)))
    ensures PaginationData(10, 10, true) == Ok(Pager(Window([8, 9], [], true, false, true, false)))
    ensures PaginationData(5, 10, true) == Ok(Pager(Window([3, 4], [6, 7], true, true, true, true)))
    ensures PaginationData(2, 4, true) == Ok(Pager(Window([1], [3, 4], false, false, false, false)))
    ensures PaginationData(1, 2, true) == Ok(Pager(Window([], [2], false, false, false, false)))
    ensures PaginationData(2, 3, true) == Ok(Pager(Window([1], [3], false, false, false, false)))
    ensures PaginationData(1, 1, true) == Err(IndexError)
  {
    assert Range(2, 4) == [2, 3];
    assert Range(8, 10) == [8, 9];
    assert Range(3, 5) == [3, 4];
    assert Range(6, 8) == [6, 7];
    assert Range(1, 2) == [1];
    assert Range(2, 3) == [2];
    assert Range(3, 4) == [3];
    MatchesReference(1, 10);
    MatchesReference(10, 10);
    MatchesReference(5, 10);
    MatchesReference(2, 4);
    MatchesReference(1, 2);
    MatchesReference(2, 3);
    FailsExactlyOutsideFramework(1, 1);
  }
}
