/**
 The pager-window calculator of the blog's post index
 (`IndexView.pagination_data`). Given the current page number, the number
 of pages and the paginator's `is_paginated` flag, it computes the page
 numbers shown next to the current page and four flags that tell the
 template whether to render an ellipsis and an explicit link to the first
 or last page.

 The function is total, like the Python code: Python slicing never fails,
 and the one way the code can fail, indexing an empty list with `[-1]` or
 `[0]`, is the `Err(IndexError)` result.
 */
module Pagination {
  import opened PySeq

  /** The six values the view adds to the template context. */
  datatype Window = Window(
    left: seq<int>,          // pages shown just before the current one
    right: seq<int>,         // pages shown just after the current one
    leftHasMore: bool,       // an ellipsis after the link to page 1
    rightHasMore: bool,      // an ellipsis before the link to the last page
    first: bool,             // render an explicit link to page 1
    last: bool               // render an explicit link to the last page
  )

  /** What the view merges into the context: nothing at all when the list
      is not paginated (the empty dict), otherwise the six values. */
  datatype PagerData = NoPager | Pager(window: Window)

  /** The exception the Python code raises on an empty list. */
  datatype Error = IndexError

  datatype Result<+T> = Ok(value: T) | Err(error: Error)

  /** The paginator's page list `[1, 2, ..., totalPages]` (`range(1, totalPages + 1)`). */
  function PageRange(totalPages: int): (r: seq<int>)
    ensures |r| == if totalPages <= 0 then 0 else totalPages
    ensures forall k :: 0 <= k < |r| ==> r[k] == k + 1
  {
    RangeAt(1, totalPages + 1);
    Range(1, totalPages + 1)
  }

  /** The clamped start of the left slice: `page_number - 3`, or 0 when that
      is not positive. */
  function LeftStart(pageNumber: int): (i: int)
    ensures 0 <= i
    ensures 3 < pageNumber ==> i == pageNumber - 3
    ensures pageNumber <= 3 ==> i == 0
  {
    if pageNumber - 3 > 0 then pageNumber - 3 else 0
  }

  /** `page_range[start : page_number - 1]`, the pages just before the current one:
      the list entries from the clamped start up to, not including, index
      `page_number - 1` (the current page's own index), at most two of them. */
  function LeftSlice(pageRange: seq<int>, pageNumber: int): (r: seq<int>)
    ensures 1 <= pageNumber ==> |r| <= 2 && LeftStart(pageNumber) + |r| <= pageNumber - 1
    ensures 1 <= pageNumber <= |pageRange| + 1 ==> |r| == pageNumber - 1 - LeftStart(pageNumber)
    ensures forall k :: 0 <= k < |r| ==>
      LeftStart(pageNumber) + k < |pageRange| && r[k] == pageRange[LeftStart(pageNumber) + k]
  {
    Slice(pageRange, LeftStart(pageNumber), pageNumber - 1)
  }

  /** `page_range[page_number : page_number + 2]`, the pages just after the current one:
      the (at most two) list entries from index `page_number` on, clipped at
      the end of the list. */
  function RightSlice(pageRange: seq<int>, pageNumber: int): (r: seq<int>)
    ensures 0 <= pageNumber ==>
      |r| == if |pageRange| <= pageNumber then 0
             else if |pageRange| - pageNumber <= 2 then |pageRange| - pageNumber else 2
    ensures forall k :: 0 <= pageNumber && 0 <= k < |r| ==>
      pageNumber + k < |pageRange| && r[k] == pageRange[pageNumber + k]
  {
    Slice(pageRange, pageNumber, pageNumber + 2)
  }

  /** `IndexView.pagination_data`. The three branches are the first page,
      the last page and a page in the middle; each flag stays `false` unless
      its comparison sets it. */
  function PaginationData(pageNumber: int, totalPages: int, isPaginated: bool): (r: Result<PagerData>)
    ensures !isPaginated ==> r == Ok(NoPager)
    ensures r.Err? ==> isPaginated
    ensures r.Ok? && r.value.Pager? ==> isPaginated
  {
    if !isPaginated then Ok(NoPager)
    else
      var pageRange := PageRange(totalPages);
      if pageNumber == 1 then
        var right := RightSlice(pageRange, pageNumber);
        match Index(right, -1)
        case None => Err(IndexError)
        case Some(rightEnd) =>
          Ok(Pager(Window([], right, false, rightEnd < totalPages - 1, false, rightEnd < totalPages)))
      else if pageNumber == totalPages then
        var left := LeftSlice(pageRange, pageNumber);
        match Index(left, 0)
        case None => Err(IndexError)
        case Some(leftStart) =>
          Ok(Pager(Window(left, [], leftStart > 2, false, leftStart > 1, false)))
      else
        var left := LeftSlice(pageRange, pageNumber);
        var right := RightSlice(pageRange, pageNumber);
        match Index(right, -1)
        case None => Err(IndexError)
        case Some(rightEnd) =>
          match Index(left, 0)
          case None => Err(IndexError)
          case Some(leftStart) =>
            Ok(Pager(Window(left, right, leftStart > 2, rightEnd < totalPages - 1,
                            leftStart > 1, rightEnd < totalPages)))
  }
}
