# Pager window of the blog's post index

The blog lists its posts three to a page. Beside the current page the
index template shows a pager: up to two pages on each side of the current
page, an ellipsis when pages are hidden between that window and the first
or last page, and explicit links to the first and last page when they are
not already in the window. `IndexView.pagination_data` in `blog/views.py`
computes those six values from the current page number, the number of
pages, the page list `[1, ..., total]` and the `is_paginated` flag. This
project models that function and proves what the pager promises.

- `python_seq.dfy` (module `PySeq`): the Python semantics the code relies on:
  `range`, slicing (negative bounds count from the end, bounds are clipped,
  never an error) and indexing (`s[-1]`, `s[0]`; IndexError on an empty list).
- `pagination.dfy` (module `Pagination`): the data (`Window`, the
  `NoPager` / `Pager` result, `Result` with the `IndexError` case) and
  `PaginationData`, a branch-for-branch transcription of the view's three
  cases. It has no precondition: like the Python code it is defined on every
  input, and the crash on an empty list is the `Err(IndexError)` result.
- `pagination_properties.dfy` (module `PaginationProperties`): the
  properties. Most take the list view's guarantee as premise
  (`FrameworkInput`: `is_paginated` is only set when there are at least two
  pages, and the page number is between 1 and the page count). Against that,
  `FailsExactlyOutsideFramework` shows that for a positive page number
  the view raises exactly when the guarantee is broken. `Reference` is an
  independent closed-form pager that the view is proved equal to.

The function is pure, so calling it twice on the same input gives the same
result by construction; no lemma is needed for that.

## Model

| member | source | states |
|---|---|---|
| `PySeq.Range` | blog/views.py:60-61 | `range(lo, hi)` has `hi - lo` entries (none if `hi <= lo`). When non-empty it starts at `lo` and ends at `hi - 1` |
| `PySeq.RangeAt` | blog/views.py:60-61 | the page list `range(lo, hi)` has `hi - lo` entries (0 if `hi <= lo`), and entry k is `lo + k` |
| `PySeq.RangeMembers` | blog/views.py:60-61 | a number is in `range(lo, hi)` exactly when `lo <= x < hi` |
| `PySeq.SliceBound` | blog/views.py:64 | a slice bound is normalised as Python does: a negative bound counts from the end, and the result is clipped into `[0, len]` |
| `PySeq.Slice` | blog/views.py:64 | Python slicing never fails. The result has exactly `b - a` entries for normalised bounds `a < b`, and none otherwise. Entry k is the list entry at index `a + k` |
| `PySeq.Index` | blog/views.py:66 | `s[i]` fails (IndexError) exactly when `i` is outside `[-len, len)`. A negative index counts from the end |
| `PySeq.RangeSlice` | blog/views.py:75 | slicing the page range with non-negative bounds gives the range between the two bounds, each clipped to the length |
| `Pagination.PageRange` | blog/views.py:61 | the page list has `total` entries (none if `total <= 0`), and entry k is page `k + 1` |
| `Pagination.LeftStart` | blog/views.py:75 | the clamped left-slice start is `page - 3` when that is positive and 0 otherwise, so never negative |
| `Pagination.LeftSlice` | blog/views.py:75 | for a page of at least 1, the left slice has at most two entries. They are the list entries from the clamped start up to, not including, index `page - 1`. It has exactly `page - 1 - start` entries when the page is at most one past the list's length |
| `Pagination.RightSlice` | blog/views.py:64 | for a non-negative page, the right slice holds the list entries from index `page` on. It has two of them, or fewer when the list ends sooner (none when `page >= len`) |
| `Pagination.PaginationData` | blog/views.py:40-102 | the whole view, branch for branch. Its own contract: when `is_paginated` is false the result is the empty context (no window, no flags), and an IndexError or a window can only come from a paginated list. What the window is, is stated by the lemmas of `PaginationProperties` |
| `PaginationProperties.SlicesAreRanges` | blog/views.py:75-84 | over `[1..total]`, the left slice is the pages `max(p-2,1) .. p-1` and the right slice is the pages `p+1 .. min(p+2,total)` |
| `PaginationProperties.MatchesReference` | blog/views.py:40-102 | under the framework's guarantee, the view raises nothing and returns exactly the closed-form reference pager |
| `PaginationProperties.IndexedListsNonEmpty` | blog/views.py:63-92 | under the framework's guarantee, every `right[-1]` is taken on a non-empty list (page not last), and so is every `left[0]` (page not first) |
| `PaginationProperties.FailsExactlyOutsideFramework` | blog/views.py:63-92 | for a page number at least 1, the view raises IndexError if and only if there are fewer than two pages or the page is past the last |
| `PaginationProperties.RightWindow` | blog/views.py:64 | `right` is `p+1, p+2` cut off at `total`. It has `min(p+2,total) - p <= 2` entries, ascending by one, with members exactly `p < x <= min(p+2,total)`. It is empty exactly on the last page |
| `PaginationProperties.LeftWindow` | blog/views.py:75 | `left` runs from `max(p-2,1)` up to `p-1`. It has at most 2 entries, ascending by one, none below 1, and is empty exactly on page 1. The clamped slice start is non-negative and not past the slice end |
| `PaginationProperties.CurrentPageExcluded` | blog/views.py:83-84 | every left entry is in `[1, p)`, every right entry is in `(p, total]`, and the current page is in neither |
| `PaginationProperties.EdgePages` | blog/views.py:44-81 | on page 1: `left == []`, no left ellipsis, no first-page link. On the last page: `right == []`, no right ellipsis, no last-page link |
| `PaginationProperties.RightFlags` | blog/views.py:85-88 | `last` iff the last right entry is below `total`. `right_has_more` iff it is below `total - 1`. Hence `right_has_more` implies `last` |
| `PaginationProperties.LeftFlags` | blog/views.py:89-92 | `first` iff the first left entry is above 1. `left_has_more` iff it is above 2. Hence `left_has_more` implies `first` |
| `PaginationProperties.FlagsMeaning` | blog/views.py:63-92 | the page-1 link shows iff page 1 is neither current nor in `left`, and the last-page link likewise. An ellipsis shows iff some page strictly between the end page and the current page is not in the window |
| `PaginationProperties.Scenarios` | blog/views.py:63-92 | concrete pagers: 10 pages at pages 1, 10 and 5; 4 pages at page 2; 2 pages at page 1; 3 pages at page 2. One page marked paginated raises IndexError |

## Left out

- `search` (blog/views.py:12-20): a case-insensitive database query plus template rendering; nothing to compute outside the database.
- `IndexView.get_context_data` and `PostDetailView.get_context_data` (blog/views.py:29-37, 155-163): they only merge dictionaries into the framework's template context.
- `CategoryView`, `TagView`, `ArchivesView.get_queryset` (blog/views.py:105-121): database filters and `get_object_or_404` lookups.
- `PostDetailView.get` / `get_object` (blog/views.py:129-153): the view-count increment is a database write through a model method that is not part of this model. The Markdown and table-of-contents rendering is a call into the third-party `markdown` library.
- comments/views.py: form validation, saving, redirect and rendering, all framework calls.
- Commented-out code (blog/views.py:134-141, 166-232): dead code.
- The paginator and page objects are reduced to the two integers and the flag the function reads. `page_range` is rebuilt from the page count, as Django's paginator does, rather than passed in.
