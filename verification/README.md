# Pagination calculators, modelled in Dafny

The repository holds two versions of one Go package `paginator`, each a small
pagination calculator working on plain integers:

- `paginator.go`, the current version. A `Paginator` is built by `Custom` from a
  `Config` (page size, current page, linked-page count) and a total item count,
  or by `New` with the defaults 10 / 1 / 3. It answers `TotalPages`,
  `IsFirst`, `HasPrevious`, `Previous`, `HasNext`, `Next` and `IsLast`, and
  `Pages` returns a fixed-size window of page links that is pinned to the
  start, pinned to the end, or centred on the current page.
- `paginater.go`, the older version. `New(total, pagingNum, current, numPages)`
  normalises its arguments so the current page lies in `[1, TotalPages]`. It has
  the same boundary queries, and its `Pages` places `numPages` pages around the
  current page and adds a page numbered -1 (an ellipsis, "more pages") at an end
  where pages are hidden.

The two files redeclare the same identifiers and differ in their defaults, so
they are modelled as two separate modules:

- `page_common.dfy`, module `PageCommon`: positive integers, `Min`, `Clamp`,
  the predicate `IsPageCount(total, size, k)` (k pages hold the items and k - 1
  do not), ceiling-division lemmas, and `Slot`, a slice element that is nil or
  points at a value.
- `paginator.dfy`, module `Paginator`: paginator.go.
- `paginater.dfy`, module `Paginater`: paginater.go.

Every operation is a pure function over immutable datatypes. Go's private
struct fields become datatype fields, and Go's pointer-returning `Pages`
becomes a function returning `seq<Page>`. `Custom` writes the defaulted page size
back into the caller's `Config`. The model returns that updated `Config` together
with the paginator.

Each `Pages` has an independent reference definition that is stated without the
source's case split. It is the run of `min(window size, TotalPages)`
consecutive pages whose first page is `current - k`, clamped into the page range.
For paginator.go `k = linkedCount / 2` (`ClampedWindow`). For paginater.go
`k = (numPages - 1) / 2`, which is `getMiddleIdx(numPages) - 1`; this window
also gets an ellipsis at each end that hides pages (`FramedWindow`). A lemma
proves each `Pages` equal to its reference for every paginator its constructor
can build, with one exception. In paginator.go, when the current page is 0 or
below and the window has a single entry, `Pages` shows that page, flagged
(`Paginator.SpecialCases`). For odd window sizes both versions
place the window the same way. For even sizes paginator.go shows one more page
before the current page, and paginater.go shows one more after it.

Each `BuildPages` method replays the Go slice writes of `Pages`, index by index.
Each slice element starts as `Nil`. The method proves that every write is in
bounds, that no element is left nil, and that the result equals `Pages()`.

`Custom` in paginator.go never raises a non-positive current page. Only
paginater.go's `New` turns such a page into 1. The model follows the code, so in
paginator.go a paginator can keep current page 0 or below. Its one-entry window
is then that page, flagged as current (`Paginator.SpecialCases`). Any larger
window starts at page 1 and flags no entry (`Paginator.PagesIsClampedWindow`,
`Paginator.SlidingWindow`). The boundary queries report no first page and no
previous page. They report a next page, current + 1, whenever there are items,
and a last page only for an empty listing (`Paginator.NonPositiveCurrent`).

`paginater_test.go` declares `package paginator` and calls `Config` and
`Custom`, so it tests paginator.go. Its case is in `Paginator.ConfigTwentyItems`.

## Model

| member | source | states |
|---|---|---|
| `Paginator.Paginator.TotalPages` | paginator.go:106-114 | At least 1; 1 for no items; otherwise the unique page count k with (k-1)·pageSize < total ≤ k·pageSize |
| `Paginator.TotalPagesIsCeiling` | paginator.go:106-114 | Any k that holds the items exactly (k pages suffice, k-1 do not) equals `TotalPages()` |
| `Paginator.Custom` | paginator.go:40-49 | A non-positive page size becomes 10 and is written back into the config; otherwise the config is unchanged; total and linked count are kept; current is lowered to the last page when past it and never raised |
| `Paginator.New` | paginator.go:52-59 | The default paginator has page size 10, current page 1 and linked count 3 |
| `Paginator.BoundaryQueries` | paginator.go:62-98 | For 1 ≤ current ≤ TotalPages: HasNext ⇔ current < TotalPages, IsLast ⇔ current = TotalPages, IsFirst ⇔ ¬HasPrevious; Previous and Next stay in [1, TotalPages], within 1 of current, and move exactly when HasPrevious/HasNext hold |
| `Paginator.SpecialCases` | paginator.go:151-167 | Linked count ≤ 0 gives no links; linked count 1 or a single page gives exactly {current, flagged} for any current; 2 ≤ TotalPages ≤ linkedCount lists pages 1..TotalPages with only the current one flagged |
| `Paginator.PagesIsClampedWindow` | paginator.go:150-199 | For every paginator `Custom` builds (current ≤ TotalPages), `Pages()` is the min(linkedCount, TotalPages) window starting at `current - linkedCount/2` clamped into the page range. A non-positive current therefore gets the start-pinned window. The only exception is the one-entry branch with current ≤ 0 |
| `Paginator.NonPositiveCurrent` | paginator.go:62-98 | For current ≤ 0, which `Custom` keeps: not first and no previous page (Previous is current); HasNext ⇔ current < 0 or there are items, and Next is then current + 1; IsLast ⇔ no items |
| `Paginator.ZeroCurrentExample` | paginator.go:40-49 | 63 items, size 10, current 0, three links: current stays 0, neither first nor previous, Next is 1, not last, window 1, 2, 3 with no entry flagged |
| `Paginator.SlidingWindow` | paginator.go:169-198 | When TotalPages > linkedCount ≥ 2: exactly linkedCount consecutive ascending pages within [1, TotalPages], none numbered -1; an entry is flagged iff it is the current page; for current ≥ 1 exactly one entry is flagged |
| `Paginator.BuildPages` | paginator.go:160-198 | The Go slice writes stay in bounds, fill every element of the slice, and produce `Pages()` |
| `Paginator.TwentyItems` | paginator_test.go:27-28 | Twenty items with the defaults give two pages and two links |
| `Paginator.ConfigTwentyItems` | paginater_test.go:25-28 | Twenty items with config {10, 2, 3} give two links |
| `Paginator.TwentyThreeItems` | paginator_test.go:32-40 | 23 items, size 10, current 2, three links: 3 pages, 3 links, previous 1, next 3, neither first nor last |
| `Paginator.LinkedCountEdges` | paginator_test.go:42-56 | Linked count 0 gives no links and 5 items clamp current 2 down to 1; linked count 1 gives a single link |
| `Paginator.EndPinnedExample` | paginator.go:187-189 | 63 items, size 10, current 6, four links: the end-pinned window 4, 5, 6, 7 with 6 flagged |
| `Paginater.Paginator.TotalPages` | paginater.go:84-92 | At least 1; 1 for no items; otherwise the unique page count k with (k-1)·pagingNum < total ≤ k·pagingNum |
| `Paginater.TotalPagesIsCeiling` | paginater.go:84-92 | Any k that holds the items exactly equals `TotalPages()` |
| `Paginater.New` | paginater.go:27-39 | A non-positive page size becomes 1 and a non-positive current becomes 1; a current past the end becomes the last page; afterwards 1 ≤ current ≤ TotalPages |
| `Paginater.BoundaryQueries` | paginater.go:42-76 | Under the constructor invariant: HasNext ⇔ current < TotalPages, IsLast ⇔ current = TotalPages, IsFirst ⇔ ¬HasPrevious; Previous ≥ 1 and Next ≤ TotalPages, each within 1 of current |
| `Paginater.GetMiddleIdx` | paginater.go:118-123 | The result is n/2 rounded up: n ≤ 2·r ≤ n+1 |
| `Paginater.Paginator.NeighbourCounts` | paginater.go:150-159 | The counts of pages before and after current are non-negative and add up to numPages - 1, and the window [current - before, current + after] lies inside [1, TotalPages] |
| `Paginater.SpecialCases` | paginater.go:128-142 | numPages 0 gives no links; one page and numPages 1 give {1, flagged}; TotalPages ≤ numPages lists pages 1..TotalPages with only the current one flagged |
| `Paginater.PagesIsFramedWindow` | paginater.go:127-197 | `Pages()` is the min(numPages, TotalPages) run starting at `current - (numPages-1)/2` clamped into the page range, framed by an ellipsis at each end that hides pages |
| `Paginater.FramedShape` | paginater.go:161-182 | In a framed run inside [1, TotalPages] around current: the length is the run plus the ellipses; a leading -1 iff the first shown page is > 1; a trailing -1 iff the last shown page is < TotalPages; ellipses are never flagged; an entry is flagged iff it is current |
| `Paginater.FramedFlagsCurrentOnce` | paginater.go:184-194 | A framed run around current has exactly one flagged entry, the current page |
| `Paginater.EllipsisRules` | paginater.go:144-197 | General case (TotalPages > numPages ≥ 1): numPages consecutive shown pages inside [1, TotalPages] around current; ellipses exactly where pages are hidden, never flagged; length is numPages plus the ellipses; exactly one flagged entry, the current page |
| `Paginater.SpreadLayout` | paginater.go:161-194 | The general-case slice is an optional leading -1, the pages before current, current (the only flagged entry), the pages after, and an optional trailing -1, at exactly the indices the Go code writes |
| `Paginater.SpreadIsFramed` | paginater.go:161-194 | A window of previousNum pages before and nextNum after current, inside [1, TotalPages], is the framed run of previousNum + 1 + nextNum pages starting at current - previousNum |
| `Paginater.BuildPages` | paginater.go:128-197 | The Go slice writes stay in bounds, leave no element nil, and produce `Pages()` |
| `Paginater.BuildSpread` | paginater.go:161-194 | The general-case writes (ellipsis slots, pages before, current, pages after) stay in bounds and never overlap; every element is written; the result is the spread window |
| `Paginater.ShiftedExample` | paginater.go:155-159 | 63 items, size 10, current 6, four links: the window shifts back to -1, 4, 5, 6, 7 |
| `Paginater.CentredExample` | paginater.go:161-182 | 100 items, size 10, current 5, three links: -1, 4, 5, 6, -1 |

## Left out

- Go's 64-bit `int`: the model uses unbounded integers, so the overflow of `current*pageSize` and `(current-1)*pageSize` (paginator.go:81, 97; paginater.go:60, 75) is not modelled.
- Negative totals: `total` is a `nat`. Go's `/` and `%` truncate toward zero, so a total of -pageSize or less gives a page count below 1, and a smaller negative total gives 1. For a non-negative total and a positive size they agree with Dafny's operators.
- Paginater.Pages: requires `numPages >= 0`. A negative count makes the Go code reach `make` with a negative length or index past the slice, and it panics.
- Paginater.GetMiddleIdx: takes a `nat`. Its only caller passes `numPages >= 1`.
- Paginater.Pages, Paginater.BuildPages: require `Valid()`. Go keeps the fields private, so every paginator comes from `New`, which establishes `Valid()`.
- `Total`, `Current`, `PageSize`, `PagingNum`, `Num` and `IsCurrent` are plain field reads. The datatype fields stand for them.
- The unused `getMiddleIdx` of paginator.go (lines 142-147) and the unused local `maxIdx` of paginater.go (lines 145, 164) have no model.
- Pointer identity of the `[]*Page` elements: a page is a value.
- URL decoration (`Request`, `path`, `FristURL` to `LastURL`, `PageURLs`, `PageTemp`): paginator_test.go and example/main.go call these. They are defined outside the two calculator files and are not modelled.
- The print-only test blocks of paginator_test.go (lines 59-100 and 104-121) assert nothing.
- example/main.go is an HTTP server that renders templates. It is I/O only.
