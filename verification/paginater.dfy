/** The older pagination calculator (paginater.go). `New` normalises its four
    integers so that the current page lies in `[1, TotalPages()]`; `Pages`
    places a window of `numPages` pages around the current page and marks
    hidden pages at either end with a page numbered -1 (an ellipsis). */
module Paginater {
  import opened PageCommon

  /** One entry of the page window; number -1 stands for "more pages". */
  datatype Page = Page(num: int, isCurrent: bool)

  /** The entry standing for pages that are not shown. */
  const Ellipsis := Page(-1, false)

  /** The pagination state. Go keeps the fields private, so every value is
      built by `New`, which makes the page size positive and `Valid()` true. */
  datatype Paginator = Paginator(total: nat, pagingNum: Pos, current: int, numPages: int)
  {
    /** The number of the last page; an empty listing still has one page. */
    function TotalPages(): (r: int)
      ensures r >= 1
      ensures total == 0 ==> r == 1
      ensures total > 0 ==> IsPageCount(total, pagingNum, r)
    {
      if total == 0 then 1
      else
        CeilingByRemainder(total, pagingNum);
        if total % pagingNum == 0 then total / pagingNum
        else total / pagingNum + 1
    }

    /** What `New` establishes: the current page is a real page. */
    predicate Valid()
    {
      1 <= current <= TotalPages()
    }

    predicate IsFirst()
    {
      current == 1
    }

    predicate HasPrevious()
    {
      current > 1
    }

    function Previous(): int
    {
      if !HasPrevious() then current else current - 1
    }

    predicate HasNext()
    {
      total > current * pagingNum
    }

    function Next(): int
    {
      if !HasNext() then current else current + 1
    }

    predicate IsLast()
    {
      if total == 0 then true
      else total > (current - 1) * pagingNum && !HasNext()
    }

    /** How many pages the general-case window shows before and after the
        current page: about half before, then shifted back when the pages
        after would run past the last page. */
    function NeighbourCounts(): (r: (int, int))
      requires Valid() && TotalPages() > numPages >= 1
      ensures r.0 >= 0 && r.1 >= 0 && r.0 + r.1 == numPages - 1
      ensures 1 <= current - r.0 && current + r.1 <= TotalPages()
    {
      var previousNum0 := GetMiddleIdx(numPages) - 1;
      var previousNum :=
        if previousNum0 > current - 1 then previousNum0 - (previousNum0 - (current - 1))
        else previousNum0;
      var nextNum := numPages - previousNum - 1;
      if current + nextNum > TotalPages() then
        var delta := nextNum - (TotalPages() - current);
        (previousNum + delta, nextNum - delta)
      else (previousNum, nextNum)
    }

    /** The page links to show, with an ellipsis entry at either end when
        pages are hidden there. */
    function Pages(): seq<Page>
      requires Valid() && numPages >= 0
    {
      if numPages == 0 then []
      else if numPages == 1 && TotalPages() == 1 then [Page(1, true)]
      else if TotalPages() <= numPages then Marked(1, TotalPages(), current)
      else
        var counts := NeighbourCounts();
        Spread(current, TotalPages(), counts.0, counts.1)
    }
  }

  /** The general-case window: `previousNum` pages before `current` and
      `nextNum` after it, with an ellipsis in front when page 1 is not shown
      and one behind when page `totalPages` is not shown. */
  function Spread(current: int, totalPages: int, previousNum: nat, nextNum: nat): seq<Page>
  {
    var offsetVal := current - previousNum;
    (if offsetVal > 1 then [Ellipsis] else [])
    + seq(previousNum, i => Page(i + offsetVal, false))
    + [Page(current, true)]
    + seq(nextNum, i => Page(current + i + 1, false))
    + (if current + nextNum < totalPages then [Ellipsis] else [])
  }

  /** `n` consecutive pages starting at `first`, each flagged when it is the
      current page. */
  function Marked(first: int, n: nat, current: int): seq<Page>
  {
    seq(n, i => Page(first + i, first + i == current))
  }

  /** Half of `n`, rounded up. */
  function GetMiddleIdx(n: nat): (r: nat)
    ensures n <= 2 * r <= n + 1
  {
    if n % 2 == 0 then n / 2 else n / 2 + 1
  }

  /** Normalises the arguments: a non-positive page size becomes 1, a
      non-positive current page becomes 1, and a current page past the end
      becomes the last page. */
  function New(total: nat, pagingNum: int, current: int, numPages: int): (p: Paginator)
    ensures p.total == total && p.numPages == numPages
    ensures pagingNum > 0 ==> p.pagingNum == pagingNum
    ensures pagingNum <= 0 ==> p.pagingNum == 1
    ensures p.Valid()
    ensures 1 <= current <= p.TotalPages() ==> p.current == current
    ensures current <= 0 ==> p.current == 1
    ensures current > p.TotalPages() ==> p.current == p.TotalPages()
  {
    var pagingNum' := if pagingNum <= 0 then 1 else pagingNum;
    var current' := if current <= 0 then 1 else current;
    var p := Paginator(total, pagingNum', current', numPages);
    if p.current > p.TotalPages() then p.(current := p.TotalPages()) else p
  }

  /** `n` consecutive pages from `first`, preceded by an ellipsis when the
      first shown page is not page 1 and followed by one when the last shown
      page is not the last page. */
  function Framed(first: int, n: nat, totalPages: int, current: int): seq<Page>
  {
    (if first > 1 then [Ellipsis] else [])
    + Marked(first, n, current)
    + (if first + n - 1 < totalPages then [Ellipsis] else [])
  }

  /** Where the shown pages start: `(numPages - 1) / 2` pages before the
      current one, pushed back inside the range of pages. */
  function WindowStart(p: Paginator): int
  {
    var n := Min(p.numPages, p.TotalPages());
    if n < 1 then 1
    else Clamp(p.current - (p.numPages - 1) / 2, 1, p.TotalPages() - n + 1)
  }

  /** Independent description of the window: `min(numPages, TotalPages())`
      consecutive pages from `WindowStart`, framed by ellipses. */
  function FramedWindow(p: Paginator): seq<Page>
  {
    if p.numPages <= 0 then []
    else Framed(WindowStart(p), Min(p.numPages, p.TotalPages()), p.TotalPages(), p.current)
  }

  /** The page count is the least number of pages that holds every item. */
  lemma TotalPagesIsCeiling(p: Paginator, k: int)
    requires p.total > 0 && IsPageCount(p.total, p.pagingNum, k)
    ensures p.TotalPages() == k
  {
    PageCountUnique(p.total, p.pagingNum, p.TotalPages(), k);
  }

  /** Under the constructor invariant the boundary queries agree with each
      other and with the page count. */
  lemma BoundaryQueries(p: Paginator)
    requires p.Valid()
    ensures p.HasNext() <==> p.current < p.TotalPages()
    ensures p.IsLast() <==> p.current == p.TotalPages()
    ensures p.IsFirst() <==> !p.HasPrevious()
    ensures 1 <= p.Previous() <= p.current && p.current - p.Previous() <= 1
    ensures p.current <= p.Next() <= p.TotalPages() && p.Next() - p.current <= 1
    ensures p.HasPrevious() <==> p.Previous() == p.current - 1
    ensures p.HasNext() <==> p.Next() == p.current + 1
  {
    var tp := p.TotalPages();
    if p.current < tp {
      MulMonotone(p.current, tp - 1, p.pagingNum);
    } else {
      MulMonotone(tp, p.current, p.pagingNum);
    }
  }

  /** The cases in which no sliding is needed: no window, or every page fits
      and is listed in order with only the current page flagged. */
  lemma SpecialCases(p: Paginator)
    requires p.Valid() && p.numPages >= 0
    ensures p.numPages == 0 ==> p.Pages() == []
    ensures p.numPages == 1 && p.TotalPages() == 1 ==> p.Pages() == [Page(1, true)]
    ensures 1 <= p.TotalPages() <= p.numPages ==>
              |p.Pages()| == p.TotalPages() &&
              forall i :: 0 <= i < |p.Pages()| ==>
                p.Pages()[i].num == i + 1 && (p.Pages()[i].isCurrent <==> i + 1 == p.current)
  {
  }

  /** The window is the framed window: the pages computed from
      `getMiddleIdx` and the later shift are exactly the `numPages` pages
      from `WindowStart`, with an ellipsis at each end that hides pages. */
  lemma PagesIsFramedWindow(p: Paginator)
    requires p.Valid() && p.numPages >= 0
    ensures p.Pages() == FramedWindow(p)
  {
    var tp := p.TotalPages();
    if p.numPages == 0 {
    } else if p.numPages == 1 && tp == 1 {
    } else if tp <= p.numPages {
      assert Min(p.numPages, tp) == tp;
    } else {
      var counts := p.NeighbourCounts();
      SpreadIsFramed(p.current, tp, counts.0, counts.1);
      assert p.current - counts.0 == WindowStart(p);
    }
  }

  /** A framed run of pages inside `[1, totalPages]` that contains the
      current page: ellipses sit only at the ends, exactly where pages are
      hidden, are never flagged, and the current page is the one flagged entry. */
  lemma FramedShape(f: int, n: nat, tp: int, current: int)
    requires 1 <= f <= current <= f + n - 1 <= tp
    ensures var r := Framed(f, n, tp, current);
      && |r| == n + (if f > 1 then 1 else 0) + (if f + n - 1 < tp then 1 else 0)
      && (r[0].num == -1 <==> f > 1)
      && (r[|r| - 1].num == -1 <==> f + n - 1 < tp)
      && (forall i :: 0 <= i < |r| && r[i].num == -1 ==> !r[i].isCurrent)
      && (forall i :: 0 <= i < |r| && r[i].num != -1 ==> 1 <= r[i].num <= tp)
      && (forall i :: 0 <= i < |r| ==> (r[i].isCurrent <==> r[i].num == current))
  {
    var r := Framed(f, n, tp, current);
    var lead := if f > 1 then 1 else 0;
    assert forall i :: lead <= i < lead + n ==> r[i] == Page(f + i - lead, f + i - lead == current);
    assert forall i :: 0 <= i < lead ==> r[i] == Ellipsis;
    assert forall i :: lead + n <= i < |r| ==> r[i] == Ellipsis;
  }

  /** In a framed run containing the current page exactly one entry is
      flagged, and it is the current page. */
  lemma FramedFlagsCurrentOnce(f: int, n: nat, tp: int, current: int)
    requires 1 <= f <= current <= f + n - 1 <= tp
    ensures var r := Framed(f, n, tp, current);
      exists k :: 0 <= k < |r| && r[k].isCurrent && r[k].num == current &&
        forall j :: 0 <= j < |r| && r[j].isCurrent ==> j == k
  {
    FramedShape(f, n, tp, current);
    var r := Framed(f, n, tp, current);
    var lead := if f > 1 then 1 else 0;
    var k := lead + current - f;
    assert r[k] == Marked(f, n, current)[current - f];
    forall j | 0 <= j < |r| && r[j].isCurrent
      ensures j == k
    {
      if lead <= j < lead + n {
        assert r[j] == Marked(f, n, current)[j - lead];
      }
    }
    assert r[k].isCurrent && r[k].num == current;
  }

  /** The general case: the shown pages are `numPages` consecutive pages
      inside `[1, TotalPages()]` containing the current page; an ellipsis
      leads exactly when page 1 is hidden and trails exactly when the last
      page is hidden; ellipses are never flagged; and exactly one entry is
      flagged, the current page. */
  lemma EllipsisRules(p: Paginator)
    requires p.Valid() && 1 <= p.numPages < p.TotalPages()
    ensures var r, f, n, tp := p.Pages(), WindowStart(p), p.numPages, p.TotalPages();
      && 1 <= f <= p.current <= f + n - 1 <= tp
      && r == Framed(f, n, tp, p.current)
      && |r| == n + (if f > 1 then 1 else 0) + (if f + n - 1 < tp then 1 else 0)
      && (r[0].num == -1 <==> f > 1)
      && (r[|r| - 1].num == -1 <==> f + n - 1 < tp)
      && (forall i :: 0 <= i < |r| && r[i].num == -1 ==> !r[i].isCurrent)
      && (forall i :: 0 <= i < |r| && r[i].num != -1 ==> 1 <= r[i].num <= tp)
      && (forall i :: 0 <= i < |r| ==> (r[i].isCurrent <==> r[i].num == p.current))
      && (exists k :: 0 <= k < |r| && r[k].isCurrent && r[k].num == p.current &&
            forall j :: 0 <= j < |r| && r[j].isCurrent ==> j == k)
  {
    PagesIsFramedWindow(p);
    var f, n, tp := WindowStart(p), p.numPages, p.TotalPages();
    assert Min(n, tp) == n;
    FramedShape(f, n, tp, p.current);
    FramedFlagsCurrentOnce(f, n, tp, p.current);
  }

  /** Where each entry of a spread window sits: an optional leading
      ellipsis, `previousNum` pages before the current page, the current page,
      `nextNum` pages after it, and an optional trailing ellipsis. */
  lemma SpreadLayout(current: int, totalPages: int, previousNum: nat, nextNum: nat)
    ensures var r := Spread(current, totalPages, previousNum, nextNum);
      var lead := if current - previousNum > 1 then 1 else 0;
      var trail := if current + nextNum < totalPages then 1 else 0;
      var at := lead + previousNum;
      && |r| == at + 1 + nextNum + trail
      && (lead == 1 ==> r[0] == Ellipsis)
      && (trail == 1 ==> r[|r| - 1] == Ellipsis)
      && (forall j :: lead <= j < at ==> r[j] == Page(j - lead + current - previousNum, false))
      && (forall j :: at <= j <= at + nextNum ==> r[j] == Page(current + j - at, j == at))
  {
    var offsetVal := current - previousNum;
    var front := if offsetVal > 1 then [Ellipsis] else [];
    var before := seq(previousNum, i => Page(i + offsetVal, false));
    var after := seq(nextNum, i => Page(current + i + 1, false));
    var back := if current + nextNum < totalPages then [Ellipsis] else [];
    var r := front + before + [Page(current, true)] + after + back;
    assert Spread(current, totalPages, previousNum, nextNum) == r;
    var lead := |front|;
    var at := lead + previousNum;
    assert forall j :: lead <= j < at ==> r[j] == before[j - lead];
    assert forall j :: at < j <= at + nextNum ==> r[j] == after[j - at - 1];
  }

  /** A spread window that stays inside `[1, totalPages]` is the framed run
      of `previousNum + 1 + nextNum` pages starting `previousNum` pages
      before the current one. */
  lemma SpreadIsFramed(current: int, totalPages: int, previousNum: nat, nextNum: nat)
    requires 1 <= current - previousNum && current + nextNum <= totalPages
    ensures Spread(current, totalPages, previousNum, nextNum)
      == Framed(current - previousNum, previousNum + 1 + nextNum, totalPages, current)
  {
    var first, n := current - previousNum, previousNum + 1 + nextNum;
    var r, f := Spread(current, totalPages, previousNum, nextNum), Framed(first, n, totalPages, current);
    SpreadLayout(current, totalPages, previousNum, nextNum);
    var lead := if first > 1 then 1 else 0;
    assert |r| == |f|;
    forall j | 0 <= j < |r|
      ensures r[j] == f[j]
    {
      if lead <= j < lead + n {
        assert f[j] == Marked(first, n, current)[j - lead];
      }
    }
  }

  /** Fills the Go slice of pointers exactly as paginater.go does, proving
      that every index written is in bounds, that the ellipsis slots and the
      page slots do not overlap, that no slot is left nil, and that the result
      is `Pages()`. */
  method BuildPages(p: Paginator) returns (pages: seq<Page>)
    requires p.Valid() && p.numPages >= 0
    ensures pages == p.Pages()
  {
    if p.numPages == 0 {
      return [];
    } else if p.numPages == 1 && p.TotalPages() == 1 {
      return [Page(1, true)];
    }
    var totalPages := p.TotalPages();
    if totalPages <= p.numPages {
      var slots: seq<Slot<Page>> := seq(totalPages, _ => Nil);
      for i := 0 to totalPages
        invariant |slots| == totalPages
        invariant forall k :: 0 <= k < i ==> slots[k] == Ref(Page(k + 1, k + 1 == p.current))
      {
        slots := slots[i := Ref(Page(i + 1, i + 1 == p.current))];
      }
      pages := Deref(slots);
      assert forall k :: 0 <= k < |pages| ==> pages[k] == p.Pages()[k];
      return;
    }
    var counts := p.NeighbourCounts();
    pages := BuildSpread(p.current, totalPages, p.numPages, counts.0, counts.1);
  }

  /** The general case of `BuildPages`: the slice of `numPages` pages plus
      its ellipsis slots, written slot by slot. */
  method BuildSpread(current: int, totalPages: int, numPages: int, previousNum: nat, nextNum: nat)
    returns (pages: seq<Page>)
    requires previousNum + nextNum == numPages - 1
    requires 1 <= current - previousNum && current + nextNum <= totalPages
    ensures pages == Spread(current, totalPages, previousNum, nextNum)
  {
    var size := numPages;
    var offsetIdx := 0;
    var hasMoreNext := false;
    var offsetVal := current - previousNum;
    if offsetVal > 1 {
      size := size + 1;
      offsetIdx := 1;
    }
    if current + nextNum < totalPages {
      size := size + 1;
      hasMoreNext := true;
    }
    var at := offsetIdx + previousNum;
    var slots: seq<Slot<Page>> := seq(size, _ => Nil);
    if offsetIdx == 1 {
      slots := slots[0 := Ref(Ellipsis)];
    }
    if hasMoreNext {
      slots := slots[|slots| - 1 := Ref(Ellipsis)];
    }
    for i := 0 to previousNum
      invariant |slots| == size
      invariant offsetIdx == 1 ==> slots[0] == Ref(Ellipsis)
      invariant hasMoreNext ==> slots[size - 1] == Ref(Ellipsis)
      invariant forall j :: offsetIdx <= j < offsetIdx + i ==> slots[j] == Ref(Page(j - offsetIdx + offsetVal, false))
    {
      slots := slots[offsetIdx + i := Ref(Page(i + offsetVal, false))];
    }
    slots := slots[at := Ref(Page(current, true))];
    for i := 1 to nextNum + 1
      invariant |slots| == size
      invariant offsetIdx == 1 ==> slots[0] == Ref(Ellipsis)
      invariant hasMoreNext ==> slots[size - 1] == Ref(Ellipsis)
      invariant forall j :: offsetIdx <= j < at ==> slots[j] == Ref(Page(j - offsetIdx + offsetVal, false))
      invariant forall j :: at <= j < at + i ==> slots[j] == Ref(Page(current + j - at, j == at))
    {
      slots := slots[at + i := Ref(Page(current + i, false))];
    }
    SpreadLayout(current, totalPages, previousNum, nextNum);
    ghost var expected := Spread(current, totalPages, previousNum, nextNum);
    forall k | 0 <= k < size
      ensures slots[k] == Ref(expected[k])
    {
      if offsetIdx <= k < at {
        assert expected[offsetIdx + (k - offsetIdx)] == Page(k - offsetIdx + offsetVal, false);
      } else if at < k < at + nextNum + 1 {
        assert expected[at + (k - at)] == Page(current + (k - at), false);
      }
    }
    pages := Deref(slots);
  }

  /** 63 items, 10 per page, current page 6, four links: the window is
      shifted back to pages 4 to 7, with an ellipsis before it only. */
  lemma ShiftedExample()
    ensures New(63, 10, 6, 4).Pages() ==
              [Ellipsis, Page(4, false), Page(5, false), Page(6, true), Page(7, false)]
  {
    var p := New(63, 10, 6, 4);
    assert p.TotalPages() == 7;
  }

  /** 100 items, 10 per page, current page 5, three links: a centred window
      with an ellipsis on both sides. */
  lemma CentredExample()
    ensures New(100, 10, 5, 3).Pages() ==
              [Ellipsis, Page(4, false), Page(5, true), Page(6, false), Ellipsis]
  {
    var p := New(100, 10, 5, 3);
    assert p.TotalPages() == 10;
  }
}
