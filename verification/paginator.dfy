/** The current pagination calculator (paginator.go). A `Paginator` is built
    from a `Config` and a total item count; it answers boundary queries about
    the current page and produces a fixed-size window of page links that is
    pinned to the start, pinned to the end or centred on the current page,
    without ellipsis markers. */
module Paginator {
  import opened PageCommon

  const DefaultPageSize: Pos := 10
  const DefaultCurrent: int := 1
  const DefaultLinkedCount: int := 3

  /** Caller-supplied settings. `Custom` writes a defaulted page size back. */
  datatype Config = Config(pageSize: int, current: int, linkedCount: int)

  /** One entry of the page window. */
  datatype Page = Page(num: int, isCurrent: bool)

  /** The pagination state. Go keeps the fields private, so every value is
      built by `Custom`, which makes the page size positive. */
  datatype Paginator = Paginator(total: nat, pageSize: Pos, current: int, linkedCount: int)
  {
    /** The number of the last page; an empty listing still has one page. */
    function TotalPages(): (r: int)
      ensures r >= 1
      ensures total == 0 ==> r == 1
      ensures total > 0 ==> IsPageCount(total, pageSize, r)
    {
      if total == 0 then 1
      else
        CeilingByRemainder(total, pageSize);
        if total % pageSize == 0 then total / pageSize
        else total / pageSize + 1
    }

    /** What `Custom` establishes: the current page is never past the last
        one. A non-positive current page is left as it is. */
    predicate Clamped()
    {
      current <= TotalPages()
    }

    predicate IsFirst()
    {
      current == 1
    }

    predicate HasPrevious()
    {
      current > 1
    }

    function Previous(): int
    {
      if !HasPrevious() then current else current - 1
    }

    predicate HasNext()
    {
      total > current * pageSize
    }

    function Next(): int
    {
      if !HasNext() then current else current + 1
    }

    predicate IsLast()
    {
      if total == 0 then true
      else total > (current - 1) * pageSize && !HasNext()
    }

    /** The page links to show around the current page. */
    function Pages(): seq<Page>
    {
      if linkedCount <= 0 then []
      else if linkedCount == 1 || TotalPages() == 1 then [Page(current, true)]
      else if TotalPages() <= linkedCount then Marked(1, TotalPages(), current)
      else
        var linkedRadius := linkedCount / 2;
        var previousCount := linkedRadius;
        var nextCount := if linkedCount % 2 == 0 then linkedRadius - 1 else linkedRadius;
        var bounds :=
          if current <= previousCount then (1, linkedCount)
          else if current > previousCount && current >= TotalPages() - nextCount then
            (TotalPages() - linkedCount + 1, TotalPages())
          else (current - previousCount, current + nextCount);
        var offsetIdx, maxIdx := bounds.0, bounds.1;
        assert maxIdx - offsetIdx + 1 == linkedCount;
        Marked(offsetIdx, maxIdx - offsetIdx + 1, current)
    }
  }

  /** `n` consecutive pages starting at `first`, each flagged when it is the
      current page. */
  function Marked(first: int, n: nat, current: int): seq<Page>
  {
    seq(n, i => Page(first + i, first + i == current))
  }

  /** Builds a paginator from `c` and `total`. Returns the configuration as
      `Custom` leaves it (its page size defaulted in place) together with the
      paginator. */
  function Custom(c: Config, total: nat): (r: (Config, Paginator))
    ensures c.pageSize > 0 ==> r.0 == c
    ensures c.pageSize <= 0 ==> r.0 == Config(DefaultPageSize, c.current, c.linkedCount)
    ensures r.1.total == total && r.1.pageSize == r.0.pageSize
    ensures r.1.linkedCount == c.linkedCount
    ensures r.1.Clamped() && r.1.current <= c.current
    ensures c.current <= r.1.TotalPages() ==> r.1.current == c.current
    ensures c.current > r.1.TotalPages() ==> r.1.current == r.1.TotalPages()
  {
    var c' := if c.pageSize <= 0 then c.(pageSize := DefaultPageSize) else c;
    var p := Paginator(total, c'.pageSize, c'.current, c'.linkedCount);
    if p.current > p.TotalPages() then (c', p.(current := p.TotalPages()))
    else (c', p)
  }

  /** A paginator with the default settings. */
  function New(total: nat): (p: Paginator)
    ensures p.total == total
    ensures p.pageSize == 10 && p.current == 1 && p.linkedCount == 3
  {
    Custom(Config(DefaultPageSize, DefaultCurrent, DefaultLinkedCount), total).1
  }

  /** Independent description of the window: the `min(linkedCount, TotalPages())`
      consecutive pages whose first page is `current - linkedCount / 2` pushed
      back inside the range of pages. */
  function ClampedWindow(p: Paginator): seq<Page>
  {
    if p.linkedCount <= 0 then []
    else
      var n := Min(p.linkedCount, p.TotalPages());
      Marked(Clamp(p.current - p.linkedCount / 2, 1, p.TotalPages() - n + 1), n, p.current)
  }

  /** The page count is the least number of pages that holds every item. */
  lemma TotalPagesIsCeiling(p: Paginator, k: int)
    requires p.total > 0 && IsPageCount(p.total, p.pageSize, k)
    ensures p.TotalPages() == k
  {
    PageCountUnique(p.total, p.pageSize, p.TotalPages(), k);
  }

  /** For a current page inside `[1, TotalPages()]` the boundary queries agree
      with each other and with the page count. */
  lemma BoundaryQueries(p: Paginator)
    requires 1 <= p.current <= p.TotalPages()
    ensures p.HasNext() <==> p.current < p.TotalPages()
    ensures p.IsLast() <==> p.current == p.TotalPages()
    ensures p.IsFirst() <==> !p.HasPrevious()
    ensures 1 <= p.Previous() <= p.current && p.current - p.Previous() <= 1
    ensures p.current <= p.Next() <= p.TotalPages() && p.Next() - p.current <= 1
    ensures p.HasPrevious() <==> p.Previous() == p.current - 1
    ensures p.HasNext() <==> p.Next() == p.current + 1
  {
    var tp := p.TotalPages();
    if p.current < tp {
      MulMonotone(p.current, tp - 1, p.pageSize);
    } else {
      MulMonotone(tp, p.current, p.pageSize);
    }
  }

  /** The cases in which no sliding is needed: the window is switched off,
      shows only the current page (whatever its number), or lists every page. */
  lemma SpecialCases(p: Paginator)
    ensures p.linkedCount <= 0 ==> p.Pages() == []
    ensures p.linkedCount > 0 && (p.linkedCount == 1 || p.TotalPages() == 1) ==>
              p.Pages() == [Page(p.current, true)]
    ensures 2 <= p.TotalPages() <= p.linkedCount ==>
              |p.Pages()| == p.TotalPages() &&
              forall i :: 0 <= i < |p.Pages()| ==>
                p.Pages()[i].num == i + 1 && (p.Pages()[i].isCurrent <==> i + 1 == p.current)
  {
  }

  /** For every paginator `Custom` can build, the window is the clamped window:
      `1..linkedCount` when current is near the start (a non-positive current
      included), the last `linkedCount` pages near the end, and
      `current - linkedCount / 2` onwards otherwise. The one exception is the
      one-entry branch with a non-positive current, which `SpecialCases`
      describes: it shows that page, flagged. */
  lemma PagesIsClampedWindow(p: Paginator)
    requires p.Clamped()
    requires 1 <= p.current || (p.linkedCount != 1 && p.TotalPages() != 1)
    ensures p.Pages() == ClampedWindow(p)
  {
    var tp := p.TotalPages();
    if p.linkedCount <= 0 {
    } else if p.linkedCount == 1 || tp == 1 {
      assert Min(p.linkedCount, tp) == 1;
      assert Clamp(p.current - p.linkedCount / 2, 1, tp) == p.current;
    } else if tp <= p.linkedCount {
    } else {
      var previousCount := p.linkedCount / 2;
      var nextCount := if p.linkedCount % 2 == 0 then previousCount - 1 else previousCount;
      assert previousCount + nextCount + 1 == p.linkedCount;
    }
  }

  /** The sliding case: exactly `linkedCount` consecutive pages inside
      `[1, TotalPages()]`, never the -1 marker, and the one flagged entry is
      the current page. */
  lemma SlidingWindow(p: Paginator)
    requires p.Clamped() && 2 <= p.linkedCount < p.TotalPages()
    ensures |p.Pages()| == p.linkedCount
    ensures forall i :: 0 <= i < |p.Pages()| ==> p.Pages()[i].num == p.Pages()[0].num + i
    ensures 1 <= p.Pages()[0].num && p.Pages()[|p.Pages()| - 1].num <= p.TotalPages()
    ensures forall i :: 0 <= i < |p.Pages()| ==> p.Pages()[i].num != -1
    ensures forall i :: 0 <= i < |p.Pages()| ==> (p.Pages()[i].isCurrent <==> p.Pages()[i].num == p.current)
    ensures p.current >= 1 ==>
              exists k :: 0 <= k < |p.Pages()| && p.Pages()[k].isCurrent && p.Pages()[k].num == p.current &&
                forall j :: 0 <= j < |p.Pages()| && p.Pages()[j].isCurrent ==> j == k
  {
    var r := p.Pages();
    var tp := p.TotalPages();
    var previousCount := p.linkedCount / 2;
    var nextCount := if p.linkedCount % 2 == 0 then previousCount - 1 else previousCount;
    var first := r[0].num;
    assert 1 <= first && first + p.linkedCount - 1 <= tp;
    if p.current >= 1 {
      assert first <= p.current <= first + p.linkedCount - 1;
      var k := p.current - first;
      assert r[k].isCurrent && r[k].num == p.current;
    }
  }

  /** `Custom` keeps a non-positive current page. The boundary queries then
      report neither a first page nor a previous one, a next page whenever
      there are items (or current is negative), and a last page only for an
      empty listing. */
  lemma NonPositiveCurrent(p: Paginator)
    requires p.current <= 0
    ensures !p.IsFirst() && !p.HasPrevious() && p.Previous() == p.current
    ensures p.HasNext() <==> (p.current < 0 || p.total > 0)
    ensures p.HasNext() ==> p.Next() == p.current + 1
    ensures p.IsLast() <==> p.total == 0
  {
    MulMonotone(p.current, 0, p.pageSize);
    MulMonotone(p.current - 1, 0, p.pageSize);
  }

  /** 63 items, 10 per page, current page 0, three links: current stays 0, so
      the paginator is neither on the first page nor has a previous one, its
      next page is 1, and its window is the start-pinned pages 1 to 3 with no
      entry flagged. */
  lemma ZeroCurrentExample()
    ensures var p := Custom(Config(10, 0, 3), 63).1;
      && p.current == 0 && !p.IsFirst() && !p.HasPrevious()
      && p.HasNext() && p.Next() == 1 && !p.IsLast()
      && p.Pages() == [Page(1, false), Page(2, false), Page(3, false)]
  {
    var p := Custom(Config(10, 0, 3), 63).1;
    assert p.TotalPages() == 7;
  }

  /** Fills a slice of `linkedCount` (or `TotalPages()`) pointers the way the
      Go code does, proving every index written is in bounds, no slot is left
      nil, and the result is `Pages()`. */
  method BuildPages(p: Paginator) returns (pages: seq<Page>)
    ensures pages == p.Pages()
  {
    if p.linkedCount <= 0 {
      return [];
    }
    var totalPages := p.TotalPages();
    if p.linkedCount == 1 || totalPages == 1 {
      return [Page(p.current, true)];
    }
    if totalPages <= p.linkedCount {
      var slots: seq<Slot<Page>> := seq(totalPages, _ => Nil);
      for i := 0 to totalPages
        invariant |slots| == totalPages
        invariant forall k :: 0 <= k < i ==> slots[k] == Ref(Page(k + 1, k + 1 == p.current))
      {
        slots := slots[i := Ref(Page(i + 1, i + 1 == p.current))];
      }
      pages := Deref(slots);
      assert forall k :: 0 <= k < |pages| ==> pages[k] == p.Pages()[k];
      return;
    }
    var linkedRadius := p.linkedCount / 2;
    var previousCount, nextCount := linkedRadius, linkedRadius;
    if p.linkedCount % 2 == 0 {
      nextCount := nextCount - 1;
    }
    var slots: seq<Slot<Page>> := seq(p.linkedCount, _ => Nil);
    var offsetIdx, maxIdx := 1, 1;
    if p.current <= previousCount {
      offsetIdx := 1;
      maxIdx := p.linkedCount;
    } else if p.current > previousCount && p.current >= totalPages - nextCount {
      offsetIdx := totalPages - p.linkedCount + 1;
      maxIdx := totalPages;
    } else {
      offsetIdx := p.current - previousCount;
      maxIdx := p.current + nextCount;
    }
    for i := 0 to maxIdx - offsetIdx + 1
      invariant |slots| == p.linkedCount
      invariant forall k :: 0 <= k < i ==> slots[k] == Ref(Page(offsetIdx + k, offsetIdx + k == p.current))
    {
      slots := slots[i := Ref(Page(offsetIdx + i, offsetIdx + i == p.current))];
    }
    pages := Deref(slots);
    assert forall k :: 0 <= k < |pages| ==> pages[k] == p.Pages()[k];
  }

  /** Twenty items with the defaults make two pages, and the window shows both. */
  lemma TwentyItems()
    ensures New(20).TotalPages() == 2 && |New(20).Pages()| == 2
  {
  }

  /** The same twenty items through an explicit `{10, 2, 3}` config. */
  lemma ConfigTwentyItems()
    ensures |Custom(Config(10, 2, 3), 20).1.Pages()| == 2
  {
  }

  /** 23 items, 10 per page, current page 2, three links. */
  lemma TwentyThreeItems()
    ensures var p := Custom(Config(10, 2, 3), 23).1;
      && p.TotalPages() == 3 && |p.Pages()| == 3
      && !p.IsFirst() && p.HasPrevious() && p.Previous() == 1
      && p.HasNext() && p.Next() == 3 && !p.IsLast()
  {
    var p := Custom(Config(10, 2, 3), 23).1;
    assert p.TotalPages() == 3;
  }

  /** A disabled window is empty, a one-link window holds
      one entry, and a too-large current page is lowered to the last page. */
  lemma LinkedCountEdges()
    ensures |Custom(Config(10, 2, 0), 23).1.Pages()| == 0
    ensures |Custom(Config(10, 2, 0), 5).1.Pages()| == 0 && Custom(Config(10, 2, 0), 5).1.current == 1
    ensures |Custom(Config(10, 2, 1), 23).1.Pages()| == 1
    ensures |Custom(Config(10, 2, 1), 5).1.Pages()| == 1
  {
  }

  /** 63 items, 10 per page, current page 6, four links: the window is pinned
      to the end and shows pages 4 to 7 with 6 flagged. */
  lemma EndPinnedExample()
    ensures Custom(Config(10, 6, 4), 63).1.Pages() ==
              [Page(4, false), Page(5, false), Page(6, true), Page(7, false)]
  {
    var p := Custom(Config(10, 6, 4), 63).1;
    assert p.TotalPages() == 7;
  }
}
