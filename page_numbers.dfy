/**
  The pager under the table: the list of page buttons, with -1 standing for
  an ellipsis, and the "Showing ..." line above them.
 */
module PageNumbers {
  import opened Types
  import ListView

  const MAX_PAGES_TO_SHOW: int := 5
  /** The marker the button list uses for "...". */
  const ELLIPSIS: int := -1

  /** The consecutive pages `lo, lo + 1, ..., hi` (empty when `lo > hi`). */
  function Range(lo: int, hi: int): (r: seq<int>)
    ensures |r| == if lo <= hi then hi - lo + 1 else 0
    ensures forall k :: 0 <= k < |r| ==> r[k] == lo + k
    decreases hi - lo
  {
    if lo > hi then [] else [lo] + Range(lo + 1, hi)
  }

  function Max(a: int, b: int): int { if a < b then b else a }
  function Min(a: int, b: int): int { if a < b then a else b }

  /** The first page of the block around the current page. */
  function WindowStart(currentPage: int): int
  {
    Max(2, currentPage - 1)
  }

  /** The last page of the block around the current page. */
  function WindowEnd(currentPage: int, totalPages: int): int
  {
    Min(totalPages - 1, currentPage + 1)
  }

  /**
    The button list: every page when there are at most five; otherwise the
    first page, the block around the current page and the last page, with an
    ellipsis wherever pages are skipped.
   */
  function PageWindow(currentPage: int, totalPages: int): seq<int>
  {
    if totalPages <= MAX_PAGES_TO_SHOW then Range(1, totalPages)
    else
      var start, end := WindowStart(currentPage), WindowEnd(currentPage, totalPages);
      [1]
      + (if start > 2 then [ELLIPSIS] else [])
      + Range(start, end)
      + (if end < totalPages - 1 then [ELLIPSIS] else [])
      + [totalPages]
  }

  lemma RangeSnoc(lo: int, hi: int)
    requires lo <= hi + 1
    ensures Range(lo, hi) + [hi + 1] == Range(lo, hi + 1)
  {
    assert (Range(lo, hi) + [hi + 1])[hi + 1 - lo] == hi + 1;
  }

  /** The component's `for (let i = lo; i <= hi; i++) pages.push(i)`. */
  method PushPages(pages: seq<int>, lo: int, hi: int) returns (r: seq<int>)
    ensures r == pages + Range(lo, hi)
  {
    r := pages;
    var i := lo;
    while i <= hi
      invariant lo <= i <= Max(lo, hi + 1)
      invariant r == pages + Range(lo, i - 1)
    {
      RangeSnoc(lo, i - 1);
      r := r + [i];
      i := i + 1;
    }
  }

  /** `getPageNumbers`, pushing onto the list as the component does. */
  method GetPageNumbers(currentPage: int, totalPages: int) returns (pages: seq<int>)
    ensures pages == PageWindow(currentPage, totalPages)
  {
    if totalPages <= MAX_PAGES_TO_SHOW {
      pages := PushPages([], 1, totalPages);
      assert pages == Range(1, totalPages);
    } else {
      pages := [1];
      var start := Max(2, currentPage - 1);
      var end := Min(totalPages - 1, currentPage + 1);
      ghost var lead: seq<int> := if start > 2 then [ELLIPSIS] else [];
      ghost var trail: seq<int> := if end < totalPages - 1 then [ELLIPSIS] else [];
      if start > 2 {
        pages := pages + [ELLIPSIS];
      } else {
        assert pages == [1] + lead;
      }
      pages := PushPages(pages, start, end);
      ghost var upToBlock := pages;
      if end < totalPages - 1 {
        pages := pages + [ELLIPSIS];
      } else {
        assert pages == upToBlock + trail;
      }
      pages := pages + [totalPages];
      assert pages == [1] + lead + Range(start, end) + trail + [totalPages];
    }
  }

  // ---------------------------------------------------------------------------
  // Properties of the button list

  /** Every entry is an ellipsis or a page between `lo` and `hi`. */
  ghost predicate EntriesWithin(w: seq<int>, lo: int, hi: int)
  {
    forall k :: 0 <= k < |w| ==> w[k] == ELLIPSIS || lo <= w[k] <= hi
  }

  /** Leaving the ellipses out, the pages strictly increase. */
  ghost predicate PagesIncrease(w: seq<int>)
  {
    forall a, b :: 0 <= a < b < |w| && w[a] != ELLIPSIS && w[b] != ELLIPSIS ==> w[a] < w[b]
  }

  lemma RangeShape(lo: int, hi: int)
    requires lo >= 1
    ensures EntriesWithin(Range(lo, hi), lo, hi)
    ensures PagesIncrease(Range(lo, hi))
  {
  }

  lemma ConcatShape(xs: seq<int>, ys: seq<int>, lo: int, mid: int, hi: int)
    requires EntriesWithin(xs, lo, mid) && PagesIncrease(xs)
    requires EntriesWithin(ys, mid + 1, hi) && PagesIncrease(ys)
    requires lo <= mid + 1 <= hi + 1
    ensures EntriesWithin(xs + ys, lo, hi)
    ensures PagesIncrease(xs + ys)
  {
    var w := xs + ys;
    forall a, b | 0 <= a < b < |w| && w[a] != ELLIPSIS && w[b] != ELLIPSIS
      ensures w[a] < w[b]
    {
      if b < |xs| {
        assert w[a] == xs[a] && w[b] == xs[b];
      } else if a >= |xs| {
        assert w[a] == ys[a - |xs|] && w[b] == ys[b - |xs|];
      } else {
        assert w[a] == xs[a] && w[b] == ys[b - |xs|];
      }
    }
  }

  /** With at most five pages, the list is exactly 1, 2, ..., totalPages. */
  lemma PageWindowSmall(currentPage: int, totalPages: int)
    requires totalPages <= MAX_PAGES_TO_SHOW
    ensures var w := PageWindow(currentPage, totalPages);
            && |w| == Max(0, totalPages)
            && forall k :: 0 <= k < |w| ==> w[k] == k + 1
  {
  }

  /**
    With more than five pages, the list starts at page 1, ends at the last page,
    and the pages it shows in between are exactly the block from
    `max(2, cur - 1)` to `min(totalPages - 1, cur + 1)`.
   */
  lemma {:induction false} PageWindowLarge(currentPage: int, totalPages: int)
    requires totalPages > MAX_PAGES_TO_SHOW
    ensures var w := PageWindow(currentPage, totalPages);
            && 3 <= |w| <= 7
            && w[0] == 1 && w[|w| - 1] == totalPages
            && forall p :: p in w && p != ELLIPSIS <==>
                 p == 1 || p == totalPages
                 || WindowStart(currentPage) <= p <= WindowEnd(currentPage, totalPages)
  {
    var start, end := WindowStart(currentPage), WindowEnd(currentPage, totalPages);
    var lead := if start > 2 then [ELLIPSIS] else [];
    var trail := if end < totalPages - 1 then [ELLIPSIS] else [];
    var w := PageWindow(currentPage, totalPages);
    assert w == [1] + lead + Range(start, end) + trail + [totalPages];
    forall p | start <= p <= end ensures p in w {
      assert Range(start, end)[p - start] == p;
      assert w[1 + |lead| + p - start] == p;
    }
  }

  /**
    The leading ellipsis appears exactly when pages 2 .. cur - 2 are skipped and
    the trailing one exactly when pages cur + 2 .. totalPages - 1 are skipped
    (for a current page within the page count).
   */
  lemma PageWindowEllipses(currentPage: int, totalPages: int)
    requires totalPages > MAX_PAGES_TO_SHOW
    requires 1 <= currentPage <= totalPages
    ensures var w := PageWindow(currentPage, totalPages);
            && (w[1] == ELLIPSIS <==> WindowStart(currentPage) > 2)
            && (w[|w| - 2] == ELLIPSIS <==> WindowEnd(currentPage, totalPages) < totalPages - 1)
  {
    var start, end := WindowStart(currentPage), WindowEnd(currentPage, totalPages);
    var lead := if start > 2 then [ELLIPSIS] else [];
    var trail := if end < totalPages - 1 then [ELLIPSIS] else [];
    var mid := Range(start, end);
    var w := PageWindow(currentPage, totalPages);
    assert w == [1] + lead + mid + trail + [totalPages];
    assert start <= end;
    assert w[|w| - 2] == if trail == [] then mid[|mid| - 1] else ELLIPSIS;
  }

  lemma {:induction false} PageWindowLargeShape(currentPage: int, totalPages: int)
    requires totalPages > MAX_PAGES_TO_SHOW
    ensures var w := PageWindow(currentPage, totalPages);
            EntriesWithin(w, 1, totalPages) && PagesIncrease(w)
  {
    var start, end := WindowStart(currentPage), WindowEnd(currentPage, totalPages);
    var lead: seq<int> := if start > 2 then [ELLIPSIS] else [];
    var trail: seq<int> := if end < totalPages - 1 then [ELLIPSIS] else [];
    var mid := Range(start, end);
    var front := [1] + lead;
    var body := front + mid;
    var back := body + trail;
    assert PageWindow(currentPage, totalPages) == back + [totalPages];
    RangeShape(start, end);
    ConcatShape([1], lead, 1, 1, 1);
    ConcatShape(front, mid, 1, 1, totalPages - 1);
    ConcatShape(body, trail, 1, totalPages - 1, totalPages - 1);
    ConcatShape(back, [totalPages], 1, totalPages - 1, totalPages);
  }

  /**
    For any current page: every entry is an ellipsis or a page in
    [1, totalPages], the pages strictly increase, there are at most seven
    entries, and a current page within the page count is among them.
   */
  lemma {:induction false} PageWindowWellFormed(currentPage: int, totalPages: int)
    ensures var w := PageWindow(currentPage, totalPages);
            && EntriesWithin(w, 1, totalPages)
            && PagesIncrease(w)
            && |w| <= 7
            && (1 <= currentPage <= totalPages ==> currentPage in w)
  {
    var w := PageWindow(currentPage, totalPages);
    if totalPages <= MAX_PAGES_TO_SHOW {
      RangeShape(1, totalPages);
      if 1 <= currentPage <= totalPages {
        assert w[currentPage - 1] == currentPage;
      }
    } else {
      PageWindowLargeShape(currentPage, totalPages);
      PageWindowLarge(currentPage, totalPages);
    }
  }

  // ---------------------------------------------------------------------------
  // The summary line

  /** "Showing n employee(s)" on a single page, "Showing a to b of n" otherwise. */
  datatype Summary =
    | CountOnly(total: int, noun: string)
    | ShowingRange(first: int, last: int, total: int)

  function SummaryOf(info: PaginationInfo): (r: Summary)
    ensures info.totalPages <= 1 ==>
              && r.CountOnly? && r.total == info.totalEmployees
              && (r.noun == "employee" || r.noun == "employees")
              && (r.noun == "employee" <==> info.totalEmployees == 1)
    ensures info.totalPages > 1 ==>
              && r.ShowingRange? && r.total == info.totalEmployees
              && r.first == (info.currentPage - 1) * info.limit + 1
              && r.last == Min(info.currentPage * info.limit, info.totalEmployees)
  {
    if info.totalPages <= 1 then
      CountOnly(info.totalEmployees, if info.totalEmployees != 1 then "employees" else "employee")
    else
      ShowingRange((info.currentPage - 1) * info.limit + 1,
                   Min(info.currentPage * info.limit, info.totalEmployees),
                   info.totalEmployees)
  }

  /**
    For the metadata of a non-empty list and a current page within the page
    count, the range shown is a non-empty stretch of 1 .. total.
   */
  lemma SummaryRangeBounds(total: nat, currentPage: int)
    requires total > 0
    requires 1 <= currentPage <= ListView.TotalPages(total)
    ensures var info := ListView.PaginationOf(total, currentPage).value;
            var first := (currentPage - 1) * info.limit + 1;
            var last := Min(currentPage * info.limit, total);
            1 <= first <= last <= total
  {
    var info := ListView.PaginationOf(total, currentPage).value;
    assert info.limit == 10;
    assert (currentPage - 1) * 10 <= (info.totalPages - 1) * 10;
  }

}
