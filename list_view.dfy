/**
  The list-view state of the directory: the full employee list held in memory,
  the search term (and its debounced copy), the position filter, the current
  page, and the loading/error pair. The filtered list, the page metadata and
  the visible page are pure functions of that state; navigation, filter
  changes and the create/update/delete commands change it.
 */
module ListView {
  import opened Wrappers
  import opened Types
  import opened Text

  const PAGE_SIZE: nat := 10

  const LOAD_FAILED := "Failed to load employees. Please try again."
  const ADD_FAILED := "Failed to add employee. Please try again."
  const UPDATE_FAILED := "Failed to update employee. Please try again."
  const DELETE_FAILED := "Failed to delete employee. Please try again."

  // ---------------------------------------------------------------------------
  // Filtering

  /** An empty term matches everyone; otherwise the term must occur, ignoring case, in the name or the email. */
  predicate MatchesSearch(e: Employee, term: string)
  {
    term == "" || Includes(Lower(e.name), Lower(term)) || Includes(Lower(e.email), Lower(term))
  }

  /** An empty filter matches everyone; otherwise the position must equal it exactly. */
  predicate MatchesPosition(e: Employee, positionFilter: string)
  {
    positionFilter == "" || RoleName(e.position) == positionFilter
  }

  predicate Matches(e: Employee, term: string, positionFilter: string)
  {
    MatchesSearch(e, term) && MatchesPosition(e, positionFilter)
  }

  /** The employees of `all` that match both criteria, in their original order. */
  function Filter(all: seq<Employee>, term: string, positionFilter: string): (r: seq<Employee>)
    ensures |r| <= |all|
  {
    if all == [] then []
    else (if Matches(all[0], term, positionFilter) then [all[0]] else [])
         + Filter(all[1..], term, positionFilter)
  }

  lemma {:induction false} FilterMembership(all: seq<Employee>, term: string, positionFilter: string, e: Employee)
    ensures e in Filter(all, term, positionFilter) <==>
              e in all
              && (term == "" || Includes(Lower(e.name), Lower(term)) || Includes(Lower(e.email), Lower(term)))
              && (positionFilter == "" || RoleName(e.position) == positionFilter)
  {
    if all != [] {
      FilterMembership(all[1..], term, positionFilter, e);
      assert all == [all[0]] + all[1..];
    }
  }

  /** Each employee occurs in the filtered list as often as in the full list if it matches, and not at all otherwise. */
  lemma {:induction false} FilterCount(all: seq<Employee>, term: string, positionFilter: string, e: Employee)
    ensures multiset(Filter(all, term, positionFilter))[e] ==
              if Matches(e, term, positionFilter) then multiset(all)[e] else 0
  {
    if all != [] {
      FilterCount(all[1..], term, positionFilter, e);
      assert all == [all[0]] + all[1..];
    }
  }

  lemma FilterMembershipAll(all: seq<Employee>, term: string, positionFilter: string)
    ensures forall e :: e in Filter(all, term, positionFilter) <==> e in all && Matches(e, term, positionFilter)
  {
    forall e ensures e in Filter(all, term, positionFilter) <==> e in all && Matches(e, term, positionFilter) {
      FilterMembership(all, term, positionFilter, e);
    }
  }

  ghost predicate StrictlyIncreasing(idx: seq<int>)
  {
    forall a, b :: 0 <= a < b < |idx| ==> idx[a] < idx[b]
  }

  /** `r` is `all` read at the increasing positions `idx`. */
  ghost predicate ReadAt(all: seq<Employee>, idx: seq<int>, r: seq<Employee>)
  {
    && |idx| == |r|
    && StrictlyIncreasing(idx)
    && (forall k :: 0 <= k < |idx| ==> 0 <= idx[k] < |all| && all[idx[k]] == r[k])
  }

  /** The positions `idx` are exactly the positions of the employees of `all` that match. */
  ghost predicate MatchingPositions(all: seq<Employee>, idx: seq<int>, term: string, positionFilter: string)
  {
    forall j :: 0 <= j < |all| ==> (j in idx <==> Matches(all[j], term, positionFilter))
  }

  /** A selection from `all[1..]` is, shifted by one, a selection from `all` that avoids position 0. */
  lemma ShiftSelection(all: seq<Employee>, rest: seq<int>, tail: seq<Employee>, term: string, positionFilter: string)
    returns (shifted: seq<int>)
    requires all != []
    requires ReadAt(all[1..], rest, tail)
    requires MatchingPositions(all[1..], rest, term, positionFilter)
    ensures ReadAt(all, shifted, tail)
    ensures forall k :: 0 <= k < |shifted| ==> shifted[k] >= 1
    ensures forall j :: 1 <= j < |all| ==> (j in shifted <==> Matches(all[j], term, positionFilter))
  {
    shifted := Shift(rest);
    forall k | 0 <= k < |shifted|
      ensures 1 <= shifted[k] < |all| && all[shifted[k]] == tail[k]
    {
      assert all[1..][rest[k]] == tail[k];
    }
    forall j | 1 <= j < |all|
      ensures j in shifted <==> Matches(all[j], term, positionFilter)
    {
      assert all[1..][j - 1] == all[j];
      assert j - 1 in rest <==> Matches(all[1..][j - 1], term, positionFilter);
    }
  }

  /** Every position of `idx`, plus one. */
  function Shift(idx: seq<int>): (r: seq<int>)
    ensures |r| == |idx|
    ensures forall k :: 0 <= k < |idx| ==> r[k] == idx[k] + 1
    ensures forall j :: j in r <==> j - 1 in idx
  {
    var r := seq(|idx|, k requires 0 <= k < |idx| => idx[k] + 1);
    assert forall j :: j - 1 in idx ==> j in r by {
      forall j | j - 1 in idx ensures j in r {
        var k :| 0 <= k < |idx| && idx[k] == j - 1;
        assert r[k] == j;
      }
    }
    r
  }

  /** Selecting position 0 in front of a selection that avoids it is again a selection. */
  lemma PrependPosition(all: seq<Employee>, shifted: seq<int>, tail: seq<Employee>)
    requires all != []
    requires ReadAt(all, shifted, tail)
    requires forall k :: 0 <= k < |shifted| ==> shifted[k] >= 1
    ensures ReadAt(all, [0] + shifted, [all[0]] + tail)
    ensures forall j :: j in [0] + shifted <==> j == 0 || j in shifted
  {
    var idx, r := [0] + shifted, [all[0]] + tail;
    forall k | 1 <= k < |idx| ensures idx[k] == shifted[k - 1] && r[k] == tail[k - 1] { }
  }

  /**
    The filtered list is an order-preserving selection from the full list: it
    is `all` read at increasing positions, and those positions are exactly the
    positions of the matching employees.
   */
  lemma {:induction false} FilterIsSelection(all: seq<Employee>, term: string, positionFilter: string)
    returns (idx: seq<int>)
    ensures ReadAt(all, idx, Filter(all, term, positionFilter))
    ensures MatchingPositions(all, idx, term, positionFilter)
  {
    if all == [] {
      idx := [];
    } else {
      var tail := Filter(all[1..], term, positionFilter);
      var rest := FilterIsSelection(all[1..], term, positionFilter);
      var shifted := ShiftSelection(all, rest, tail, term, positionFilter);
      if Matches(all[0], term, positionFilter) {
        idx := [0] + shifted;
        PrependPosition(all, shifted, tail);
        assert Filter(all, term, positionFilter) == [all[0]] + tail;
      } else {
        idx := shifted;
        assert Filter(all, term, positionFilter) == tail;
      }
    }
  }

  // ---------------------------------------------------------------------------
  // Page metadata and the visible page

  /** The number of pages of `n` items, rounding up (`Math.ceil(n / 10)`). */
  function TotalPages(n: nat): (t: nat)
    ensures t == 0 <==> n == 0
    ensures n > 0 ==> (t - 1) * PAGE_SIZE < n <= t * PAGE_SIZE
  {
    (n + PAGE_SIZE - 1) / PAGE_SIZE
  }

  /** The page metadata for `total` filtered employees; none when there are none. */
  function PaginationOf(total: nat, currentPage: int): (r: Option<PaginationInfo>)
    ensures r.None? <==> total == 0
    ensures r.Some? ==>
              && r.value.currentPage == currentPage
              && r.value.totalEmployees == total
              && r.value.limit == PAGE_SIZE
              && r.value.totalPages >= 1
              && (r.value.totalPages - 1) * PAGE_SIZE < total <= r.value.totalPages * PAGE_SIZE
              && r.value.totalPages == TotalPages(total)
              && (r.value.hasNext <==> currentPage < r.value.totalPages)
              && (r.value.hasPrev <==> currentPage > 1)
  {
    if total == 0 then None
    else
      var totalPages := TotalPages(total);
      Some(PaginationInfo(currentPage, totalPages, total, currentPage < totalPages, currentPage > 1, PAGE_SIZE))
  }

  /** How `Array.prototype.slice` resolves an index against a length: negative counts from the end, then clamped. */
  function ResolveIndex(i: int, n: nat): (k: nat)
    ensures k <= n
    ensures 0 <= i ==> k == if i < n then i else n
  {
    if i < 0 then (if n + i < 0 then 0 else n + i)
    else if i > n then n
    else i
  }

  /** `s.slice(start, end)`. */
  function Slice<T>(s: seq<T>, start: int, end: int): (r: seq<T>)
    ensures |r| <= |s|
  {
    var from, to := ResolveIndex(start, |s|), ResolveIndex(end, |s|);
    if from < to then s[from..to] else []
  }

  /** The employees shown on `page`: the slice from `(page - 1) * 10` of length 10. */
  function PageSlice(filtered: seq<Employee>, page: int): (r: seq<Employee>)
    ensures page >= 1 ==>
              var start := (page - 1) * PAGE_SIZE;
              && |r| <= PAGE_SIZE
              && |r| == (if start >= |filtered| then 0
                         else if |filtered| - start < PAGE_SIZE then |filtered| - start
                         else PAGE_SIZE)
              && (forall k :: 0 <= k < |r| ==> r[k] == filtered[start + k])
    ensures page > TotalPages(|filtered|) ==> r == []
  {
    var start := (page - 1) * PAGE_SIZE;
    Slice(filtered, start, start + PAGE_SIZE)
  }

  /** Pages 1 to `k` of `filtered`, one after the other. */
  ghost function PagesUpTo(filtered: seq<Employee>, k: nat): seq<Employee>
  {
    if k == 0 then [] else PagesUpTo(filtered, k - 1) + PageSlice(filtered, k)
  }

  /** The end of the first `k` pages: `10 * k`, or the length when that is shorter. */
  function PrefixEnd(filtered: seq<Employee>, k: nat): nat
  {
    if k * PAGE_SIZE <= |filtered| then k * PAGE_SIZE else |filtered|
  }

  /** Page `k` is the stretch between the ends of the first `k - 1` and the first `k` pages. */
  lemma PageSliceBetween(filtered: seq<Employee>, k: nat)
    requires k > 0
    ensures PrefixEnd(filtered, k - 1) <= PrefixEnd(filtered, k)
    ensures PageSlice(filtered, k) == filtered[PrefixEnd(filtered, k - 1)..PrefixEnd(filtered, k)]
  {
    var lo, hi := PrefixEnd(filtered, k - 1), PrefixEnd(filtered, k);
    var page := PageSlice(filtered, k);
    assert |page| == hi - lo;
    forall i | 0 <= i < |page| ensures page[i] == filtered[lo..hi][i] { }
  }

  /** The first `k` pages hold exactly the first `10 * k` filtered employees (or all of them). */
  lemma {:induction false} PagesUpToPrefix(filtered: seq<Employee>, k: nat)
    ensures PagesUpTo(filtered, k) == filtered[..PrefixEnd(filtered, k)]
  {
    if k > 0 {
      PagesUpToPrefix(filtered, k - 1);
      PageSliceBetween(filtered, k);
      var lo, hi := PrefixEnd(filtered, k - 1), PrefixEnd(filtered, k);
      assert filtered[..lo] + filtered[lo..hi] == filtered[..hi];
    }
  }

  /** Read page after page, the pages show every filtered employee once, in order. */
  lemma PagesCoverFiltered(filtered: seq<Employee>)
    ensures PagesUpTo(filtered, TotalPages(|filtered|)) == filtered
  {
    PagesUpToPrefix(filtered, TotalPages(|filtered|));
  }

  // ---------------------------------------------------------------------------
  // Deletion

  /** `all.filter(emp => emp.id !== id)`. */
  function WithoutId(all: seq<Employee>, id: int): (r: seq<Employee>)
    ensures |r| <= |all|
    ensures forall e :: e in r <==> e in all && e.id != id
    ensures forall e :: multiset(r)[e] == if e.id != id then multiset(all)[e] else 0
  {
    if all == [] then []
    else
      assert all == [all[0]] + all[1..];
      (if all[0].id != id then [all[0]] else []) + WithoutId(all[1..], id)
  }

  /**
    The page after a successful delete: moved back to the last page of the
    remaining employees when it lies beyond it and there is one; otherwise kept.
   */
  function ClampAfterDelete(currentPage: int, remaining: nat): (p: int)
    ensures p <= currentPage
    ensures currentPage > TotalPages(remaining) > 0 ==> p == TotalPages(remaining)
    ensures !(currentPage > TotalPages(remaining) > 0) ==> p == currentPage
    ensures currentPage >= 1 ==> p >= 1
    ensures currentPage >= 1 && remaining > 0 ==> p <= TotalPages(remaining)
  {
    var totalPages := TotalPages(remaining);
    if currentPage > totalPages && totalPages > 0 then totalPages else currentPage
  }

  // ---------------------------------------------------------------------------
  // The state

  /** The outcome of fetching the full list from the server. */
  datatype Fetch = Fetched(employees: seq<Employee>) | FetchFailed

  class EmployeeDirectory {
    var allEmployees: seq<Employee>
    var loading: bool
    var error: Option<string>
    var currentPage: int
    var searchTerm: string
    /** The search term after the debounce delay; the only term the filter uses. */
    var debouncedSearchTerm: string
    var positionFilter: string

    /** Every command keeps the page at 1 or above; it need not stay within the page count. */
    ghost predicate Valid()
      reads this
    {
      currentPage >= 1
    }

    constructor ()
      ensures Valid()
      ensures allEmployees == [] && !loading && error == None && currentPage == 1
      ensures searchTerm == "" && debouncedSearchTerm == "" && positionFilter == ""
    {
      allEmployees := [];
      loading := false;
      error := None;
      currentPage := 1;
      searchTerm := "";
      debouncedSearchTerm := "";
      positionFilter := "";
    }

    /** The employees matching the debounced term and the role filter. */
    function FilteredEmployees(): (filtered: seq<Employee>)
      reads this
      ensures forall e :: e in filtered <==> e in allEmployees && Matches(e, debouncedSearchTerm, positionFilter)
    {
      FilterMembershipAll(allEmployees, debouncedSearchTerm, positionFilter);
      Filter(allEmployees, debouncedSearchTerm, positionFilter)
    }

    /** The page metadata of the filtered list; none when nothing matches. */
    function Pagination(): (info: Option<PaginationInfo>)
      reads this
      ensures info.None? <==> FilteredEmployees() == []
      ensures info.Some? ==>
                && info.value.currentPage == currentPage
                && info.value.totalEmployees == |FilteredEmployees()|
                && info.value.totalPages == TotalPages(|FilteredEmployees()|)
    {
      PaginationOf(|FilteredEmployees()|, currentPage)
    }

    /** The current page is one of the pages of the filtered list. */
    predicate PageInRange()
      reads this
    {
      Pagination().Some? && 1 <= currentPage <= Pagination().value.totalPages
    }

    /**
      The employees on the current page: at most ten consecutive filtered
      employees from position `(currentPage - 1) * 10`, and some exactly when
      the current page is one of the filtered list's pages.
     */
    function Employees(): (page: seq<Employee>)
      reads this
      ensures Valid() ==>
                && |page| <= PAGE_SIZE
                && (forall k :: 0 <= k < |page| ==>
                      (currentPage - 1) * PAGE_SIZE + k < |FilteredEmployees()|
                      && page[k] == FilteredEmployees()[(currentPage - 1) * PAGE_SIZE + k])
                && (page != [] <==> PageInRange())
    {
      PageSlice(FilteredEmployees(), currentPage)
    }

    /** Fetch the full list; a failure keeps the list and records the load error. */
    method LoadEmployees(fetched: Fetch)
      requires Valid()
      modifies this`allEmployees, this`loading, this`error
      ensures Valid()
      ensures !loading
      ensures fetched.Fetched? ==> allEmployees == fetched.employees && error == None
      ensures fetched.FetchFailed? ==> allEmployees == old(allEmployees) && error == Some(LOAD_FAILED)
    {
      loading := true;
      error := None;
      if fetched.Fetched? {
        allEmployees := fetched.employees;
      } else {
        error := Some(LOAD_FAILED);
      }
      loading := false;
    }

    /**
      Send a new employee; `written` is whether the server accepted it and
      `reload` the fetch that follows an accepted write.
     */
    method CreateEmployee(data: Draft, written: bool, reload: Fetch)
      requires Valid()
      modifies this`allEmployees, this`loading, this`error
      ensures Valid()
      ensures !loading
      ensures !written ==> allEmployees == old(allEmployees) && error == Some(ADD_FAILED)
      ensures written && reload.Fetched? ==> allEmployees == reload.employees && error == None
      ensures written && reload.FetchFailed? ==> allEmployees == old(allEmployees) && error == Some(LOAD_FAILED)
    {
      loading := true;
      error := None;
      if written {
        LoadEmployees(reload);
      } else {
        error := Some(ADD_FAILED);
      }
      loading := false;
    }

    /** Replace the employee `id`; as for creation, the server's answer is an input. */
    method EditEmployee(id: int, data: Draft, written: bool, reload: Fetch)
      requires Valid()
      modifies this`allEmployees, this`loading, this`error
      ensures Valid()
      ensures !loading
      ensures !written ==> allEmployees == old(allEmployees) && error == Some(UPDATE_FAILED)
      ensures written && reload.Fetched? ==> allEmployees == reload.employees && error == None
      ensures written && reload.FetchFailed? ==> allEmployees == old(allEmployees) && error == Some(LOAD_FAILED)
    {
      loading := true;
      error := None;
      if written {
        LoadEmployees(reload);
      } else {
        error := Some(UPDATE_FAILED);
      }
      loading := false;
    }

    /**
      Delete the employee `id`. After a successful delete the page is clamped
      against the unfiltered list without `id`, then the list is reloaded.
     */
    method RemoveEmployee(id: int, deleted: bool, reload: Fetch)
      requires Valid()
      modifies this`allEmployees, this`loading, this`error, this`currentPage
      ensures Valid()
      ensures !loading
      ensures !deleted ==> && allEmployees == old(allEmployees) && currentPage == old(currentPage)
                           && error == Some(DELETE_FAILED)
      ensures deleted ==> currentPage == ClampAfterDelete(old(currentPage), |WithoutId(old(allEmployees), id)|)
      ensures deleted && reload.Fetched? ==> allEmployees == reload.employees && error == None
      ensures deleted && reload.FetchFailed? ==> allEmployees == old(allEmployees) && error == Some(LOAD_FAILED)
    {
      loading := true;
      error := None;
      if deleted {
        var remainingEmployees := WithoutId(allEmployees, id);
        currentPage := ClampAfterDelete(currentPage, |remainingEmployees|);
        LoadEmployees(reload);
      } else {
        error := Some(DELETE_FAILED);
      }
      loading := false;
    }

    method HandleSearchChange(search: string)
      requires Valid()
      modifies this`searchTerm, this`currentPage
      ensures Valid()
      ensures searchTerm == search && currentPage == 1
    {
      searchTerm := search;
      currentPage := 1;
    }

    /** The debounce delay has passed with no newer keystroke: the filter now sees the typed term. */
    method DebounceSettled()
      requires Valid()
      modifies this`debouncedSearchTerm
      ensures Valid()
      ensures debouncedSearchTerm == searchTerm
    {
      debouncedSearchTerm := searchTerm;
    }

    method HandlePositionFilterChange(position: string)
      requires Valid()
      modifies this`positionFilter, this`currentPage
      ensures Valid()
      ensures positionFilter == position && currentPage == 1
    {
      positionFilter := position;
      currentPage := 1;
    }

    method GoToPage(page: int)
      requires Valid()
      modifies this`currentPage
      ensures Valid()
      ensures var info := old(Pagination());
              currentPage == if 1 <= page && info.Some? && page <= info.value.totalPages then page
                             else old(currentPage)
      ensures currentPage != old(currentPage) ==> PageInRange()
      ensures old(PageInRange()) ==> PageInRange()
    {
      var pagination := Pagination();
      if page >= 1 && pagination.Some? && page <= pagination.value.totalPages {
        currentPage := page;
      }
    }

    method NextPage()
      requires Valid()
      modifies this`currentPage
      ensures Valid()
      ensures var info := old(Pagination());
              currentPage == if info.Some? && info.value.hasNext then old(currentPage) + 1
                             else old(currentPage)
      ensures old(PageInRange()) ==> PageInRange()
      ensures old(PageInRange()) && old(currentPage) == old(Pagination()).value.totalPages ==>
                currentPage == old(currentPage)
    {
      var pagination := Pagination();
      if pagination.Some? && pagination.value.hasNext {
        currentPage := currentPage + 1;
      }
    }

    method PrevPage()
      requires Valid()
      modifies this`currentPage
      ensures Valid()
      ensures var info := old(Pagination());
              currentPage == if info.Some? && info.value.hasPrev then old(currentPage) - 1
                             else old(currentPage)
      ensures old(PageInRange()) ==> PageInRange()
      ensures old(currentPage) == 1 ==> currentPage == 1
    {
      var pagination := Pagination();
      if pagination.Some? && pagination.value.hasPrev {
        currentPage := currentPage - 1;
      }
    }
  }

}
