/**
  The employee table: which column it is sorted by and in which direction,
  the comparator that orders the rows, the header icon of each column, the
  avatar initials of a name and the confirmation gate in front of a delete.
 */
module EmployeeTable {
  import opened Wrappers
  import opened Types
  import opened Text

  /** The sortable columns. */
  datatype SortKey = Id | Name | Email | Position

  datatype Direction = Asc | Desc

  function Flip(d: Direction): Direction
  {
    if d == Asc then Desc else Asc
  }

  /** The sort column and direction; no column means the rows keep their order. */
  class SortState {
    var sortField: Option<SortKey>
    var sortDirection: Direction

    constructor ()
      ensures sortField == None && sortDirection == Asc
    {
      sortField := None;
      sortDirection := Asc;
    }

    /** A click on the active column flips the direction; on another column it sorts by it ascending. */
    method HandleSort(field: SortKey)
      modifies this
      ensures old(sortField) == Some(field) ==>
                sortField == Some(field) && sortDirection == Flip(old(sortDirection))
      ensures old(sortField) != Some(field) ==>
                sortField == Some(field) && sortDirection == Asc
    {
      if sortField == Some(field) {
        sortDirection := if sortDirection == Asc then Desc else Asc;
      } else {
        sortField := Some(field);
        sortDirection := Asc;
      }
    }
  }

  // ---------------------------------------------------------------------------
  // The comparator

  /**
    The order of two strings by code point, the shorter first when one is a
    prefix of the other; it stands in for `localeCompare`, whose collation is
    locale data.
   */
  function StringCompare(a: string, b: string): (r: int)
    ensures -1 <= r <= 1
    ensures r == 0 <==> a == b
  {
    if a == [] && b == [] then 0
    else if a == [] then -1
    else if b == [] then 1
    else if a[0] < b[0] then -1
    else if a[0] > b[0] then 1
    else
      var r := StringCompare(a[1..], b[1..]);
      assert r == 0 ==> a == [a[0]] + a[1..] == [b[0]] + b[1..] == b;
      r
  }

  lemma {:induction false} StringCompareAntisymmetric(a: string, b: string)
    ensures StringCompare(a, b) == -StringCompare(b, a)
  {
    if a != [] && b != [] && a[0] == b[0] {
      StringCompareAntisymmetric(a[1..], b[1..]);
    }
  }

  /** The text of a string column. */
  function TextOf(e: Employee, key: SortKey): string
    requires key != Id
  {
    match key
    case Name => e.name
    case Email => e.email
    case Position => RoleName(e.position)
  }

  /**
    The row comparator: 0 without a sort column; the difference of the ids, or
    the string order, for the active column, with the arguments swapped when
    descending.
   */
  function Compare(a: Employee, b: Employee, field: Option<SortKey>, direction: Direction): (r: int)
    ensures field.None? ==> r == 0
    ensures field == Some(Id) ==>
              (r < 0 <==> (if direction == Asc then a.id < b.id else b.id < a.id))
              && (r == 0 <==> a.id == b.id)
    ensures field.Some? && field.value != Id ==>
              var x, y := TextOf(a, field.value), TextOf(b, field.value);
              r == 0 <==> x == y
  {
    match field
    case None => 0
    case Some(key) =>
      if key == Id then
        (if direction == Asc then a.id - b.id else b.id - a.id)
      else
        var x, y := TextOf(a, key), TextOf(b, key);
        if direction == Asc then StringCompare(x, y) else StringCompare(y, x)
  }

  /** Descending order is ascending order with the two rows swapped. */
  lemma CompareDescIsSwappedAsc(a: Employee, b: Employee, field: Option<SortKey>)
    ensures Compare(a, b, field, Desc) == Compare(b, a, field, Asc)
  {
  }

  /** Swapping the rows negates the comparison. */
  lemma CompareAntisymmetric(a: Employee, b: Employee, field: Option<SortKey>, direction: Direction)
    ensures Compare(a, b, field, direction) == -Compare(b, a, field, direction)
  {
    if field.Some? && field.value != Id {
      StringCompareAntisymmetric(TextOf(a, field.value), TextOf(b, field.value));
    }
  }

  /** No two neighbours are out of order. */
  ghost predicate SortedBy(s: seq<Employee>, field: Option<SortKey>, direction: Direction)
  {
    forall i :: 0 < i < |s| ==> Compare(s[i - 1], s[i], field, direction) <= 0
  }

  /** Two rows hold the same value in the sort column (every pair does when there is none). */
  predicate SameKey(a: Employee, b: Employee, field: Option<SortKey>)
  {
    match field
    case None => true
    case Some(key) => if key == Id then a.id == b.id else TextOf(a, key) == TextOf(b, key)
  }

  /** The comparator answers 0 exactly for rows with the same key, in either direction. */
  lemma CompareZeroIffSameKey(a: Employee, b: Employee, field: Option<SortKey>, direction: Direction)
    ensures Compare(a, b, field, direction) == 0 <==> SameKey(a, b, field)
  {
  }

  /**
    The rows of `s` with the same key as `y`, in their order in `s`. A sort is
    stable when it leaves this subsequence unchanged for every `y`.
   */
  function Peers(s: seq<Employee>, y: Employee, field: Option<SortKey>): seq<Employee>
  {
    if s == [] then []
    else Peers(s[..|s| - 1], y, field) + (if SameKey(s[|s| - 1], y, field) then [s[|s| - 1]] else [])
  }

  lemma {:induction false} PeersConcat(a: seq<Employee>, b: seq<Employee>, y: Employee, field: Option<SortKey>)
    ensures Peers(a + b, y, field) == Peers(a, y, field) + Peers(b, y, field)
    decreases |b|
  {
    if b == [] {
      assert a + b == a;
    } else {
      var init := b[..|b| - 1];
      PeersConcat(a, init, y, field);
      assert (a + b)[..|a + b| - 1] == a + init;
      assert (a + b)[|a + b| - 1] == b[|b| - 1];
    }
  }

  lemma {:induction false} PeersNone(s: seq<Employee>, y: Employee, field: Option<SortKey>)
    requires forall k :: 0 <= k < |s| ==> !SameKey(s[k], y, field)
    ensures Peers(s, y, field) == []
  {
    if s != [] {
      PeersNone(s[..|s| - 1], y, field);
    }
  }

  /**
    Placing `x` in front of rows that all compare greater than it adds `x` at
    the end of its own peers and changes no other row's peers.
   */
  lemma {:induction false} InsertKeepsPeers(front: seq<Employee>, back: seq<Employee>, x: Employee, field: Option<SortKey>, direction: Direction, y: Employee)
    requires forall k :: 0 <= k < |back| ==> Compare(back[k], x, field, direction) > 0
    ensures Peers(front + [x] + back, y, field)
            == Peers(front + back, y, field) + (if SameKey(x, y, field) then [x] else [])
  {
    PeersConcat(front + [x], back, y, field);
    PeersConcat(front, [x], y, field);
    PeersConcat(front, back, y, field);
    assert [x][..0] == [];
    if SameKey(x, y, field) {
      forall k | 0 <= k < |back| ensures !SameKey(back[k], y, field) {
        CompareZeroIffSameKey(back[k], x, field, direction);
      }
      PeersNone(back, y, field);
    }
  }

  /**
    `[...employees].sort(comparator)`: the rows in comparator order, as a new
    list. The engine's algorithm is not part of the source; this is a stable
    insertion sort, which moves a row only past rows that compare greater.
   */
  method SortEmployees(employees: seq<Employee>, field: Option<SortKey>, direction: Direction)
    returns (sorted: seq<Employee>)
    ensures multiset(sorted) == multiset(employees)
    ensures SortedBy(sorted, field, direction)
    ensures field.None? ==> sorted == employees
    ensures forall y :: Peers(sorted, y, field) == Peers(employees, y, field)
  {
    sorted := [];
    var i := 0;
    while i < |employees|
      invariant 0 <= i <= |employees|
      invariant multiset(sorted) == multiset(employees[..i])
      invariant SortedBy(sorted, field, direction)
      invariant field.None? ==> sorted == employees[..i]
      invariant forall y :: Peers(sorted, y, field) == Peers(employees[..i], y, field)
    {
      assert employees[..i + 1] == employees[..i] + [employees[i]];
      assert employees[..i + 1][..i] == employees[..i];
      sorted := Insert(sorted, employees[i], field, direction);
      i := i + 1;
    }
    assert employees[..i] == employees;
  }

  /** One step of the insertion sort: `x` goes after every row that does not compare greater than it. */
  method Insert(sorted: seq<Employee>, x: Employee, field: Option<SortKey>, direction: Direction)
    returns (r: seq<Employee>)
    requires SortedBy(sorted, field, direction)
    ensures multiset(r) == multiset(sorted) + multiset{x}
    ensures SortedBy(r, field, direction)
    ensures field.None? ==> r == sorted + [x]
    ensures forall y :: Peers(r, y, field) == Peers(sorted, y, field) + (if SameKey(x, y, field) then [x] else [])
  {
    var j := |sorted|;
    while j > 0 && Compare(sorted[j - 1], x, field, direction) > 0
      invariant 0 <= j <= |sorted|
      invariant forall k :: j <= k < |sorted| ==> Compare(sorted[k], x, field, direction) > 0
    {
      j := j - 1;
    }
    InsertKeepsSorted(sorted, j, x, field, direction);
    InsertAtCounts(sorted, j, x);
    assert sorted[..j] + sorted[j..] == sorted;
    forall y
      ensures Peers(sorted[..j] + [x] + sorted[j..], y, field)
              == Peers(sorted, y, field) + (if SameKey(x, y, field) then [x] else [])
    {
      InsertKeepsPeers(sorted[..j], sorted[j..], x, field, direction, y);
    }
    r := sorted[..j] + [x] + sorted[j..];
  }

  lemma InsertAtCounts(s: seq<Employee>, j: int, x: Employee)
    requires 0 <= j <= |s|
    ensures multiset(s[..j] + [x] + s[j..]) == multiset(s) + multiset{x}
    ensures j == |s| ==> s[..j] + [x] + s[j..] == s + [x]
  {
    assert s == s[..j] + s[j..];
  }

  lemma InsertKeepsSorted(s: seq<Employee>, j: int, x: Employee, field: Option<SortKey>, direction: Direction)
    requires 0 <= j <= |s|
    requires SortedBy(s, field, direction)
    requires j > 0 ==> Compare(s[j - 1], x, field, direction) <= 0
    requires j < |s| ==> Compare(s[j], x, field, direction) > 0
    ensures SortedBy(s[..j] + [x] + s[j..], field, direction)
  {
    var t := s[..j] + [x] + s[j..];
    if j < |s| {
      CompareAntisymmetric(s[j], x, field, direction);
    }
    forall i | 0 < i < |t| ensures Compare(t[i - 1], t[i], field, direction) <= 0 {
      if i < j {
        assert t[i - 1] == s[i - 1] && t[i] == s[i];
      } else if i == j {
        assert t[i - 1] == s[j - 1] && t[i] == x;
      } else if i == j + 1 {
        assert t[i - 1] == x && t[i] == s[j];
      } else {
        assert t[i - 1] == s[i - 2] && t[i] == s[i - 1];
      }
    }
  }

  /** Sorted by id, the ids increase when ascending and decrease when descending. */
  lemma {:induction false} SortedByIdOrdersIds(s: seq<Employee>, direction: Direction)
    requires SortedBy(s, Some(Id), direction)
    ensures forall i, j :: 0 <= i < j < |s| ==>
              if direction == Asc then s[i].id <= s[j].id else s[i].id >= s[j].id
  {
    if |s| > 1 {
      var init := s[..|s| - 1];
      assert SortedBy(init, Some(Id), direction) by {
        forall i | 0 < i < |init| ensures Compare(init[i - 1], init[i], Some(Id), direction) <= 0 {
          assert init[i - 1] == s[i - 1] && init[i] == s[i];
        }
      }
      SortedByIdOrdersIds(init, direction);
      forall i, j | 0 <= i < j < |s|
        ensures if direction == Asc then s[i].id <= s[j].id else s[i].id >= s[j].id
      {
        if j < |s| - 1 {
          assert s[i] == init[i] && s[j] == init[j];
        } else if i < j - 1 {
          assert s[i] == init[i] && s[j - 1] == init[j - 1];
          assert Compare(s[j - 1], s[j], Some(Id), direction) <= 0;
        } else {
          assert Compare(s[j - 1], s[j], Some(Id), direction) <= 0;
        }
      }
    }
  }

  // ---------------------------------------------------------------------------
  // Header icons

  const ICON_UNSORTED := "\U{2195}\U{FE0F}"
  const ICON_ASC := "\U{2191}"
  const ICON_DESC := "\U{2193}"

  function SortIcon(field: SortKey, sortField: Option<SortKey>, direction: Direction): (icon: string)
    ensures sortField != Some(field) ==> icon == ICON_UNSORTED
    ensures sortField == Some(field) && direction == Asc ==> icon == ICON_ASC
    ensures sortField == Some(field) && direction == Desc ==> icon == ICON_DESC
  {
    if sortField != Some(field) then ICON_UNSORTED
    else if direction == Asc then ICON_ASC
    else ICON_DESC
  }

  // ---------------------------------------------------------------------------
  // Avatar initials

  /**
    The segments of `[c] + t` from those of `t`: a space opens a new, empty
    first segment; any other character extends the first segment.
   */
  function PushChar(c: char, segments: seq<string>): (r: seq<string>)
    requires segments != []
    ensures |r| == |segments| + (if c == ' ' then 1 else 0)
    ensures c != ' ' && (forall k :: 0 <= k < |segments| ==> ' ' !in segments[k]) ==>
              forall k :: 0 <= k < |r| ==> ' ' !in r[k]
  {
    if c == ' ' then [""] + segments
    else [[c] + segments[0]] + segments[1..]
  }

  /** `s.split(" ")`: the segments between spaces, empty ones included. */
  function SplitOnSpace(s: string): (parts: seq<string>)
    ensures |parts| == multiset(s)[' '] + 1
    ensures forall k :: 0 <= k < |parts| ==> ' ' !in parts[k]
  {
    if s == [] then [""]
    else
      assert s == [s[0]] + s[1..];
      PushChar(s[0], SplitOnSpace(s[1..]))
  }

  /** `parts.join(" ")`. */
  function JoinWithSpace(parts: seq<string>): string
  {
    if parts == [] then ""
    else if |parts| == 1 then parts[0]
    else parts[0] + " " + JoinWithSpace(parts[1..])
  }

  lemma JoinPushChar(c: char, segments: seq<string>)
    requires segments != []
    ensures JoinWithSpace(PushChar(c, segments)) == [c] + JoinWithSpace(segments)
  {
    var r := PushChar(c, segments);
    if c == ' ' {
      assert r[1..] == segments;
    } else if |segments| > 1 {
      assert r[1..] == segments[1..];
    }
  }

  /** Joining the segments back with spaces gives the name again. */
  lemma {:induction false} JoinSplit(s: string)
    ensures JoinWithSpace(SplitOnSpace(s)) == s
  {
    if s != [] {
      JoinSplit(s[1..]);
      JoinPushChar(s[0], SplitOnSpace(s[1..]));
      assert s == [s[0]] + s[1..];
    }
  }

  /** Splitting space-free segments joined with spaces gives the segments back. */
  lemma {:induction false} SplitJoin(parts: seq<string>)
    requires parts != []
    requires forall k :: 0 <= k < |parts| ==> ' ' !in parts[k]
    ensures SplitOnSpace(JoinWithSpace(parts)) == parts
    decreases |JoinWithSpace(parts)|
  {
    var p := parts[0];
    if p != [] {
      var shorter := [p[1..]] + parts[1..];
      assert forall k :: 0 <= k < |shorter| ==> ' ' !in shorter[k] by {
        assert forall c :: c in p[1..] ==> c in p;
        assert forall k :: 1 <= k < |shorter| ==> shorter[k] == parts[k];
      }
      assert p[0] in p;
      assert PushChar(p[0], shorter) == parts by {
        assert [p[0]] + p[1..] == p;
        assert shorter[1..] == parts[1..];
      }
      JoinPushChar(p[0], shorter);
      SplitJoin(shorter);
    } else if |parts| > 1 {
      assert PushChar(' ', parts[1..]) == parts;
      JoinPushChar(' ', parts[1..]);
      SplitJoin(parts[1..]);
    }
  }

  /** The segments that are not empty. */
  function NonEmptySegments(parts: seq<string>): (r: seq<string>)
    ensures |r| <= |parts|
    ensures forall k :: 0 <= k < |r| ==> r[k] != "" && r[k] in parts
    ensures forall p :: p in r <==> p in parts && p != ""
  {
    if parts == [] then []
    else
      assert parts == [parts[0]] + parts[1..];
      (if parts[0] != "" then [parts[0]] else []) + NonEmptySegments(parts[1..])
  }

  /** Dropping the empty segments of two runs of segments one after the other keeps both runs' order. */
  lemma {:induction false} NonEmptySegmentsConcat(a: seq<string>, b: seq<string>)
    ensures NonEmptySegments(a + b) == NonEmptySegments(a) + NonEmptySegments(b)
  {
    if a != [] {
      NonEmptySegmentsConcat(a[1..], b);
      var head: seq<string> := if a[0] != "" then [a[0]] else [];
      assert (a + b)[0] == a[0] && (a + b)[1..] == a[1..] + b;
      assert NonEmptySegments(a + b) == head + NonEmptySegments(a[1..] + b);
      assert NonEmptySegments(a) == head + NonEmptySegments(a[1..]);
    } else {
      assert a + b == b;
    }
  }

  /** The first character of every segment; `""[0]` is undefined and joins as nothing. */
  function FirstChars(parts: seq<string>): (r: string)
    ensures |r| == |NonEmptySegments(parts)|
    ensures forall k :: 0 <= k < |r| ==> r[k] == NonEmptySegments(parts)[k][0]
  {
    if parts == [] then ""
    else
      var rest := FirstChars(parts[1..]);
      if parts[0] == "" then rest
      else
        assert NonEmptySegments(parts) == [parts[0]] + NonEmptySegments(parts[1..]);
        [parts[0][0]] + rest
  }

  /** The avatar text: the first letters of the name's segments, upper-cased. */
  function Initials(name: string): string
  {
    Upper(FirstChars(SplitOnSpace(name)))
  }

  /**
    The initials hold one upper-cased first character per non-empty segment of
    the name, so there are at most as many as spaces plus one.
   */
  lemma InitialsSpec(name: string)
    ensures var segments := NonEmptySegments(SplitOnSpace(name));
            && |Initials(name)| == |segments| <= multiset(name)[' '] + 1
            && forall k :: 0 <= k < |segments| ==> Initials(name)[k] == UpperChar(segments[k][0])
  {
  }

  // ---------------------------------------------------------------------------
  // Delete confirmation

  /** The id handed to the delete callback, if the user confirmed. */
  method HandleDelete(id: int, confirmed: bool) returns (deleteRequest: Option<int>)
    ensures deleteRequest.Some? <==> confirmed
    ensures deleteRequest.Some? ==> deleteRequest.value == id
  {
    if !confirmed {
      return None;
    }
    deleteRequest := Some(id);
  }

}
