# Employee directory frontend, modelled in Dafny

This project models the client-side logic of an employee directory: a React
single-page app that lists employees, searches them by name or email,
filters them by role, pages through them ten at a time, sorts the table by a
column, and adds, edits and deletes employees through a small form.

The model has these modules:

- `Types`: the records the frontend shares.
  - An `Employee` holds an id, a name, an email and one of five roles.
  - A `Draft` is the editable part of an employee. Its position is the raw select value, so it is a string.
  - `PaginationInfo` is the page metadata.
  - `NAME_MIN`/`NAME_MAX` are the name-length bounds.
- `Text`: the JavaScript string operations the app relies on.
  - Case mapping is restricted to ASCII letters.
  - `String.prototype.includes` is proved equal to "occurs at some position".
  - `IsJsWhitespace` is the set of characters `\s` matches in an ECMAScript regular expression (ECMA-262, sections 12.2 and 12.3).
- `EmailPattern`: the form's email pattern `^[^\s@]+@[^\s@]+\.[^\s@]+$`, in two versions.
  - `MatchesPattern` reads the pattern structurally, as a decomposition into three runs.
  - `IsValidEmail` is a character-counting test.
  - The two are proved to accept exactly the same strings.
- `Validation`: `validateEmployee`, the ordered required-field check.
- `ListView`: the `useEmployees` hook.
  - Pure parts:
    - the filter;
    - the page metadata;
    - the visible page, including JavaScript's `Array.prototype.slice` index rules;
    - the page clamp after a delete.
  - The class `EmployeeDirectory` holds the hook's state and changes it through the hook's commands:
    - loading, creating, editing and deleting;
    - search and role-filter changes;
    - page navigation.
- `PageNumbers`: the pager.
  - `GetPageNumbers` builds the list of page buttons with `-1` for an ellipsis, pushing onto a list in loops as the component does. It is proved equal to the specification function `PageWindow`, whose shape is proved in separate lemmas.
  - `SummaryOf` is the "Showing ..." line.
- `EmployeeTable`: the table.
  - The sort state (class `SortState`) and the row comparator.
  - A sort of the rows, proved to be a sorted, stable permutation.
  - The header icons.
  - The avatar initials: the name is split on spaces, and the first character of each non-empty segment is kept, concatenated and upper-cased. The split is pinned down by proving that joining its segments back with spaces gives the name, and that splitting space-free segments joined with spaces gives the segments.
  - The delete-confirmation gate.
- `EmployeeForm`: the add/edit dialog (class `FormState`). It covers the initial draft, edits to a field, `validateForm` (which fills the error map step by step) and `handleSubmit`.

Network calls are not modelled. Their outcomes are parameters of the commands:

- `written`/`deleted` say whether the server accepted the write.
- A `Fetch` is the list that the following reload returned, or a failed reload.

The `confirm()` answer in front of a delete is likewise a boolean parameter. So is the completion of the form's submit callback.

Behaviour worth knowing, modelled as written:

- After a delete, the page is clamped against the full list minus the deleted id, not against the filtered list (`useEmployees.ts:128-132`). With a search or role filter active, the page can therefore end up beyond the filtered page count, and the visible page is then empty. For this reason `EmployeeDirectory.Valid()` only keeps the page at 1 or above. Page-in-range is proved preserved by navigation, not by every command.
- The message for an over-long name says "less than 50 characters", but a name of exactly 50 characters is accepted (`EmployeeForm.tsx:49-51`).

## Model

| member | source | states |
|---|---|---|
| Types.RoleName | employee-frontend/src/utils/constants.ts:10-16 | every role has a non-empty display name |
| Types.RoleNameInjective | employee-frontend/src/utils/constants.ts:10-16 | two roles have the same display name exactly when they are the same role |
| Text.Lower | employee-frontend/src/hooks/useEmployees.ts:47-48 | lower-casing keeps the length and maps each character, upper-case ASCII letters to their lower-case counterparts and everything else to itself |
| Text.Upper | employee-frontend/src/components/Employee/EmployeeTable/EmployeeTable.tsx:134 | upper-casing keeps the length and maps each lower-case ASCII letter to upper case, leaving other characters alone |
| Text.Includes | employee-frontend/src/hooks/useEmployees.ts:47-48 | `includes`: the substring fits and either starts the string or occurs in its tail; `IncludesIffOccurs` states what it means |
| Text.IncludesIffOccurs | employee-frontend/src/hooks/useEmployees.ts:47-48 | `includes` holds exactly when the substring occurs at some position of the string |
| Text.IncludesEmpty | employee-frontend/src/hooks/useEmployees.ts:47-48 | the empty string is included in every string |
| EmailPattern.IndexOf | employee-frontend/src/utils/constants.ts:29 | the index found holds the character and no earlier position does |
| EmailPattern.IsValidEmail | employee-frontend/src/components/Employee/EmployeeForm/EmployeeForm.tsx:52 | the email test `validateForm` applies: no whitespace, exactly one '@', something before it, and a '.' after it that is neither the first nor the last character of the domain; `ValidIffPattern` proves it equal to the pattern |
| EmailPattern.PatternImpliesValid | employee-frontend/src/utils/constants.ts:29 | a string that splits into local part, '@', host, '.', and top-level part, each a non-empty run without whitespace or '@', passes the email test |
| EmailPattern.ValidImpliesPattern | employee-frontend/src/utils/constants.ts:29 | a string that passes the email test splits into such three runs, at the '@' and at a '.' after it |
| EmailPattern.ValidIffPattern | employee-frontend/src/utils/constants.ts:29 | the email test accepts exactly the strings the anchored pattern matches: one '@', no whitespace, a non-empty local part, and a '.' inside the domain that is neither its first nor its last character |
| Validation.ValidateEmployee | employee-frontend/src/utils/validation.ts:3-10 | the first empty field in the order name, email, position is reported with its own message; no report exactly when all three are filled |
| Validation.RolePositionNeverMissing | employee-frontend/src/utils/validation.ts:8 | a draft whose position is a role name never gets the position report |
| ListView.Filter | employee-frontend/src/hooks/useEmployees.ts:43-55 | the filtered list is no longer than the full list; which employees it keeps, how often and in what order is stated by the three lemmas that follow |
| ListView.FilterMembership | employee-frontend/src/hooks/useEmployees.ts:44-54 | an employee is in the filtered list exactly when it is in the full list, the term is empty or occurs case-insensitively in its name or email, and the role filter is empty or equals its role |
| ListView.FilterCount | employee-frontend/src/hooks/useEmployees.ts:44-54 | each matching employee occurs in the filtered list as often as in the full list, and a non-matching one not at all |
| ListView.FilterIsSelection | employee-frontend/src/hooks/useEmployees.ts:44 | the filtered list is the full list read at strictly increasing positions, and those positions are exactly the positions of the matching employees |
| ListView.TotalPages | employee-frontend/src/hooks/useEmployees.ts:62 | the page count is zero only for no items and otherwise is the least count whose pages of ten hold every item |
| ListView.PaginationOf | employee-frontend/src/hooks/useEmployees.ts:58-74 | no metadata exactly when the filtered list is empty; otherwise the rounded-up page count, `hasNext` exactly when the page is below it, `hasPrev` exactly when the page is above 1, limit 10 |
| ListView.ResolveIndex | employee-frontend/src/hooks/useEmployees.ts:80 | a slice index resolves within the length, and a non-negative one is clamped to the length |
| ListView.Slice | employee-frontend/src/hooks/useEmployees.ts:80 | a slice is never longer than the list; its contents for the page arithmetic are stated by `PageSlice` |
| ListView.PageSlice | employee-frontend/src/hooks/useEmployees.ts:77-81 | the visible page holds at most ten employees: the filtered ones from position `(page - 1) * 10`, in order; it is empty beyond the last page |
| ListView.PageSliceBetween | employee-frontend/src/hooks/useEmployees.ts:77-81 | page k is exactly the filtered employees between the end of page k - 1 and the end of page k |
| ListView.PagesUpToPrefix | employee-frontend/src/hooks/useEmployees.ts:77-81 | the first k pages together are exactly the first `10 * k` filtered employees, or all of them |
| ListView.PagesCoverFiltered | employee-frontend/src/hooks/useEmployees.ts:77-81 | read one after another, the pages show every filtered employee exactly once and in order |
| ListView.WithoutId | employee-frontend/src/hooks/useEmployees.ts:128 | the remaining list holds exactly the employees of the full list with another id, each as often as in the full list, so its length is the count the clamp reads |
| ListView.ClampAfterDelete | employee-frontend/src/hooks/useEmployees.ts:129-132 | the page moves back to the last remaining page when it lies beyond it and some page remains, and is otherwise kept; it never increases, stays at 1 or above, and is within the remaining page count when employees remain |
| ListView.EmployeeDirectory.constructor | employee-frontend/src/hooks/useEmployees.ts:12-21 | the hook starts with no employees, not loading, no error, page 1, and empty search term, debounced term and role filter |
| ListView.EmployeeDirectory.FilteredEmployees | employee-frontend/src/hooks/useEmployees.ts:43-55 | the hook's filtered list: an employee is in it exactly when it is in the full list and matches the debounced term and the role filter |
| ListView.EmployeeDirectory.Pagination | employee-frontend/src/hooks/useEmployees.ts:58-74 | the hook's page metadata: none exactly when nothing matches; otherwise the current page, the filtered count and its rounded-up page count |
| ListView.EmployeeDirectory.Employees | employee-frontend/src/hooks/useEmployees.ts:77-81 | the hook's visible page: at most ten consecutive filtered employees from position `(currentPage - 1) * 10`, non-empty exactly when the current page is one of the filtered list's pages |
| ListView.EmployeeDirectory.LoadEmployees | employee-frontend/src/hooks/useEmployees.ts:28-40 | a successful fetch replaces the list and clears the error; a failed one keeps the list and records the load message; loading ends false |
| ListView.EmployeeDirectory.CreateEmployee | employee-frontend/src/hooks/useEmployees.ts:83-96 | a refused write keeps the list and records the add message; an accepted one reloads the list, with the load message if the reload fails; loading ends false |
| ListView.EmployeeDirectory.EditEmployee | employee-frontend/src/hooks/useEmployees.ts:98-114 | a refused write keeps the list and records the update message; an accepted one reloads the list, with the load message if the reload fails; loading ends false |
| ListView.EmployeeDirectory.RemoveEmployee | employee-frontend/src/hooks/useEmployees.ts:116-141 | a refused delete keeps the list and the page and records the delete message; an accepted one clamps the page against the full list without that id and then reloads; loading ends false |
| ListView.EmployeeDirectory.HandleSearchChange | employee-frontend/src/hooks/useEmployees.ts:144-147 | the typed term is stored and the page returns to 1 |
| ListView.EmployeeDirectory.DebounceSettled | employee-frontend/src/hooks/useEmployees.ts:20-21 | once the delay has passed, the filter's term is the typed term |
| ListView.EmployeeDirectory.HandlePositionFilterChange | employee-frontend/src/hooks/useEmployees.ts:150-153 | the role filter is stored and the page returns to 1 |
| ListView.EmployeeDirectory.GoToPage | employee-frontend/src/hooks/useEmployees.ts:155-159 | the page changes to the requested one exactly when there is metadata and the request lies in 1 .. totalPages; otherwise nothing changes; a page in range stays in range |
| ListView.EmployeeDirectory.NextPage | employee-frontend/src/hooks/useEmployees.ts:161-165 | the page advances by one exactly when `hasNext`; a page in range stays in range; on the last page nothing changes |
| ListView.EmployeeDirectory.PrevPage | employee-frontend/src/hooks/useEmployees.ts:167-171 | the page goes back by one exactly when `hasPrev`; a page in range stays in range; on page 1 nothing changes |
| PageNumbers.Range | employee-frontend/src/components/common/Pagination/Pagination.tsx:24 | the run `lo .. hi` has `hi - lo + 1` entries (none when `lo > hi`) and its k-th entry is `lo + k` |
| PageNumbers.PushPages | employee-frontend/src/components/common/Pagination/Pagination.tsx:30 | the push loop appends exactly the pages `lo .. hi` |
| PageNumbers.GetPageNumbers | employee-frontend/src/components/common/Pagination/Pagination.tsx:20-35 | the button list built by pushing equals the page window: all pages when there are at most five, otherwise 1, an optional ellipsis, the block around the current page, an optional ellipsis, and the last page |
| PageNumbers.PageWindow | employee-frontend/src/components/common/Pagination/Pagination.tsx:20-35 | the button list as a value: every page up to five pages, otherwise 1, an ellipsis if the block starts after 2, the block `max(2, cur - 1) .. min(totalPages - 1, cur + 1)`, an ellipsis if it ends before totalPages - 1, and totalPages; its shape is stated by the lemmas below |
| PageNumbers.PageWindowSmall | employee-frontend/src/components/common/Pagination/Pagination.tsx:23-24 | with at most five pages the list is exactly 1, 2, ..., totalPages |
| PageNumbers.PageWindowLarge | employee-frontend/src/components/common/Pagination/Pagination.tsx:25-33 | with more than five pages the list has 3 to 7 entries, starts at 1, ends at totalPages, and the pages it shows are exactly 1, totalPages and the block `max(2, cur - 1) .. min(totalPages - 1, cur + 1)` |
| PageNumbers.PageWindowEllipses | employee-frontend/src/components/common/Pagination/Pagination.tsx:29-31 | for a current page within the page count, the leading ellipsis appears exactly when the block starts after 2, and the trailing one exactly when it ends before totalPages - 1 |
| PageNumbers.PageWindowLargeShape | employee-frontend/src/components/common/Pagination/Pagination.tsx:25-33 | with more than five pages every entry is an ellipsis or a page in 1 .. totalPages and the pages strictly increase |
| PageNumbers.PageWindowWellFormed | employee-frontend/src/components/common/Pagination/Pagination.tsx:20-35 | for any current page: the entries are ellipses or pages in 1 .. totalPages, the pages strictly increase, there are at most seven entries, and a current page within the count is listed |
| PageNumbers.SummaryOf | employee-frontend/src/components/common/Pagination/Pagination.tsx:37-49 | a single page shows only the count, singular exactly when it is 1; otherwise "Showing first to last of total" with first `(cur - 1) * limit + 1` and last `min(cur * limit, total)` |
| PageNumbers.SummaryRangeBounds | employee-frontend/src/components/common/Pagination/Pagination.tsx:49 | for a non-empty list and a page within the count, `1 <= first <= last <= total` |
| EmployeeTable.SortState.constructor | employee-frontend/src/components/Employee/EmployeeTable/EmployeeTable.tsx:28-29 | the table starts unsorted, ascending |
| EmployeeTable.SortState.HandleSort | employee-frontend/src/components/Employee/EmployeeTable/EmployeeTable.tsx:41-48 | a click on the active column flips the direction; on another column it becomes the active column, ascending |
| EmployeeTable.StringCompare | employee-frontend/src/components/Employee/EmployeeTable/EmployeeTable.tsx:58-59 | the string order answers -1, 0 or 1, and 0 exactly for equal strings |
| EmployeeTable.StringCompareAntisymmetric | employee-frontend/src/components/Employee/EmployeeTable/EmployeeTable.tsx:58-59 | swapping the strings negates the order |
| EmployeeTable.Compare | employee-frontend/src/components/Employee/EmployeeTable/EmployeeTable.tsx:50-67 | no column compares every pair equal; by id, negative exactly when the ids are in the direction's order and zero exactly for equal ids; by a text column, zero exactly for equal texts |
| EmployeeTable.CompareDescIsSwappedAsc | employee-frontend/src/components/Employee/EmployeeTable/EmployeeTable.tsx:56-63 | the descending comparator is the ascending one with the rows swapped |
| EmployeeTable.CompareAntisymmetric | employee-frontend/src/components/Employee/EmployeeTable/EmployeeTable.tsx:50-67 | swapping the rows negates the comparison |
| EmployeeTable.SortEmployees | employee-frontend/src/components/Employee/EmployeeTable/EmployeeTable.tsx:50-67 | the sorted copy is a permutation of the rows with no neighbours out of comparator order; it is stable: for every row, the rows with the same key appear in their input order, so with no sort column the copy is the rows in their original order |
| EmployeeTable.Insert | employee-frontend/src/components/Employee/EmployeeTable/EmployeeTable.tsx:50 | inserting a row into sorted rows adds exactly that row, keeps them sorted, places it after every row with the same key, and appends it when there is no sort column |
| EmployeeTable.CompareZeroIffSameKey | employee-frontend/src/components/Employee/EmployeeTable/EmployeeTable.tsx:50-67 | in either direction the comparator answers 0 exactly for rows with the same value in the sort column, and for every pair without a column |
| EmployeeTable.PeersConcat | employee-frontend/src/components/Employee/EmployeeTable/EmployeeTable.tsx:50 | the same-key rows of two lists one after the other are those of the first list followed by those of the second |
| EmployeeTable.PeersNone | employee-frontend/src/components/Employee/EmployeeTable/EmployeeTable.tsx:50 | a list without a row of the same key as y has no same-key rows of y |
| EmployeeTable.InsertKeepsPeers | employee-frontend/src/components/Employee/EmployeeTable/EmployeeTable.tsx:50 | putting x in front of rows that all compare greater than it adds x at the end of its own key's rows and changes no other key's rows |
| EmployeeTable.InsertKeepsSorted | employee-frontend/src/components/Employee/EmployeeTable/EmployeeTable.tsx:50 | a row placed after rows not greater than it and before rows greater than it leaves the rows sorted |
| EmployeeTable.SortedByIdOrdersIds | employee-frontend/src/components/Employee/EmployeeTable/EmployeeTable.tsx:62-63 | rows sorted by id have non-decreasing ids ascending and non-increasing ids descending |
| EmployeeTable.SortIcon | employee-frontend/src/components/Employee/EmployeeTable/EmployeeTable.tsx:69-72 | an inactive column shows the up-down arrow; the active one shows the up arrow ascending and the down arrow descending |
| EmployeeTable.PushChar | employee-frontend/src/components/Employee/EmployeeTable/EmployeeTable.tsx:131 | one step of the split: a leading space adds one segment and any other character adds none; a character other than a space keeps every segment free of spaces |
| EmployeeTable.SplitOnSpace | employee-frontend/src/components/Employee/EmployeeTable/EmployeeTable.tsx:131 | a name splits into one more segment than it has spaces, none containing a space |
| EmployeeTable.JoinPushChar | employee-frontend/src/components/Employee/EmployeeTable/EmployeeTable.tsx:131 | joining the segments of `[c] + t` gives `c` followed by the joined segments of `t` |
| EmployeeTable.JoinSplit | employee-frontend/src/components/Employee/EmployeeTable/EmployeeTable.tsx:131 | joining the segments back with spaces gives the name again |
| EmployeeTable.SplitJoin | employee-frontend/src/components/Employee/EmployeeTable/EmployeeTable.tsx:131 | splitting space-free segments joined with spaces gives the segments back |
| EmployeeTable.NonEmptySegments | employee-frontend/src/components/Employee/EmployeeTable/EmployeeTable.tsx:132 | a segment is kept exactly when it is a non-empty segment of the name; no more are kept than there are segments |
| EmployeeTable.FirstChars | employee-frontend/src/components/Employee/EmployeeTable/EmployeeTable.tsx:132-133 | one character per non-empty segment, its first; an empty segment contributes nothing |
| EmployeeTable.NonEmptySegmentsConcat | employee-frontend/src/components/Employee/EmployeeTable/EmployeeTable.tsx:132-133 | dropping the empty segments of two runs of segments one after the other keeps both runs, in order |
| EmployeeTable.Initials | employee-frontend/src/components/Employee/EmployeeTable/EmployeeTable.tsx:130-134 | the avatar text: the upper-cased first characters of the name's non-empty space-separated segments, concatenated; stated by `InitialsSpec` |
| EmployeeTable.InitialsSpec | employee-frontend/src/components/Employee/EmployeeTable/EmployeeTable.tsx:130-134 | the initials are the upper-cased first characters of the non-empty segments, so there are at most as many as spaces plus one |
| EmployeeTable.HandleDelete | employee-frontend/src/components/Employee/EmployeeTable/EmployeeTable.tsx:31-38 | the delete callback receives the row's id exactly when the user confirmed |
| EmployeeForm.DraftOf | employee-frontend/src/components/Employee/EmployeeForm/EmployeeForm.tsx:23-27 | an edited employee's draft copies exactly its name, email and role name |
| EmployeeForm.SetField | employee-frontend/src/components/Employee/EmployeeForm/EmployeeForm.tsx:35 | the named input takes the new value |
| EmployeeForm.SetFieldOnlyThatField | employee-frontend/src/components/Employee/EmployeeForm/EmployeeForm.tsx:35 | setting one input leaves the other two as they were |
| EmployeeForm.FormErrors | employee-frontend/src/components/Employee/EmployeeForm/EmployeeForm.tsx:43-55 | a name message exactly when the length is outside 3 .. 50 (the too-short or too-long text accordingly), an email message exactly when the email fails the pattern, never a position message, and no message at all exactly when the draft is accepted |
| EmployeeForm.AcceptedPassesRequiredCheck | employee-frontend/src/utils/validation.ts:6-9 | a draft the form accepts is never reported for a missing name or email; only an empty position can still be reported |
| EmployeeForm.FormState.constructor | employee-frontend/src/components/Employee/EmployeeForm/EmployeeForm.tsx:13-29 | a new form starts from name "", email "", position "Developer", or from a copy of the edited employee, with no errors and not submitting |
| EmployeeForm.FormState.InitialDataChanged | employee-frontend/src/components/Employee/EmployeeForm/EmployeeForm.tsx:21-29 | a new employee to edit is copied into the draft; no employee leaves the draft as it was |
| EmployeeForm.FormState.HandleChange | employee-frontend/src/components/Employee/EmployeeForm/EmployeeForm.tsx:31-41 | only the named input changes; only that input's error is blanked, and the other errors and the set of keys stay as they were |
| EmployeeForm.FormState.ValidateForm | employee-frontend/src/components/Employee/EmployeeForm/EmployeeForm.tsx:43-58 | the errors become exactly those of the current draft, and the answer is true exactly when the name length is in 3 .. 50 and the email passes |
| EmployeeForm.FormState.HandleSubmit | employee-frontend/src/components/Employee/EmployeeForm/EmployeeForm.tsx:60-77 | a draft that fails validation is not handed on; an accepted draft is handed on unchanged; the dialog closes and, when adding, the draft resets to the empty form only after the callback completes; submitting ends false |

## Left out

- The HTTP client and the backend (Express routes, SQLite, id assignment, the unique-email constraint) are not part of this model. Each write's outcome and the list a reload returns are parameters.
- The debounce timer behind `debouncedSearchTerm` is not part of this model. `DebounceSettled` is the moment the delay passes with no newer keystroke.
- Overlapping asynchronous commands are not modelled. Each command runs to completion, so `loading` under overlap and an `error` read before an `await` finishes have no counterpart.
- Rendering, notifications and the components that only forward values are not modelled, beyond the summary line and the header icons.
- Text.Lower, Text.Upper: map only ASCII letters. JavaScript's full Unicode case mapping, which can change a string's length, is not modelled.
- Lengths are counted in characters (code points), not UTF-16 code units. The two differ only for characters outside the Basic Multilingual Plane.
- EmployeeTable.StringCompare: a code-point lexicographic order stands in for `localeCompare`, whose collation depends on locale data. Only equality and antisymmetry are relied upon.
- The engine's sort algorithm is not part of the source. ECMAScript requires `Array.prototype.sort` to be stable, and a stable insertion sort stands in for it.
- The `confirm()` dialog's answer is a boolean parameter.
- EmployeeForm.FormState.HandleSubmit: whether the submit callback completes or throws is a parameter. The error it logs is not modelled.
- `console.log`/`console.error` output is not modelled.
