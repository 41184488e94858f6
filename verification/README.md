# Admin dashboard table: a Dafny model

This project models the state logic of a small React admin console. The console shows a
list of user records in a table that can be searched, paginated, edited and multi-selected.
The model covers two parts.

- **The table state** (`src/App.js`). The state is the canonical user list, the search term,
  the current page and the selected ids. The filtered list, the ten-row page slice and the page
  count are derived from that state. The model describes the state after the page-reset effect
  has settled: whenever the user list or the search term changes, the filtered list is
  recomputed and the page returns to 1. The operations are typing a search term, the
  pagination buttons, toggling a row, select-all, bulk delete, editing a row and deleting a
  row.
- **The table component** (`src/components/UserTable.js`). It holds the row-edit state
  machine (`Viewing`, or `Editing` one row with a draft). It also defines the input values
  shown while a row is being edited, the row checkbox and highlight, and the header "all
  selected" checkbox.

Everything is written as pure functions over immutable sequences and maps:

| file | module | contents |
|---|---|---|
| `seqs.dfy` | `Seqs` | `filter`, `map` and `slice` (with JavaScript's negative-index rule, stated by `Seqs.ClampIndex`), plus subsequence and no-duplicate facts |
| `text.dfy` | `Text` | ASCII `toLowerCase`, `includes`, decimal `toString` of an id |
| `users.dfy` | `Users` | user records, the search filter, the field-merging edit, single and bulk delete |
| `pagination.dfy` | `Pagination` | page count, page slice, navigation-button predicates |
| `selection.dfy` | `Selection` | row toggle, select-all, the length-based "all selected" test |
| `app.dfy` | `AdminTable` | the table state, its event handlers and invariants |
| `user_table.dfy` | `UserTable` | the row-edit state machine and row/header rendering |
| `dashboard.dfy` | `Dashboard` | the two together: a save in the component applied to the table state |

A record is `User(id, fields)`. The id is an integer and every other field is a string under
its field name. The field map is taken not to hold an `"id"` key of its own. The search matches the id's decimal text as well as every field value, as
`Object.values(user)` does. Because every record has an id, the empty term matches every
record.

Points where the code behaves differently from what its controls suggest; the model follows the code:

- Select-all and the header checkbox compare the *number* of selected ids with the number of
  rows on the page (`src/App.js:93-94`, `src/components/UserTable.js:46`). They do not check
  which ids are selected. `Selection.LengthIsNotMembership` gives a selection that counts as
  complete although none of the page's ids is in it. `Selection.LengthMatchesMembership`
  gives the conditions under which the two tests agree.
- Clicking select-all twice does not in general restore the earlier selection. On a
  non-empty page, two clicks end with the page fully selected or with nothing selected
  (`Selection.SelectAllTwice`).
- The `draft || row` fallback affects only the value shown in an input. Save hands up the
  draft exactly as held, so a field cleared to `""` is stored as `""`
  (`UserTable.ClearedFieldShowsOldValueButSavesEmpty`, `Dashboard.ClearedFieldIsStoredEmpty`).
- The selection is a list (`selectedRows` is an array), not a set. It is not pruned when
  rows are deleted or filtered out, and a new search term does not clear it.
- Edit, delete and bulk delete always build a new array. That re-runs the filter effect, so
  the page returns to 1 even when no user matched the id. Setting the search term to its
  current value does not re-run the effect (React skips an unchanged state), so the page
  stays. The search box only reports changed values.

## Model

| member | source | states |
|---|---|---|
| Users.SearchableValues | src/App.js:45-46 | the searched texts are the id's decimal text and every field value, and nothing else |
| Users.Matches | src/App.js:45-46 | a user matches exactly when the lowercased term occurs at some position of the lowercased id text or of some field's lowercased value |
| Users.FilterUsers | src/App.js:44-48 | the filtered list holds exactly the users with some value (id or field) containing the term case-insensitively, and is a subsequence of the list, so original order is kept |
| Users.FilterEmptyTerm | src/App.js:44-48 | the empty term returns the user list unchanged, same elements in the same order |
| Users.FilterUsersCount | src/App.js:44-48 | a matching user occurs in the filtered list exactly as often as in the full list; a non-matching one not at all |
| Users.FilterUsersAppend | src/App.js:44-48 | filtering a concatenation is the concatenation of the filtered parts, so kept users keep their relative order |
| Users.FilterCaseInsensitive | src/App.js:46 | a term and its lowercase form select the same users |
| Text.ContainsIffOccurs | src/App.js:46 | the scanning `includes` holds exactly when the term occurs at some position of the value |
| Seqs.ClampIndex | src/App.js:40 | a `slice` index is clamped into 0..n; a negative index counts back from the end, and one further back than the length becomes 0 |
| Seqs.Slice | src/App.js:40 | `slice` returns at most end - start elements, nothing when the clamped start is not before the clamped end, and otherwise exactly the elements between the clamped bounds |
| Pagination.TotalPages | src/App.js:34-36 | the page count is the ceiling of rows / 10: the fewest ten-row pages that hold all rows |
| Pagination.PageSlice | src/App.js:38-40 | a page holds at most 10 rows; page p >= 1 holds rows (p-1)*10 up to p*10, cut at the end of the list |
| Pagination.ConcatPagesPrefix | src/App.js:38-40 | pages 1 to k together are exactly the first k*10 rows |
| Pagination.PagesReassemble | src/App.js:34-40 | pages 1 to totalPages concatenated reproduce the filtered list: no row missing, repeated or moved |
| Pagination.PagesInRangeAreNonEmpty | src/App.js:36-40 | a page from 1 on has rows exactly when it is at most totalPages |
| Pagination.FirstPrevDisabled | src/App.js:136-147 | from page 1 on, first/previous are disabled exactly when stepping back would leave page 1 |
| Pagination.NextLastDisabled | src/App.js:157-168 | from page 1 on, next/last are disabled exactly when no later page exists |
| Pagination.NavButtons | src/App.js:136-168 | from page 1 on, next/last are enabled exactly when a later page exists; on page 1 of an empty list every button is disabled |
| Selection.ToggleRow | src/App.js:57-64 | toggling flips whether the id is selected, leaves every other id's membership alone and adds no duplicate |
| Selection.ToggleRowTwice | src/App.js:57-64 | toggling twice restores the same set of ids, and the very same list when the id was not selected |
| Selection.AllSelected | src/App.js:93-94 | the select-all test holds on a non-empty page exactly when the selection has as many ids as the page has rows, never on an empty page |
| Selection.SelectAll | src/App.js:92-102 | select-all yields either nothing or exactly the page's ids; on a non-empty page it clears exactly when the length test holds; no duplicates when the page has none |
| Selection.SelectAllFlipsHeader | src/App.js:92-102 | on a non-empty page, select-all flips the "all selected" test |
| Selection.SelectAllTwice | src/App.js:92-102 | two clicks on a non-empty page end with the page's ids if the first click cleared, with nothing otherwise |
| Selection.LengthIsNotMembership | src/App.js:93-94 | a selection can count as complete while none of the page's ids is selected |
| Selection.LengthMatchesMembership | src/App.js:93-94 | when the selection holds only page ids and neither list repeats, the length test is equivalent to "every page id is selected" |
| Users.Merge | src/App.js:79 | the spread merge keeps the id, takes the patch's value for every patched field and keeps every other field |
| Users.EditRow | src/App.js:77-80 | editing keeps the length and the ids, merges the patch into rows with the id and leaves every other row unchanged |
| Users.EditAbsentIsNoop | src/App.js:77-80 | editing an id not in the list leaves the list unchanged |
| Users.EditSingleField | src/App.js:77-80 | a one-field patch changes exactly that field of the edited row |
| Users.EditWithOwnFieldsIsNoop | src/App.js:77-80 | with unique ids, saving a row's own data back leaves the list unchanged |
| Users.DeleteRow | src/App.js:86-87 | deleting removes exactly the rows with the id and keeps all others in order, each as many times as it occurred |
| Users.DeleteAbsentIsNoop | src/App.js:86-87 | deleting an id not in the list leaves the list unchanged |
| Users.RemoveSelected | src/App.js:67-70 | bulk delete keeps exactly the users whose id is not selected, in order and each as many times as it occurred, and leaves no selected id |
| Users.SubseqUniqueIds | src/App.js:67-90 | a sublist of a list with unique ids has unique ids |
| AdminTable.Filtered | src/App.js:43-49 | the filtered list holds exactly the users of the list that match the term, in list order |
| AdminTable.CurrentUsers | src/App.js:34-40 | the page shows at most ten matching users: rows (page-1)*10 up to page*10 of the filtered list |
| AdminTable.PageCount | src/App.js:34-36 | the page count is the fewest ten-row pages that hold the filtered list |
| AdminTable.Loaded | src/App.js:26-29 | once the fetch delivers the users, the user list is exactly them, the term is empty, the filtered list is the whole list, page 1, nothing selected |
| AdminTable.OnSearch | src/App.js:43-51 | a new term resets the page to 1 and keeps the users and the selection; the same term changes nothing |
| AdminTable.OnPageChange | src/App.js:54 | a page change sets the page as given, unchecked, and touches nothing else |
| AdminTable.OnRowSelect | src/App.js:57-64 | a row click flips that id's selection only; users, term and page stay |
| AdminTable.OnSelectAll | src/App.js:92-102 | the selection becomes empty or exactly the current page's ids, and on a non-empty page the header flips |
| AdminTable.OnBulkDelete | src/App.js:67-74 | no selected id survives, every unselected user stays in order with its multiplicity, the selection is empty and the page is 1 |
| AdminTable.OnEditRow | src/App.js:77-83 | the patch is merged into rows with the id, all else kept, and the page returns to 1 |
| AdminTable.OnDeleteRow | src/App.js:86-90 | rows with the id are removed, others kept in order with their multiplicity, the page returns to 1 and the selection is not pruned |
| AdminTable.Navigate | src/App.js:136-168 | first goes to page 1, previous one page back, a numbered button to its page, next one page on and last to the page count; first/previous on page 1, next/last at the end and a button for a page that does not exist change nothing |
| AdminTable.NavigateKeepsPageInRange | src/App.js:136-168 | the pagination controls keep the page at 1 or within 1..totalPages |
| AdminTable.Apply | src/App.js:43-102 | paging and selecting leave the users and the term alone, the search leaves the users and the selection alone, and edit, delete and bulk delete keep the term and return to page 1 |
| AdminTable.ApplyResetsPage | src/App.js:43-51 | any event that changes the user list or the term leaves the page at 1 |
| AdminTable.ApplyKeepsPageInRange | src/App.js:43-54 | no event takes the page outside 1 or 1..totalPages |
| AdminTable.ApplyKeepsUniqueIds | src/App.js:67-90 | no event makes two users share an id |
| AdminTable.PageIdsUnique | src/App.js:99-100 | with unique user ids, the ids select-all copies from the page are unique |
| AdminTable.ApplyKeepsSelectionNoDup | src/App.js:57-102 | with unique user ids, no event puts an id into the selection twice |
| AdminTable.CurrentPageShowsRows | src/App.js:38-40 | while some user matches, the current page shows at least one row |
| AdminTable.TwelveUsersScenario | src/App.js:34-40 | with ids 1 to 12, page 1 shows 1..10, next moves to page 2 showing 11 and 12, where next is disabled |
| AdminTable.AdminSearchScenario | src/App.js:43-48 | the term "admin" keeps a user with role "Admin" and drops one with no such value |
| UserTable.EditClick | src/components/UserTable.js:19-22 | edit-click makes the clicked row the only one being edited, its full data the draft, replacing any other draft |
| UserTable.FieldChange | src/components/UserTable.js:35-37 | a field change sets that draft field and leaves the row and all other draft fields as they were |
| UserTable.Save | src/components/UserTable.js:24-28 | save hands up the row id and the draft exactly as held and returns to viewing |
| UserTable.Cancel | src/components/UserTable.js:30-33 | cancel returns to viewing and hands up nothing |
| UserTable.InputValue | src/components/UserTable.js:76-113 | an input shows the draft field when it is non-empty and the row's own value otherwise |
| UserTable.RenderRow | src/components/UserTable.js:58-113 | a row is checked and highlighted exactly when its id is selected, and in edit mode exactly when it is the edited row |
| UserTable.HeaderChecked | src/components/UserTable.js:44-47 | the header is checked exactly when there are as many selected ids as page rows and the page is non-empty |
| UserTable.HeaderMatchesRowChecks | src/components/UserTable.js:46 | with the selection inside the page and no repeats, the header is checked exactly when every row is checked |
| UserTable.AtMostOneRowEditing | src/components/UserTable.js:76 | among rows with distinct ids, at most one is in edit mode |
| UserTable.EditClickThenSave | src/components/UserTable.js:19-28 | editing a row and saving it unchanged hands up the row's own data |
| UserTable.EditThenCancel | src/components/UserTable.js:19-37 | editing, typing and cancelling ends in viewing |
| UserTable.ClearedFieldShowsOldValueButSavesEmpty | src/components/UserTable.js:19-37 | a cleared field still shows the old value in its input, but save hands up "" for it |
| Dashboard.SaveRow | src/components/UserTable.js:24-28 | a save applies the draft to the table state as the edit handler and returns to viewing |
| Dashboard.CancelRow | src/components/UserTable.js:30-33 | a cancel leaves the table state untouched |
| Dashboard.SaveUnchangedKeepsUsers | src/App.js:77-83 | with unique ids, opening a row and saving it unchanged leaves the user list as it was |
| Dashboard.ClearedFieldIsStoredEmpty | src/components/UserTable.js:24-28 | a field cleared in the editor is stored as "" and nothing else in the list changes |
| Dashboard.CancelKeepsTable | src/components/UserTable.js:30-33 | whatever was typed, cancelling leaves the table state untouched |

## Left out

- The `fetch` of the user list and its `console.error` on failure (`src/App.js:20-31`) are
  network I/O. The loaded list is a parameter of `AdminTable.Loaded`. A failed fetch leaves
  the initial empty state. A search term typed before the list arrives is not modelled: the
  loaded state starts with the empty term.
- The transient `setFilteredUsers(updatedUsers)` calls in the edit and delete handlers are
  not modelled. The filter effect replaces them in the render that follows, and only that
  settled state is modelled.
- JSX markup, CSS, icons, React rendering and the batching and scheduling of hook updates
  are left out. Each event is modelled as one step between settled states.
- The "X out of Y rows selected" and "Page X of Y" texts are display only.
- Text.Lower: lowercases the ASCII letters only. JavaScript's `toLowerCase` also folds the
  rest of Unicode.
- Text.IntToDecimal: gives plain decimal notation for every id. JavaScript switches to
  exponent notation from 1e21 on, and ids are small integers.
- `value.toString()` on arbitrary JavaScript values is not modelled. Every non-id field is a
  string. A missing field renders as empty text.
- The component's `editedData` also holds the row's `id`, which always equals the edited
  row's id. In the model, the draft and the emitted patch carry only the other fields.
  Merging the id back would change nothing.
- Save, and typing in an input, while no row is being edited are left out. The component
  offers neither control then, so both are modelled as no-ops.
