# Student list page — state model

This project models the client-side logic of a single-page React app that
lists, searches, adds, edits and deletes "student" records (id, name,
address, marks) held by a remote REST collection. Everything the page does
happens in one component, `src/App.jsx`; its `useState` hooks become the
immutable `App.AppState` (list, search term, modal flag, modal type, draft,
snackbar), and each event handler becomes a pure function from state to
state.

The remote service is not modelled. A handler that talks to it returns a
`Step`: the state it leaves and the request it sent (`GetAll`, `Post`, `Put`,
`Delete`, or none). How the request settled is a parameter,
`Outcome<T> = Resolved(body) | Rejected`. One outcome is applied per step.

Modules, following the structure of the component:

- `Wrappers`: `Option`, for JavaScript's `null`/`undefined`.
- `Arrays`: `Array.prototype.filter` and `map` on sequences. It also gives an
  independent account of `filter`: the subsequence read off at a strictly
  increasing list of positions (`Picks`, `IsSubsequence`, `Positions`).
- `Strings`: `toLowerCase` (ASCII letters only) and `includes`. `includes` is
  proved equal to "occurs at some position" (`Occurs`).
- `Records`: the student row, the draft object edited in the modal, JS
  truthiness, the shallow merge `{...draft, [name]: value}`, and the add
  form's presence check.
- `Snackbar`: the notification banner and its show/close rules.
- `StudentList`: the three list patches made after a successful remote call:
  append, replace-by-id and remove-by-id.
- `App`: the page state, every handler, `filteredStudents`, and the
  properties that relate them.

Some behaviours of the code differ from what a reader might expect. The
model follows the code:

- Opening the add form leaves the draft `null` (`src/App.jsx:167`). It does
  not start from an empty draft.
- Closing the modal keeps `modalType`. So "closed" means `openModal` is false
  and the draft is null; it does not mean the type is reset.
- A successful edit puts the server's response into every row with the
  draft's id. It does not write the draft's own values.
- A successful delete removes every row with the draft's id. The list
  shrinks by exactly one only when ids are unique and the id is listed.
- The search matches name and address only. The marks clause is commented
  out in the code.
- The banner closes on every reason except a click-away, including the
  alert's own close button, which passes no reason.

## Model

| member | source | states |
|---|---|---|
| `App.Load` | src/App.jsx:49-58 | The initial fetch sends a GET. On success the response body becomes the list and the banner is untouched. On failure the list stays and an error banner reads "Error fetching students data". The modal and search term never change. |
| `App.Search` | src/App.jsx:60-62 | Typing in the search box sets the search term and changes nothing else. |
| `Strings.Includes` | src/App.jsx:155-156 | `includes` holds exactly when the needle occurs as a contiguous block at some position of the haystack. |
| `App.FilteredStudents` | src/App.jsx:153-158 | The shown rows are an order-preserving subsequence of the list. Every shown row has a lower-cased name or address containing the lower-cased term. Every list entry that satisfies this is shown. |
| `App.FilteredIsExact` | src/App.jsx:153-158 | The shown rows are read off the list at exactly the positions whose student matches, in increasing order. |
| `App.EmptySearchShowsAll` | src/App.jsx:153-158 | With an empty search term the table shows the whole list, unchanged and in order. |
| `App.SearchIgnoresCase` | src/App.jsx:153-158 | Two search terms that lower-case to the same string show the same rows. |
| `App.SearchLowerCased` | src/App.jsx:153-158 | A search term shows the same rows as its lower-cased form. |
| `App.SearchExample` | src/App.jsx:153-158 | Take a list holding only "Ann" at address "X". Searching "ann" shows her; searching "zzz" shows nobody. |
| `App.OpenModal` | src/App.jsx:64-68 | Opening sets the flag and the modal type. The clicked row becomes the draft, with all its keys and values; with no row (the add button) the draft is null. The list, search term and banner are untouched. |
| `Records.DraftOf` | src/App.jsx:64-68 | A row used as the draft keeps its id, name, address and marks. |
| `App.DeleteStudent` | src/App.jsx:112-114 | The delete icon opens the confirm-delete modal, with the row itself as the draft. It deletes nothing yet: the list, search term and banner are untouched. |
| `App.CloseModal` | src/App.jsx:70-73 | Closing clears the flag and the draft and keeps the modal type. The list, search term and banner are untouched. |
| `App.OpenThenClose` | src/App.jsx:64-73 | Opening and then closing leaves the state as before, except that the modal type is now the one opened. |
| `Records.Merge` | src/App.jsx:75-78 | The shallow merge sets the named key to the typed text. The other keys and the id keep their values. Merging into a null draft yields a draft holding only that key. |
| `App.InputChange` | src/App.jsx:75-78 | A field change sets only that field of the draft and changes nothing else in the state. |
| `App.InputChangesCommute` | src/App.jsx:75-78 | Edits to two different fields give the same draft in either order. |
| `App.InputChangeLastWins` | src/App.jsx:75-78 | Two edits to the same field leave only the second value. |
| `StudentList.ReplaceById` | src/App.jsx:84-86 | The replace keeps the list length. Each row with the matching id becomes the response; every other row is untouched. |
| `StudentList.ReplaceIdempotent` | src/App.jsx:84-86 | Applying the same replace twice gives the same list as applying it once. |
| `StudentList.ReplaceKeepsUnique` | src/App.jsx:84-86 | Replacing rows with a record that carries the matched id keeps ids unique. |
| `App.EditStudent` | src/App.jsx:80-94 | Save sends a PUT of the draft to the draft's id. On success the list is replaced-by-id with the response, the modal closes and a success banner shows. On failure the list and modal are unchanged and an error banner shows. With a null draft it sends nothing and changes nothing. |
| `StudentList.RemoveById` | src/App.jsx:101 | The result is an order-preserving subsequence of the list. No remaining row has the id, and every row without the id appears in it. |
| `StudentList.RemoveIsExact` | src/App.jsx:101 | The result is read off the list at exactly the positions whose row lacks the id, in increasing order. So every row without the id is kept, duplicates included, in order, and nothing else is. |
| `StudentList.RemoveAbsent` | src/App.jsx:101 | Removing an id that no row carries leaves the list unchanged. |
| `StudentList.RemoveListedShortensByOne` | src/App.jsx:101 | If ids are unique and the id is listed, removal shortens the list by exactly one. |
| `StudentList.RemoveIdempotent` | src/App.jsx:101 | Removing the same id twice is the same as removing it once. |
| `StudentList.RemoveKeepsUnique` | src/App.jsx:101 | Removing rows keeps ids unique. |
| `App.ConfirmDeleteStudent` | src/App.jsx:97-109 | Confirm sends a DELETE for the draft's id. On success every row with that id is removed, the modal closes and a success banner shows. On failure the list and modal are unchanged and an error banner shows. With a null draft it sends nothing and changes nothing. |
| `App.DeleteRemovesOneRow` | src/App.jsx:97-109 | If ids are unique and the draft's id is listed, a successful delete removes exactly one row and leaves none with that id. |
| `StudentList.Append` | src/App.jsx:126 | The new list is the old one with the response added once, at the end. |
| `StudentList.AppendKeepsUnique` | src/App.jsx:126 | Appending a record whose id is new keeps ids unique. |
| `StudentList.AppendThenRemove` | src/App.jsx:126 | Removing the id of a freshly appended record gives back the original list. |
| `Records.CompleteMeansFilled` | src/App.jsx:118 | The add form's presence check passes exactly when a draft exists and each of name, address and marks is present, not the empty string and not the number zero. |
| `App.AddStudent` | src/App.jsx:116-134 | A null draft, or one with a falsy name, address or marks, sends nothing. It shows the warning "Please fill in all fields" and leaves the list and modal as they were. A complete draft is sent as a POST. On success the response is appended, the modal closes and a success banner shows. On failure the list and modal are unchanged and an error banner shows. |
| `App.AddEmptyNameExample` | src/App.jsx:118-121 | Take a draft with an empty name, address "Y" and marks 50. Adding only raises the warning banner; nothing is sent and nothing else changes. |
| `App.AddedRowShownIffMatches` | src/App.jsx:153-158 | After a successful add, the table shows the rows it showed before. The new record is added at the end exactly when it matches the search term. |
| `App.AddThenDeleteRestores` | src/App.jsx:97-134 | Add a record whose id is new, open the delete confirmation for it, and confirm successfully: the list is back to what it was. |
| `App.MutationsKeepIdsUnique` | src/App.jsx:80-134 | Unique row ids stay unique through three steps: a successful add of a new id, an edit answered with the edited id, and any successful delete. |
| `Snackbar.Show` | src/App.jsx:137-143 | Showing opens the banner with exactly the given message and level. |
| `Snackbar.Close` | src/App.jsx:146-151 | A click-away leaves the banner unchanged. Any other reason closes it and keeps its message and level. |
| `Snackbar.CloseIdempotent` | src/App.jsx:146-151 | Closing twice for the same reason is the same as closing once. |
| `Snackbar.ShowThenClose` | src/App.jsx:137-151 | A banner just shown stays open after a close exactly when the reason is a click-away. Either way it keeps its message and level. |
| `App.ShowSnackbar` | src/App.jsx:137-143 | Showing a banner changes only the banner. |
| `App.SnackbarClose` | src/App.jsx:146-151 | Closing the banner follows `Snackbar.Close` and changes nothing else in the state. |

## Left out

- HTTP calls (axios) and the remote service. Each is replaced by the
  request the handler reports and an `Outcome` parameter.
- Asynchronous completion order, and races between requests still in
  flight. Each step applies one outcome to the state current at that
  moment. So the model does not show a stale `currentStudent` or
  `snackbar` captured by a callback.
- JSX rendering, MUI components, styling, and the row numbers `index + 1`.
  These are presentation only.
- The banner's 3000 ms auto-hide timer. Only the close it triggers (reason
  `Timeout`) is modelled.
- `console.error` logging.
- `Strings.ToLower`: lower-cases only the ASCII letters 'A'..'Z'. Full
  Unicode `toLowerCase` is a large table that the logic does not depend on.
- `Records.Value`: a JavaScript number is modelled as an `int`. Fractional
  and NaN marks are not represented.
- `Records.Student`: holds only id, name, address and marks. Other keys the
  service may add are dropped. Name and address are always strings, so the
  TypeError that `toLowerCase` would throw on a missing name is not
  modelled.
- `App.EditStudent`, `App.ConfirmDeleteStudent`: with a null draft,
  JavaScript throws at `currentStudent.id` before anything is sent. The
  model gives no request and an unchanged state. The UI cannot reach this,
  because the buttons exist only while a modal with a row is open.
