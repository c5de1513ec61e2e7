# Quick-Notes: notes page reordering and note validation in Dafny

Quick-Notes is a small note-taking web application. This project models two
parts of it:

- **The notes page** (`frontend/src/pages/NotesPage/NotesPage.jsx`). It holds
  the notes of the current page and lets the user drag one note onto another.
  The dragged note is taken out of the list and put back at the index the
  target note had, but only when both notes are on the page, they are
  different, and they share the same `pinned` flag. The page also renders its
  list as a pinned group and an "others" group. It clamps the Prev/Next page
  buttons, refuses to create or save a note whose title is blank after
  trimming, and keeps `page` and `q` in the URL.
- **The note schema** (`backend/models/note.js`). A title is required,
  trimmed, and at most 80 long. A body is optional, trimmed, and at most 250
  long.

Modules:

- `Wrappers`: `Option` and `Result`.
- `JsString`: the JavaScript built-ins the code relies on. These are
  `String.prototype.trim` (with the exact ECMAScript whitespace set),
  string `length` in UTF-16 code units, `parseInt(s, 10)` and `String(n)`.
- `NoteSchema`: the schema as a validator. It trims the fields first, then
  collects every failing path.
- `Reorder`: the `Note` value, `findIndex`, the two splices of a drop, the
  drop guards, and the pinned/others filters.
- `PageRules`: the page clamps, the create/save guard, and the URL parameter
  rules.
- `NotesPage`: the component as class `Component`. It has one field per
  `useState` value and one method per handler. `HandleDrop` runs the guards,
  then splices a copy of the list, as the source does. A request to the
  server becomes a parameter holding its outcome.

The schema (`backend/models/note.js:4-13`) defines only `title` and `body`,
with no `pinned` field or sort key, and `noteService.js` exports no
`reorderPair` or `pin`. The model follows the code: it models the client-side
splice only.

## Model

| member | source | states |
|---|---|---|
| `JsString.Trim` | backend/models/note.js:9 | the result of `trim` has no whitespace at either end and is no longer than the input |
| `JsString.TrimSplits` | backend/models/note.js:9 | the input is whitespace, then the trimmed text, then whitespace: trimming removes nothing else |
| `JsString.TrimUnique` | backend/models/note.js:9 | for any whitespace runs `a`, `b` and trimmed `m`, `trim(a + m + b) == m` (an independent characterisation) |
| `JsString.TrimIdempotent` | backend/models/note.js:9-12 | trimming twice is trimming once |
| `JsString.TrimOfTrimmed` | backend/models/note.js:9-12 | a trimmed string is left unchanged by `trim` |
| `JsString.TrimEmptyIff` | frontend/src/pages/NotesPage/NotesPage.jsx:72 | `trim(s)` is empty exactly when `s` is all whitespace |
| `JsString.Utf16Length` | backend/models/note.js:10 | JavaScript `length` counts UTF-16 units: at least the number of code points and at most twice it |
| `JsString.TrimShortens` | backend/models/note.js:10-12 | trimming never makes a string longer |
| `JsString.ParseInt` | frontend/src/pages/NotesPage/NotesPage.jsx:31 | `parseInt(s, 10)` is NaN exactly when no digit follows the leading whitespace and sign |
| `JsString.ParseIntReads` | frontend/src/pages/NotesPage/NotesPage.jsx:31 | for any whitespace `w`, sign `''`, `'+'` or `'-'`, non-empty digits `d` and a rest not starting with a digit, `parseInt(w + sign + d + rest, 10)` is the value of `d`, negated exactly for `'-'` |
| `JsString.DecimalString` | frontend/src/pages/NotesPage/NotesPage.jsx:40 | `String(n)` is a non-empty run of digits without a leading zero |
| `JsString.ParseDecimal` | frontend/src/pages/NotesPage/NotesPage.jsx:31-40 | `parseInt(String(n), 10) == n` for every non-negative `n` |
| `NoteSchema.ValidNote` | backend/models/note.js:6-12 | a stored note's title and body are left unchanged by `trim`, and its title has at most 80 characters |
| `NoteSchema.CastTrimmed` | backend/models/note.js:9-12 | the trim setter keeps presence, and yields a trimmed value no longer than the input |
| `NoteSchema.Validate` | backend/models/note.js:4-17 | a note is rejected exactly when some validator fails, and the rejection names exactly the failing paths (`Errors`, explained by `ErrorsExplained`); an accepted note is a `ValidNote` whose title and body are the trimmed inputs |
| `NoteSchema.ErrorsExplained` | backend/models/note.js:6-12 | `required` fails exactly for a missing or all-whitespace title; each `maxLength` fails exactly for a present value longer than its limit after trimming |
| `NoteSchema.ValidateAcceptsExactly` | backend/models/note.js:4-13 | a note is accepted exactly when it has a title and its trimmed fields form a valid stored note |
| `NoteSchema.BlankTitleRejected` | backend/models/note.js:8-9 | a title that is empty after trimming is rejected with `TitleRequired`, whatever the body |
| `NoteSchema.TitleLengthBound` | backend/models/note.js:10 | a trimmed title longer than 80 is rejected; a non-blank one of 80 or fewer is accepted and stored trimmed |
| `NoteSchema.BodyRules` | backend/models/note.js:12 | with a valid title, no body is accepted; a body is accepted exactly when its trimmed length is at most 250, and it is stored trimmed |
| `NoteSchema.RevalidateStored` | backend/models/note.js:4-13 | validating a stored note again stores the very same note |
| `NoteSchema.CastStoredUnchanged` | backend/models/note.js:9-12 | the trim setters leave the fields of a valid stored note unchanged |
| `Reorder.FindIndex` | frontend/src/pages/NotesPage/NotesPage.jsx:145-146 | `findIndex` gives -1 exactly when no note has the id, and otherwise the first index holding it |
| `Reorder.RemoveAt` | frontend/src/pages/NotesPage/NotesPage.jsx:151 | `splice(i, 1)` shortens the list by one |
| `Reorder.InsertAt` | frontend/src/pages/NotesPage/NotesPage.jsx:152 | `splice(i, 0, x)` lengthens the list by one |
| `Reorder.Move` | frontend/src/pages/NotesPage/NotesPage.jsx:151-152 | the two splices keep the list length |
| `Reorder.MoveAt` | frontend/src/pages/NotesPage/NotesPage.jsx:151-152 | where every element ends up: the moved one at `to`, the ones between `from` and `to` shifted by one towards `from`, the rest in place |
| `Reorder.MovePermutes` | frontend/src/pages/NotesPage/NotesPage.jsx:144-152 | the move is a permutation (same multiset) |
| `Reorder.MoveKeepsOthersInOrder` | frontend/src/pages/NotesPage/NotesPage.jsx:151-152 | the moved element lands at `to`, and removing it leaves the other elements in their old order |
| `Reorder.MoveUndone` | frontend/src/pages/NotesPage/NotesPage.jsx:151-152 | moving back from `to` to `from` restores the list |
| `Reorder.Falsy` | frontend/src/pages/NotesPage/NotesPage.jsx:142 | `!draggedNoteId` is false exactly for a present, non-empty id |
| `Reorder.PlanDrop` | frontend/src/pages/NotesPage/NotesPage.jsx:142-149 | a planned drop names two distinct in-range indices, holding the dragged id and the target id, of notes with the same `pinned` flag |
| `Reorder.Drop` | frontend/src/pages/NotesPage/NotesPage.jsx:139-153 | the list after a drop has the same length |
| `Reorder.DropGuards` | frontend/src/pages/NotesPage/NotesPage.jsx:142-147 | a drop is skipped as "nothing dragged" exactly when the dragged id is falsy, as "onto itself" exactly when the ids are equal, and as "not on page" exactly when either id is missing from the list; a skipped drop leaves the list unchanged |
| `Reorder.AcrossGroupsRejected` | frontend/src/pages/NotesPage/NotesPage.jsx:149 | with unique ids, a drop between two present notes is refused exactly when their `pinned` flags differ; otherwise it moves from the dragged note's index to the target's index |
| `Reorder.DropPermutes` | frontend/src/pages/NotesPage/NotesPage.jsx:144-152 | every drop leaves a permutation of the page list |
| `Reorder.DropLandsOnTarget` | frontend/src/pages/NotesPage/NotesPage.jsx:145-152 | after a drop the dragged note sits at the target's old index, and the other notes keep their relative order |
| `Reorder.DropStaysInGroup` | frontend/src/pages/NotesPage/NotesPage.jsx:149-152 | a drop leaves the group the dragged note is not in exactly as it was |
| `Reorder.DropKeepsGroupLayout` | frontend/src/pages/NotesPage/NotesPage.jsx:149-152 | on a list with the pinned notes first, every position keeps its `pinned` flag, so the list stays grouped |
| `Reorder.Group` | frontend/src/pages/NotesPage/NotesPage.jsx:268-269 | a filtered group is no longer than the list |
| `Reorder.PinnedNotes` | frontend/src/pages/NotesPage/NotesPage.jsx:268 | the pinned group holds exactly the pinned notes of the list, each as many times as in the list |
| `Reorder.OtherNotes` | frontend/src/pages/NotesPage/NotesPage.jsx:269 | the other group holds exactly the unpinned notes of the list, each as many times as in the list |
| `Reorder.GroupCounts` | frontend/src/pages/NotesPage/NotesPage.jsx:268-269 | a group holds exactly the notes with its flag, each as many times as the list does |
| `Reorder.GroupConcat` | frontend/src/pages/NotesPage/NotesPage.jsx:268-269 | filtering distributes over concatenation, so each group keeps list order |
| `Reorder.PartitionSplits` | frontend/src/pages/NotesPage/NotesPage.jsx:268-269 | the pinned and other groups add up to the list, in length and as multisets |
| `Reorder.GroupedIsPartition` | frontend/src/pages/NotesPage/NotesPage.jsx:267-278 | a list has its pinned notes first exactly when it equals its pinned group followed by its other group |
| `PageRules.PrevEnabled` | frontend/src/pages/NotesPage/NotesPage.jsx:284 | on a page of 1 or more, Prev is disabled exactly where its click would leave the page unchanged |
| `PageRules.NextEnabled` | frontend/src/pages/NotesPage/NotesPage.jsx:291 | on a page up to `totalPages`, Next is disabled exactly where its click would leave the page unchanged |
| `PageRules.PrevPage` | frontend/src/pages/NotesPage/NotesPage.jsx:285 | `Math.max(1, prev - 1)` is at least 1 and never above a page of 1 or more |
| `PageRules.NextPage` | frontend/src/pages/NotesPage/NotesPage.jsx:292 | `Math.min(totalPages, prev + 1)` is never above `totalPages` and never more than one page on |
| `PageRules.PageStepsStayInRange` | frontend/src/pages/NotesPage/NotesPage.jsx:283-295 | from a page in `1..totalPages` an enabled button moves exactly one page and stays in range; Prev is disabled exactly on page 1, Next exactly on the last page |
| `PageRules.PrevNextInverse` | frontend/src/pages/NotesPage/NotesPage.jsx:284-292 | where enabled, Next undoes Prev and Prev undoes Next |
| `PageRules.SubmitPayload` | frontend/src/pages/NotesPage/NotesPage.jsx:72-74 | nothing is sent exactly when the title is all whitespace; otherwise the payload is exactly the user's title and body, each trimmed, and the title is non-empty |
| `PageRules.GuardMatchesSchema` | frontend/src/pages/NotesPage/NotesPage.jsx:106 | the form refuses a title exactly when the schema's `required` rule would |
| `PageRules.PayloadStoredAsSent` | frontend/src/pages/NotesPage/NotesPage.jsx:72-74 | a payload the create form sends, within the length limits, passes create-time validation and is stored exactly as sent |
| `PageRules.Get` | frontend/src/pages/NotesPage/NotesPage.jsx:31-32 | `URLSearchParams.get` finds a value exactly when some pair has the name, and the value it gives is that of the first such pair |
| `PageRules.WrittenParams` | frontend/src/pages/NotesPage/NotesPage.jsx:39-41 | `page` is written exactly when the page is above 1, and then as `String(currentPage)`; `q` is written exactly when the query is not blank, and then it is trimmed; no other name is written, and no name twice |
| `PageRules.AcceptedPage` | frontend/src/pages/NotesPage/NotesPage.jsx:31-33 | a page is taken from the URL exactly when a `page` parameter is present and `parseInt` of its first value is a number above 1, and then it is that number; the default `'1'` is never taken |
| `PageRules.AcceptedPageReads` | frontend/src/pages/NotesPage/NotesPage.jsx:31-33 | a typed `page` value of whitespace, optional sign, digits and a non-digit rest is taken exactly when the sign is not `'-'` and the digits are above 1, and then it is their value |
| `PageRules.AcceptedQuery` | frontend/src/pages/NotesPage/NotesPage.jsx:32-34 | a query is taken from the URL exactly when a `q` parameter is present and its first value is not all whitespace, and then it is that value untrimmed |
| `PageRules.InitialPage` | frontend/src/pages/NotesPage/NotesPage.jsx:31-33 | the starting page is at least 1, and is either 1 or the number `parseInt` reads from the first `page` value |
| `PageRules.InitialQuery` | frontend/src/pages/NotesPage/NotesPage.jsx:32-34 | the starting query is empty, or the first `q` value when that is not all whitespace |
| `PageRules.UrlRoundTrip` | frontend/src/pages/NotesPage/NotesPage.jsx:29-44 | reading back the URL the page wrote restores the page, and the query trimmed |
| `PageRules.UrlPageRoundTrip` | frontend/src/pages/NotesPage/NotesPage.jsx:31-40 | the page half of the round trip |
| `PageRules.UrlQueryRoundTrip` | frontend/src/pages/NotesPage/NotesPage.jsx:32-41 | the query half of the round trip |
| `NotesPage.Component.constructor` | frontend/src/pages/NotesPage/NotesPage.jsx:5-36 | the initial state, with page and query taken from the URL; the page is at least 1 |
| `NotesPage.Component.QueryParams` | frontend/src/pages/NotesPage/NotesPage.jsx:38-44 | the URL written for the current state reads back as the current page and the trimmed query |
| `NotesPage.Component.LoadNotes` | frontend/src/pages/NotesPage/NotesPage.jsx:46-63 | a listing replaces the notes and counts and clears the error; a failure only sets the error |
| `NotesPage.Component.HandleCreateSubmit` | frontend/src/pages/NotesPage/NotesPage.jsx:70-82 | sends `SubmitPayload` of the form; a blank title changes nothing; on success the form is cleared, the page goes back to 1 and the list is reloaded; a failure sets the error |
| `NotesPage.Component.HandleDelete` | frontend/src/pages/NotesPage/NotesPage.jsx:84-93 | the remove request is sent for `noteId` exactly when confirmed, and for no note otherwise; then it reloads; a failure sets the error |
| `NotesPage.Component.BeginEditing` | frontend/src/pages/NotesPage/NotesPage.jsx:95-99 | edits the note's title, and its body or the empty string |
| `NotesPage.Component.CancelEditing` | frontend/src/pages/NotesPage/NotesPage.jsx:100-104 | clears the editing state |
| `NotesPage.Component.SaveEditing` | frontend/src/pages/NotesPage/NotesPage.jsx:105-117 | sends `SubmitPayload` of the edit fields, as an update of `noteId`, and no request for a blank title; a blank title changes nothing; on success it reloads and ends editing; a failure sets the error |
| `NotesPage.Component.HandleDragStart` | frontend/src/pages/NotesPage/NotesPage.jsx:128-131 | records the dragged note |
| `NotesPage.Component.HandleDrop` | frontend/src/pages/NotesPage/NotesPage.jsx:139-154 | the new page list is `Drop` of the old one; the dragged id is cleared only when the drop was carried out |
| `NotesPage.Component.OnSearchChange` | frontend/src/pages/NotesPage/NotesPage.jsx:250 | a new query resets the page to 1 |
| `NotesPage.Component.Prev` | frontend/src/pages/NotesPage/NotesPage.jsx:283-288 | while enabled it goes one page back, otherwise nothing changes; the page stays at least 1 |
| `NotesPage.Component.Next` | frontend/src/pages/NotesPage/NotesPage.jsx:290-295 | while enabled it goes one page on without passing `totalPages`, otherwise nothing changes; the page stays at least 1 |

## Left out

- The server call after a drop, and the reload when it fails (`NotesPage.jsx:156-160`), are not modelled. `noteService.js` defines no `reorderPair`, so as written the call at `NotesPage.jsx:157` would throw a `TypeError` on every drop that passes the guards, and the `catch` would reload the server's order over the spliced list. `HandleDrop` models the splice the page intends.
- `Note.pinned` is a `bool`. The schema has no `pinned` field, so as written every note the server sends has `pinned` undefined; the model reads that as `false`. The cross-group guard (`NotesPage.jsx:149`) then never fires, and every note renders under "Others". A `bool` also cannot tell `false` from `undefined`, which `!==` does.
- `togglePinned` (`NotesPage.jsx:119-126`) is not modelled. It calls `noteService.pin`, which `noteService.js` does not define. No modelled operation changes a note's `pinned` flag.
- Rendering, JSX, `useMemo`, the `isLoading` flag, `itemsPerPage`, the drag-over CSS classes and `dataTransfer` are UI only. So are `toLocaleString` dates and `window.history.replaceState`.
- Effect timing is not modelled. The list reloads when `currentPage` or `searchQuery` change. `handleCreateSubmit` reloads with the page number its closure captured. The model's handlers reload once, with the response they are given.
- `window.confirm` becomes the `confirmed` parameter of `HandleDelete`. The result of each request becomes a parameter.
- The backend list handler returns a plain array, but `loadNotes` reads `data`, `pages` and `total`. `LoadNotes` takes a `Listing` as given. As written, `notesOnPage` would become `undefined` and reading `visibleNotes.length` (`NotesPage.jsx:265`) would throw.
- The query string is modelled as a list of name/value pairs. Percent-encoding and `params.toString()` are not modelled.
- `JsString.ParseInt` and `JsString.DecimalString` use exact integers. JavaScript numbers are doubles: values above 2^53 lose precision, a value too large becomes `Infinity` (which `Number.isFinite` then rejects), and `String(n)` switches to exponent form from 10^21.
- `JsString.Utf16Length` counts UTF-16 units of Unicode scalar values. Lone surrogates cannot occur in a Dafny string.
- The schema's timestamps, its casting of non-string values to strings, and the update-validator behaviour of `findByIdAndUpdate` (`backend/controllers/notes.js`) are not modelled. Neither are the controllers, routes, server startup or seeding.
- The form inputs' `maxLength` attributes are not modelled. The title limit of 80 agrees with the schema, but the body textareas allow 2000 (`NotesPage.jsx:190`, `:241`) where the schema allows 250.
