# User manager: a Dafny model

This project models the state behind the single-page user-management form of
`src/App.js`: an ordered list of user records (first name, last name, email,
department), a modal-open flag, the form's draft record, an optional editing
index, and the copy of the list persisted in browser local storage under the
key `"users"`.

- `wrappers.dfy` — module `Wrappers`: the `Option` type used for the editing index.
- `users.dfy` — module `Users`: the record datatype and the values the handlers
  build: the one-field object spread, the blank draft, append, replace at an
  index, and the index filter that deletes. Lemmas state what each means on
  sequences.
- `app.dfy` — module `App`: class `UserManager`, one method per handler plus the
  two effects. Each React setter is an immediate field assignment. The
  write-through effect is the explicit method `Persist`, called at the end of
  every method that sets the list. `Valid()` is the write-through invariant:
  whenever the list is non-empty, storage holds exactly that list. Every method
  keeps it.
- `scenarios.dfy` — module `Scenarios`: sessions that start from a fresh mount and
  go through the handlers. Each one states the state it ends in.

Local storage is the field `storage` of type `Slot`: `Absent` (the key was never
written), `Saved(list)`, or `Malformed` (text that is not JSON). The stored text
and its serialisation are not modelled.

Two behaviours of `src/App.js` shape the model:

- Malformed stored text makes `JSON.parse` throw at `src/App.js:24`, and nothing
  catches it. `Load` reports `ok == false` and changes nothing.
- A stored empty list is truthy, so the load effect adopts it.

## Model

| member | source | states |
|---|---|---|
| `Users.User.With` | src/App.js:50-53 | the named field takes the typed value; each of the other three fields keeps its value |
| `Users.Blank` | src/App.js:40 | the add form's draft has the empty string in every field |
| `Users.SameFields` | src/App.js:9-14 | a record is determined by its four fields |
| `Users.WithOwnValue` | src/App.js:52 | setting a field to its current value leaves the record equal to what it was |
| `Users.Appended` | src/App.js:65 | the spread-append is one longer, has the old list as its prefix and the draft as its last element |
| `Users.ReplacedAt` | src/App.js:60-61 | the copy-and-assign keeps the length, puts the draft at the index and leaves every other position unchanged |
| `Users.ReplacedAtOwn` | src/App.js:60-61 | writing back the record already at a position yields the same list |
| `Users.WithoutIndex` | src/App.js:79 | the index filter drops exactly one record when the index is in range, and none otherwise |
| `Users.WithoutIndexSplices` | src/App.js:79 | for a valid index, the filter's result is the list before the index followed by the list after it |
| `Users.WithoutIndexMisses` | src/App.js:79 | for an index outside the list, including a negative one, the filter returns the list unchanged |
| `Users.WithoutIndexShifts` | src/App.js:79 | after a delete, positions before the index keep their records and later records move down by one |
| `Users.AppendEachInOrder` | src/App.js:63-66 | N appends from the add form leave the old list followed by the N drafts in insertion order, with length grown by N |
| `App.UserManager.constructor` | src/App.js:6-20 | the initial state: empty list, modal closed, blank draft, no editing index, storage as found |
| `App.UserManager.Persist` | src/App.js:31-35 | a non-empty list is written to storage; an empty list leaves storage as it was; the write-through invariant holds afterwards |
| `App.UserManager.Load` | src/App.js:23-28 | a stored list becomes the list; an absent key leaves the list unchanged; malformed text fails with nothing changed; storage, modal, draft and cursor are unchanged |
| `App.UserManager.OpenForAdd` | src/App.js:38-42 | modal open, blank draft, no editing index; list and storage unchanged |
| `App.UserManager.Close` | src/App.js:45-47 | the modal is closed, and its frame leaves the draft, cursor, list and storage as they were |
| `App.UserManager.UpdateField` | src/App.js:50-53 | the draft becomes the old draft with only the named field set; the other fields, the list, cursor, modal flag and storage are unchanged |
| `App.UserManager.Submit` | src/App.js:56-68 | with no editing index the draft is appended; with index i the draft replaces position i; storage then holds the new list; the modal is closed; draft and cursor are kept |
| `App.UserManager.OpenForEdit` | src/App.js:71-75 | for an index in range, the draft is the record there, the cursor is that index and the modal is open; list and storage unchanged |
| `App.UserManager.Delete` | src/App.js:78-81 | the list becomes the index filter of the old list; if that is empty, storage keeps its previous value; modal, draft and cursor unchanged |
| `Scenarios.FreshSession` | src/App.js:23-28 | loading with nothing stored succeeds and leaves an empty list |
| `Scenarios.MalformedStorage` | src/App.js:24 | loading malformed text fails and leaves the list empty |
| `Scenarios.ReturningSession` | src/App.js:23-35 | loading a stored list restores it exactly and storage still holds it |
| `Scenarios.CreateOne` | src/App.js:38-67 | starting empty and adding one record through the form yields a one-record list, and storage holds exactly that list |
| `Scenarios.DeleteFirstOfTwo` | src/App.js:78-81 | deleting row 0 of `[a, b]` leaves `[b]`, which is also stored |
| `Scenarios.DeleteOnlyRecord` | src/App.js:31-35 | deleting the only record empties the list, and storage keeps the stale one-record copy |
| `Scenarios.EditEmail` | src/App.js:50-75 | edit row 0, change the email, save: the email is new, the other three fields are as before, and the list is stored |
| `Scenarios.EditWithoutChange` | src/App.js:56-75 | opening any row for editing and saving with no change leaves the list, and the stored copy, equal to what was loaded |
| `Scenarios.RetypeWithoutChange` | src/App.js:50-75 | opening a row, typing a field's current value back in and saving leaves the list and the stored copy as loaded |
| `Scenarios.CreateMany` | src/App.js:38-67 | adding N records through the form from an empty start gives exactly those N records in insertion order, stored when N > 0 |

## Left out

- Rendering: the table, its 1-based row numbers, the empty-state row, the modal
  markup and the stylesheet import. These are presentation only.
- React hook semantics: update batching, effect scheduling, dependency tracking
  and the functional-updater form of the append. Each setter is modelled as an
  immediate assignment and each effect as an explicit call. That `Load` runs only
  once, at mount, is left to the caller.
- `JSON.parse`, `JSON.stringify` and `localStorage` are foreign calls. Storage is
  the abstract `Slot`, with no text round trip. Stored JSON that parses to
  something other than a list of records (such as `null`, `0` or an object) is
  not modelled.
- `App.UserManager.Load`: after a parse failure, the component would be torn down
  by the uncaught exception. The model only reports `ok == false` and keeps the
  state unchanged.
- `App.UserManager.Submit` requires the editing index to be inside the list.
  The index goes stale when a row is deleted while an edit is pending. If it
  equals the list's length, `src/App.js:61` appends the draft; if it is past
  the length, JavaScript grows the array with holes. Neither case is modelled.
  A stale index that stays inside the list is modelled: Submit then overwrites
  the record that moved into that position.
- `App.UserManager.UpdateField` takes one of the four form fields. Any other
  `name` on the event target would add a fifth key to the draft. The form's
  inputs carry only the four names.
- `App.UserManager.OpenForEdit` requires an index inside the list. The table
  only offers the indices of rendered rows.
- Browser-side validation (`required`, `type="email"`) and `preventDefault` on
  submit belong to the browser and the DOM.
