# Person CRUD: backend store and frontend form, modelled in Dafny

The application keeps "person" records (id, name, e-mail) in one MySQL table
behind a small REST API, and edits them through a React form. This project
models the two parts of it whose behaviour can be stated precisely:

- **The backend routes** (`person_api.dfy`, module `PersonApi`). The
  `persons` table is a `Store`: a map from integer id to `Person(name, email)`
  plus the `AUTO_INCREMENT` counter. Get, create, update and delete are pure
  functions. Create, update and delete return the new store together with a
  `Response`, and get returns only a `Response`. A `Response` is a message, a
  created id, a found row, the empty object, a listing or a server error, and
  `StatusCode` gives its HTTP status. The list route is a method,
  `ListPersons`, because it picks rows in no fixed order; it returns only a
  `Response`. `Handle` is the routing table, also a method, returning the new
  store and the response. The state of the database connection is a
  parameter. The constraints of the table are modelled as the storage
  errors they raise: `NOT NULL` for a missing body field, `VARCHAR(255)` for
  a value too long to store, and `PRIMARY KEY` for an id handed out twice
  by the signed 32-bit `INT` counter. `Valid` is the table invariant (ids
  lie below the counter, values fit their columns) and every route
  preserves it.
- **The person form** (`person_form.dfy`, module `PersonForm`). The form
  state is the two input values, the per-field error messages and the
  submitting flag. The module holds the validator and the change handler,
  the effect that loads the person being edited, and the submit handler.
  The submit handler is split into the step before `await onSubmit(...)` and
  the step after it settles, and is also given as their composition.
- **Strings** (`text.dfy`, module `Text`): the JavaScript whitespace class
  and `String.prototype.trim`.
- **The e-mail pattern** (`email_pattern.dfy`, module `EmailPattern`).
  `RegexMatch` states what `^[^\s@]+@[^\s@]+\.[^\s@]+$` accepts. `EmailFormat`
  restates the expression as a hand-coded check of this model's own: split
  at the single `@`, then look for an inner dot in the domain. The form
  itself calls `.test` on the expression; `EmailFormatIsRegex` proves the
  two accept the same strings, and `ValidateForm` uses the hand-coded check
  in its place.

Three behaviours of the code that the model follows as written:

- The listing has no `ORDER BY`, so no order is promised.
  `ListPersons` picks rows in an arbitrary order and its contract says only
  that every row appears exactly once.
- A create with a missing field is not validated by the route. It fails
  through the `NOT NULL` columns, with MySQL's message.
- An update with a missing field on an absent id stores nothing, so no
  constraint fires and it answers `Updated`.

Assumptions about MySQL:

- Strict SQL mode is in force (the default since 5.7). A value longer than
  255 characters is then an error, unless everything past the 255th
  character is spaces. MySQL drops such trailing spaces from a `VARCHAR` in
  every SQL mode, with only a note, and stores the first 255 characters.
- A column's constraints are checked in column order (`name`, then `email`).
- InnoDB's counter stops at the `INT` maximum, 2147483647, and hands that
  value out again: the insert fails with a duplicate key while that row
  exists, and reuses the id once the row has been deleted.
- The error texts are MySQL's messages for these errors.

## Model

| member | source | states |
|---|---|---|
| `Text.Trim` | frontend/src/components/PersonForm.js:23-26 | `trim` gives the empty string exactly when the input is all whitespace; otherwise the result neither starts nor ends with whitespace |
| `EmailPattern.IndexOf` | frontend/src/components/PersonForm.js:28 | the split point: the first position of the character, or -1 exactly when it is absent |
| `EmailPattern.EmailFormatMatches` | frontend/src/components/PersonForm.js:28 | a string with no whitespace, one `@` with a non-empty part before it, and a domain with an inner dot is matched by the pattern |
| `EmailPattern.RegexMatchPassesFormat` | frontend/src/components/PersonForm.js:28 | every string the pattern matches has no whitespace, exactly one `@`, a non-empty local part and a dot with a character on each side in the domain |
| `EmailPattern.EmailFormatIsRegex` | frontend/src/components/PersonForm.js:28 | the split-based check and the pattern accept exactly the same strings |
| `EmailPattern.PaddedEmailNeverMatches` | frontend/src/components/PersonForm.js:28 | the pattern is applied untrimmed: whitespace at either end means no match |
| `PersonForm.ValidateForm` | frontend/src/components/PersonForm.js:21-32 | name error "Name is required" iff the name is all whitespace; e-mail error iff the e-mail is blank ("Email is required") or, being present, fails the pattern ("Invalid email format"); no errors iff the data is acceptable |
| `PersonForm.ValidateFieldsIndependent` | frontend/src/components/PersonForm.js:23-30 | the name's error depends on the name only and the e-mail's on the e-mail only |
| `PersonForm.PaddedEmailIsInvalid` | frontend/src/components/PersonForm.js:26-30 | an e-mail with surrounding whitespace passes the presence check but gets "Invalid email format" |
| `PersonForm.HandleChange` | frontend/src/components/PersonForm.js:34-46 | sets only the changed field; blanks only that field's displayed error, keeping its key; the other field, its error and the submitting flag are unchanged |
| `PersonForm.TypeBothFields` | frontend/src/components/PersonForm.js:34-46 | typing a name and an e-mail, in either order, leaves exactly those values and no displayed error |
| `PersonForm.LoadEditing` | frontend/src/components/PersonForm.js:9-19 | loads the edited person's name and e-mail, or blanks the form when there is none, and always clears every error |
| `PersonForm.BeginSubmit` | frontend/src/components/PersonForm.js:48-57 | `onSubmit` is called, with the current data and the submitting flag raised, iff the data is acceptable; otherwise `errors` becomes exactly the validator's result, an error is displayed, and the data and flag are unchanged |
| `PersonForm.SettleSubmit` | frontend/src/components/PersonForm.js:57-63 | the submitting flag drops whether `onSubmit` resolved or rejected; the data is blanked only when it resolved; errors are untouched |
| `PersonForm.HandleSubmit` | frontend/src/components/PersonForm.js:48-64 | a whole submission: sends the data iff it is acceptable; otherwise records exactly the validator's errors and changes nothing else; a rejection escapes the handler |
| `PersonForm.EditThenSubmit` | frontend/src/components/PersonForm.js:9-64 | submitting right after loading a person sends that person iff it is acceptable, and a resolved send leaves a blank form |
| `PersonApi.ColumnCheck` | backend/index.js:35-36 | a value passes a `VARCHAR(255) NOT NULL` column iff it is present and everything past the 255th character is spaces; the stored value is the input itself when it fits and otherwise exactly its first 255 characters, dropping only spaces; a missing value fails `NOT NULL`, any other refusal is "data too long" |
| `PersonApi.BodyCheck` | backend/index.js:67-69 | a body passes iff both fields are present and storable, giving the person as stored, which fits the columns; the name's error is reported first, then the e-mail's |
| `PersonApi.EmptyStoreValid` | backend/index.js:31-37 | the table as `CREATE TABLE` leaves it, empty with the counter at 1, satisfies the invariant the routes preserve |
| `PersonApi.GetPerson` | backend/index.js:52-57 | a present id gives its row, an absent id the empty object (not an error), a lost connection a 500 with its message |
| `PersonApi.CreatePerson` | backend/index.js:66-72 | succeeds iff connected, both fields present and storable and the id the counter hands out (the counter, or 2147483647 once exhausted) is free; then a 201 with that id, not in the table before, the stored person under it (exactly the sent values when they fit), the counter moved past it; otherwise a 500 with the message of the lost connection, the constraint error or the duplicate key, and the table unchanged |
| `PersonApi.UpdatePerson` | backend/index.js:74-80 | on a present id with a storable body replaces name and e-mail (exactly the sent values when they fit) and keeps every other row and the key set; on a present id with a refused body answers a 500 with the constraint's message and changes nothing; on an absent id changes nothing; answers `Updated` when it succeeds |
| `PersonApi.DeletePerson` | backend/index.js:82-87 | removes exactly the id's row (nothing if absent), keeps the counter, answers `Deleted` either way |
| `PersonApi.ListPersons` | backend/index.js:59-64 | the listing contains every row of the table exactly once, in no promised order; a lost connection gives a 500 |
| `PersonApi.DistinctIdsCount` | backend/index.js:34 | a listing whose ids are pairwise distinct (primary key) names as many ids as it has rows |
| `PersonApi.ListingLength` | backend/index.js:59-64 | a listing holds exactly as many rows as the table |
| `PersonApi.Handle` | backend/index.js:49-87 | health answers "API is working" regardless of table and connection; the list route gives a listing of every row when connected; get, post, put and delete give exactly what their handlers give; every route but health reports a lost connection as a 500 with its message; no failure changes the table; reads never change it; the invariant is preserved |
| `PersonApi.CreateThenGet` | backend/test.js:30-47 | from any table whose next id is free, create followed by get on the returned id returns the created name and e-mail |
| `PersonApi.UpdateThenGet` | backend/test.js:49-63 | an update of a present row answers `Updated` and the next get returns the new name and e-mail |
| `PersonApi.DeleteThenGet` | backend/index.js:82-87 | after a delete, get on that id answers the empty object |
| `PersonApi.MissingFieldRejected` | backend/index.js:66-71 | a create with a missing field is a 500 and stores nothing; a missing name gives "Column 'name' cannot be null"; a missing e-mail gives "Column 'email' cannot be null", unless the name is refused first as too long |
| `PersonApi.TrailingSpaceTrimmed` | backend/index.js:35-36 | a 255-character name sent with one extra trailing space is created, and get returns it cut to 255 characters |
| `PersonApi.OverlongValueRejected` | backend/index.js:35-36 | a 255-character name sent with one extra non-space character is a 500 "Data too long for column 'name' at row 1" and stores nothing |
| `PersonApi.DeletedIdNotReused` | backend/index.js:33-37 | the create that follows a delete never returns the deleted id, when that id is below 2147483647 |
| `PersonApi.ExhaustedCounterReusesMaxId` | backend/index.js:66-72 | once the counter is exhausted, a create gets "Duplicate entry '2147483647' for key 'PRIMARY'" while that row exists, and is given id 2147483647 again after that row is deleted |
| `PersonApi.ListAfterCreate` | backend/test.js:69-81 | after a successful create the listing is not empty |
| `PersonApi.CrudScenario` | backend/test.js:29-67 | from any table whose next id is free: create John, get him, update to Jane, get her, delete, get the empty object; statuses 201/200; the other rows end as they began |

## Left out

- Text.Trim: the contract states emptiness and the two ends of the result, not that it is the contiguous middle of the input (the helpers `TrimStart` and `TrimEnd` state their own halves of that).
- Connection setup, the `dbReady` promise, and the `CREATE DATABASE`, `USE` and `CREATE TABLE` bootstrapping (backend/index.js:14-47). These are I/O; the table starts as `EmptyStore`.
- Server start and the express, cors, body-parser and morgan middleware. These are framework plumbing.
- Parameter binding and MySQL's coercion of the `:id` path text to an integer. Ids are `int`, and a malformed id is not modelled.
- JSON body fields that are not strings (numbers, objects). A field is either a string or absent.
- Storage failures other than a lost connection and the three constraint errors. Other server errors would all be a 500 carrying their message, the same as `Unavailable`.
- InnoDB may consume an auto-increment value on a failed insert. In the model a failed insert leaves the counter unchanged.
- Column width is counted in Dafny characters (code points). MySQL counts characters in the column's character set.
- The key name in the duplicate-key message. The model writes `'PRIMARY'`; MySQL 8.0.19 and later write `'persons.PRIMARY'`.
- `Text.IsWhitespace` lists ECMAScript's WhiteSpace and LineTerminator characters for the Unicode version of current engines. It does not track later changes to the space-separator category.
- `frontend/src/App.js`: axios calls, `window.confirm`, the five-second health polling and list refreshes. These are network I/O and timers. `onSubmit` is represented only by how its promise settles.
- `PersonList.js` and `HealthCheck.js`, and the rendering part of `PersonForm.js` (labels, disabled inputs, the cancel button calling `onCancel`). These are presentation.
- React's batching of state updates. Each handler is one atomic transition, and the submit handler is two.
