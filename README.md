# Raw-file manager

A Dafny model of the client-side raw-file manager in `app.js`. A raw file is
a named, versioned text record owned by a signed-in user. The page keeps a
handful of globals: the signed-in user, whether the form is in edit mode, the
id being edited, the cached list of the user's files, and the value of the
view selector. It also talks to a document store that holds the
`raw_files` collection.

The model has four modules.

- `Names` (names.dfy) holds the pure helpers:
  - name normalisation (`trim()` then `toLowerCase()`);
  - the `/^[a-z0-9-]+$/` check and the form validator;
  - the 200-character list preview;
  - the public URL `origin + '/raw.html?name=' + name`.
- `Store` (store.dfy) models the collection as a map from document id to
  record. A counter stands in for the server clock. The module also holds the
  owner-scoped name lookup, and the owner query ordered by creation time,
  newest first. The query is a loop that picks the newest record not yet
  returned. It is proved to return every one of the owner's records exactly
  once, as stored, in that order.
- `Manager` (manager.dfy) has the class `RawFileManager`. Its fields are the
  page's globals plus the collection, the clock and the next fresh id. Each
  event handler is a method that runs as one atomic step:
  - submit, which splits into a create path and an update path;
  - `resetForm`;
  - `loadRawFiles`, which rebuilds the cache with a push loop;
  - `editRawFile`, `viewRawFile`, `loadRawForView` and `editCurrentRaw`;
  - `deleteRawFile`;
  - the auth-state listener.

  Whether a store call succeeds is a boolean parameter. So is the answer to
  the delete confirmation.
- `Scenarios` (scenarios.dfy) walks the class through its method contracts.
  It covers:
  - create, then a refused duplicate;
  - the same name under another owner;
  - edit, then save;
  - deleting the file on view;
  - deleting the file being edited;
  - a delete whose refresh fails;
  - a name typed with capitals, stored in normal form;
  - an edit that renames a file onto its sibling's name.

Three behaviours of the code are worth stating, because the page's own
messages or a reader's expectation suggest otherwise:

- The error text at app.js:93 says names may hold only lowercase letters,
  digits and hyphens. But line 81 lower-cases the name before line 92 tests
  it. So a name typed with capitals and blanks around it is accepted and
  stored in normal form: ` Ab` followed by a newline normalises to `ab`
  (`Names.NormalizeExample`), and a raw name is stored in its normalised
  form and then counts as a duplicate of it (`Scenarios.CapitalsNormalised`). `Names.NameAcceptance` and
  `Names.InvalidNameIff` state exactly which raw names pass.
- `deleteRawFile` (app.js:318-337) never touches `isEditing` or
  `editingRawId`. Deleting the record that is being edited leaves the edit
  session open, and the next save then fails in the store
  (`Scenarios.DeleteWhileEditing`).
- `deleteRawFile` does not await `loadRawFiles` (app.js:326), and a failed
  refresh leaves the deleted record in the cache. Viewing it then selects an
  id the store no longer holds (`Scenarios.StaleCacheSelection`).

The update path (app.js:103-110) makes no name check, so one owner can end
up with two files of the same name: `Scenarios.RenameOntoSibling` creates
two files, edits the second and saves it under the first one's name.

## Model

| member | source | states |
|---|---|---|
| Names.CoreStart | app.js:81-82 | the first index at or after the start that holds a non-trimmable code point; everything skipped is trimmable |
| Names.CoreEnd | app.js:81-82 | one past the last non-trimmable code point before the end, never below the start; everything skipped is trimmable |
| Names.Trim | app.js:81-82 | `trim()` returns a slice of the input with only trimmable code points around it; the slice neither starts nor ends with one; it is empty exactly when the input is all blanks |
| Names.TrimKeeps | app.js:81-82 | a string that neither starts nor ends with a trimmable code point is its own trim |
| Names.LowerChar | app.js:81 | lower-casing one character leaves no ASCII capital; a non-capital is kept; the result is a name character exactly when the input was one or was a capital |
| Names.Lower | app.js:81 | `toLowerCase()` keeps the length and lower-cases each character in place |
| Names.LowerKeeps | app.js:81 | a string without ASCII capitals is its own lower-case form |
| Names.NameCharNotTrimmable | app.js:81-82 | no character of `[a-z0-9-]` is stripped by `trim()` |
| Names.NormalizeExample | app.js:81 | blanks around a name are stripped and capitals lowered: ` Ab` followed by a newline normalises to `ab` |
| Names.NormalizeNameShape | app.js:81 | the normalised name is empty exactly for a blank input, holds no ASCII capital and is never longer than the input |
| Names.NormalizeName | app.js:81 | `trim().toLowerCase()` of the raw name is never longer than it and holds no ASCII capital |
| Names.MatchesNamePattern | app.js:92 | a name passing `/^[a-z0-9-]+$/` is non-empty and holds no blank and no ASCII capital, so normalising it again changes nothing |
| Names.ValidateForm | app.js:81-95 | the accepted fields are the normalised name, the trimmed version and the untouched content; the accepted name matches `^[a-z0-9-]+$` and the version and content are non-empty; a missing-field refusal means the normalised name, the trimmed version or the content is empty |
| Names.MissingFieldIff | app.js:86-89 | a submit is refused for a missing field exactly when the name or the version is all blanks or the content is empty |
| Names.InvalidNameIff | app.js:92-95 | a submit is refused for the name exactly when every field is present and the trimmed name holds a character that is neither in `[a-z0-9-]` nor an ASCII capital |
| Names.NameAcceptance | app.js:81-92 | the normalised name matches the pattern exactly when the trimmed raw name is non-empty and every character is a name character or an ASCII capital |
| Names.NormalizeValidName | app.js:81-92 | a name that already matches the pattern normalises to itself, so a stored name survives the edit form unchanged |
| Names.ValidateCleanForm | app.js:81-95 | a clean form (valid name, trimmed non-empty version, some content) is accepted with exactly those fields |
| Names.Preview | app.js:190-191 | the preview is the content itself up to 200 characters, otherwise its first 200 characters followed by `...`; it is never longer than 203 |
| Names.PublicUrl | app.js:288 | the public URL starts with the origin and is as long as origin, path and name together |
| Names.PublicUrlRoundTrip | app.js:288 | reading the name back out of a public URL of the same origin gives the name |
| Names.PublicUrlInjective | app.js:288 | two names give the same URL of one origin only if they are equal |
| Store.NewestExists | app.js:166-169 | every non-empty set of stored ids has a member whose creation time is the latest |
| Store.QueryByOwner | app.js:166-169 | the owner query returns each of the owner's records exactly once, as stored, newest creation first |
| Store.ListingEmptyIff | app.js:174-181 | the query result is empty exactly when the owner holds no record |
| Store.NewestCreatedListedFirst | app.js:166-169 | a record created after every other one heads its owner's listing |
| Store.InsertedNewestListedFirst | app.js:130-144 | a record just added with a later creation time than every stored one heads its owner's refreshed listing |
| Store.ListingHead | app.js:166-169 | with distinct creation times, two listings of one owner start with the same record |
| Store.ListingTail | app.js:166-169 | dropping a listing's head gives a listing of the store without that record |
| Store.ListingDetermined | app.js:166-169 | with distinct creation times, the owner query has exactly one answer |
| Store.NameTaken | app.js:116-121 | the duplicate query `owner == o && name == n` is non-empty exactly when some stored record has that owner and that name |
| Store.CreateKeepsNamesUnique | app.js:115-137 | adding a record under a fresh id, with a name the owner does not hold yet, keeps names unique per owner |
| Store.InsertNewestKeepsDistinct | app.js:130-137 | a record stamped later than every stored one keeps creation times distinct |
| Store.RenameCanDuplicate | app.js:103-110 | renaming a record in place onto another record of the same owner, which the update path allows because it makes no name check, breaks per-owner name uniqueness; `Scenarios.RenameOntoSibling` reaches that state through `Submit` |
| Manager.Find | app.js:256 | `find` returns nothing exactly when no cache entry has the id, and otherwise the first entry that has it |
| Manager.RawFileManager.constructor | app.js:1-4 | the page starts with nobody signed in, in create mode, with nothing cached or selected |
| Manager.RawFileManager.ResetForm | app.js:156-161 | back to create mode with no id being edited; nothing else changes |
| Manager.RawFileManager.LoadRawFiles | app.js:164-187 | with a signed-in user and a working query, the cache becomes exactly that owner's listing, newest first; otherwise it is left as it was |
| Manager.RawFileManager.AddRecord | app.js:130-137 | the store write `doc().set(...)` puts one record under a fresh id, stamped with the current tick as both creation and update time; other records are untouched; creation times stay distinct; per-owner name uniqueness is kept when the name was free |
| Manager.RawFileManager.SaveUpdate | app.js:103-113 | an edit-mode save replaces only the edited record's name, version and content and stamps a later update time; owner, creation time and every other record stay; the session ends and the cache is refreshed; a failed or missing update changes nothing |
| Manager.RawFileManager.SaveCreate | app.js:114-144 | a create-mode save refuses a name the owner already holds and changes nothing; otherwise it adds exactly one record owned by the user with equal creation and update times; the session ends, and a refreshed cache lists the new record first; names stay unique per owner |
| Manager.RawFileManager.Submit | app.js:78-154 | an invalid form is refused before any store access and changes nothing; a valid one takes the update path in edit mode and the create path otherwise |
| Manager.RawFileManager.EditRawFile | app.js:225-252 | edit mode is entered on the id, with the stored fields returned for the form, exactly when the fetch works and the id is stored; otherwise the edit state is unchanged |
| Manager.RawFileManager.LoadRawForView | app.js:278-291 | no selection hides the pane; a cached selection shows its content and public URL; an uncached selection leaves the pane as it was |
| Manager.RawFileManager.ViewRawFile | app.js:255-262 | the selection and the pane change only when the id is cached, and then show that record |
| Manager.RawFileManager.EditCurrentRaw | app.js:294-299 | editing from the view selector enters edit mode on the selected id, and returns that record's stored fields for the form, exactly when there is a selection and it is stored; otherwise the edit state is unchanged |
| Manager.RawFileManager.DeleteRawFile | app.js:318-337 | after a confirmed, successful delete the id is gone from the store and from a refreshed cache; a selection of that id is cleared and the pane hidden; any other selection and the edit session are kept; otherwise nothing changes |
| Manager.RawFileManager.OnAuthStateChanged | app.js:340-354 | the user is recorded; sign-in refreshes the cache; sign-out ends the edit session but keeps the cache and the selection |
| Scenarios.SignedIn | app.js:340-348 | a fresh page with a user signed in, over an empty collection, has an empty cache, no selection, a hidden pane and is in create mode |
| Scenarios.SignedInWithOneFile | app.js:78-144 | one clean submit from a fresh page stores one record under id 0 and lists it first in the cache |

## Left out

- Authentication (login, register, logout) goes through an external identity
  provider. Only the listener's effect on the page state is modelled, with
  the user as a parameter.
- All DOM work is left out: HTML rendering of the list, tab switching,
  button text and loading state, status messages and their timer, the
  clipboard and `window.open`. The view pane is kept as a value (hidden, or
  content plus URL).
- `populateViewSelector` is left out, and so are the rules of the `<select>`
  element: its value must be one of its options, and the options are rebuilt
  from the cache when the view tab opens. The selection is a free field that
  the handlers set. On the real page `viewRawFile` calls `switchTab('view')`,
  which runs `populateViewSelector` and sets the selector back to empty
  (app.js:260, 21, 267). So after a View click the cleanup in
  `deleteRawFile` (app.js:329) does not fire, and a View click whose id has
  no option yet hides the pane. `ViewRawFile` and `Scenarios.DeleteViewed`
  show the idealised behaviour in which the selection keeps the id.
- The store's internals are replaced:
  - queries become functions over a map;
  - `serverTimestamp()` becomes a counter clock;
  - `doc()` becomes a next-id counter;
  - the date formatting is dropped.

  Every store call can fail; a failure is a boolean parameter. A `delete` of
  a missing document succeeds. An `update` of a missing document fails.
- The constructor starts from an empty collection, and so do the
  walk-throughs in `Scenarios`. Loading the real page does not empty the
  remote collection; the handlers' contracts hold for any collection that
  meets the class invariant `Valid()`.
- `confirm()` becomes the boolean parameter `confirmed`.
- `loadRawFiles()` is not awaited after a save or a delete. The model runs it
  to completion inside the handler. Interleavings with other handlers are
  not modelled.
- Names.Lower: lower-cases ASCII capitals only. Characters outside ASCII that
  `toLowerCase` changes (for example U+212A KELVIN SIGN, which becomes `k`)
  are kept as they are. So such names are refused by the pattern rather than
  accepted.
- Names.Preview: counts code points, whereas `String.length` and
  `substring` count UTF-16 code units. The two agree on text inside the
  Basic Multilingual Plane.
- Names.Trim: covers the ECMAScript WhiteSpace and LineTerminator code points
  and works on code points, not UTF-16 code units.
