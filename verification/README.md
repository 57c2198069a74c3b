# Notes store and notes controller, modelled in Dafny

This project models the core of a small notes back end. The model has two parts:

- The notes service holds an in-memory list of notes. Each note has an id, a title, a content, `createdAt` and `updatedAt`. The service offers five operations:
  - `list` sorts the notes newest first, filters them by a case-insensitive text query and cuts out a page;
  - `create` appends a note;
  - `getById` looks a note up;
  - `update` does a partial merge that tells "field omitted" apart from "empty string";
  - `remove` splices a note out.
- The notes controller validates request bodies, trims fields and maps service results to the status codes 200, 201, 204, 400 and 404.

The store is an immutable `seq<Note>`. Every operation is a pure function from the current store to a `Step(store, result, saved)`, where:

- `store` is the store after the operation;
- `result` is what the operation answers;
- `saved` tells whether the operation ends by writing the whole store to the data file.

The clock reading (`now`) and the freshly generated id are parameters. Timestamps are ISO 8601 UTC strings. They are compared character by character, and for these fixed-width strings that order is time order.

Files:

- `wrappers.dfy` defines `Option`.
- `text.dfy` holds ASCII trim and lower-case, substring search and the lexicographic order.
- `jsvalues.dfy` holds request field values and `Array.prototype.slice`.
- `notes.dfy` holds the note record, ids and the first-match lookup.
- `ranking.dfy` holds the newest-first sort.
- `service.dfy` holds the service.
- `controller.dfy` holds the controller.

Behaviour kept as the code has it:

- The list filter first checks that the query is non-blank after trimming. It then searches for the lower-cased query **untrimmed**. So the query `" milk"` does not find a note titled `"milk"` (`NotesService.UntrimmedQuery`).
- `update` never re-checks the "title or content must be non-empty" rule that `create` goes through. An update can leave both fields empty (`NotesController.UpdateMayBlankBoth`).
- An update that names no field still refreshes `updatedAt` (`NotesController.EmptyUpdateOnlyTouches`).
- `Array.prototype.sort` is stable, so tied notes keep their store order. The model's insertion sort does the same, but this is not proved. `Ranking.SortedPermutationsAgree` proves that every newest-first order of the same notes shows the same timestamps at every position, so any other sort could differ only in how it orders tied notes.

## Model

| member | source | states |
|---|---|---|
| `Notes.FindIndex` | notes_backend/src/services/notes.js:120-121 | finds nothing exactly when the id is absent from the store; otherwise gives the first position holding the id |
| `Notes.FindIndexIsFirst` | notes_backend/src/services/notes.js:139-140 | the first position holding an id is the one the lookup reports |
| `Notes.FindIndexUnique` | notes_backend/src/services/notes.js:120-121 | when ids are unique, the lookup reports the one position holding the id |
| `Ranking.SortByRecency` | notes_backend/src/services/notes.js:59 | the copy made for listing is ordered newest `updatedAt` first and is a permutation of the store |
| `Ranking.InsertByRecency` | notes_backend/src/services/notes.js:59 | inserting one note into a newest-first sequence keeps it newest-first and adds exactly that note |
| `Ranking.SortedPermutationsAgree` | notes_backend/src/services/notes.js:59 | any two newest-first orders of the same notes agree on the timestamp at every position, so sorts differ only in tie order |
| `Text.LexLeTotal` | notes_backend/src/services/notes.js:59 | any two timestamps are comparable |
| `Text.LexLeTransitive` | notes_backend/src/services/notes.js:59 | the timestamp order is transitive |
| `Text.LexLeAntisymmetric` | notes_backend/src/services/notes.js:59 | timestamps ordered both ways are equal |
| `Text.ContainsIff` | notes_backend/src/services/notes.js:64-65 | the left-to-right `includes` scan succeeds exactly when the needle occurs at some position of the text |
| `Text.Trim` | notes_backend/src/controllers/notes.js:45-46 | the trimmed string neither starts nor ends with whitespace, is an infix of the input with only whitespace cut from either end, is empty exactly when the input is all whitespace, and leaves an already trimmed string unchanged |
| `Text.TrimIdempotent` | notes_backend/src/controllers/notes.js:45-46 | trimming an already trimmed string changes nothing |
| `Text.TrimEmptyIff` | notes_backend/src/controllers/notes.js:36-37 | a string is blank after trimming exactly when it holds no non-whitespace character |
| `Text.Lower` | notes_backend/src/services/notes.js:61 | lower-casing keeps the length and maps every character to its lower-case form |
| `Text.LowerIdempotent` | notes_backend/src/services/notes.js:61-65 | lower-cased text holds no upper-case ASCII letter, and lower-casing it again changes nothing |
| `NotesService.Filter` | notes_backend/src/services/notes.js:62-66 | keeps exactly the notes whose non-empty title or content contains the needle, each with its multiplicity, and nothing else |
| `NotesService.FilterKeepsOrder` | notes_backend/src/services/notes.js:59-66 | filtering a newest-first sequence leaves it newest-first |
| `NotesService.FilterRespectsPermutation` | notes_backend/src/services/notes.js:59-66 | sorting and then filtering selects the same notes as filtering the store |
| `NotesService.Ranked` | notes_backend/src/services/notes.js:59-66 | the list before paging is newest-first and is a permutation of the notes the query selects from the store |
| `NotesService.ListKeeps` | notes_backend/src/services/notes.js:60-66 | with a query that is non-blank after trimming, a note is listed iff its lower-cased title or content contains the lower-cased query as given; with no such query every note is listed |
| `NotesService.UntrimmedQuery` | notes_backend/src/services/notes.js:60-61 | a query with a leading space passes the blank check but no longer matches a title that the trimmed query would match |
| `NotesService.List` | notes_backend/src/services/notes.js:58-87 | listing leaves the store alone and saves nothing; `total` is the filtered count whatever the paging; offset defaults to 0 and negatives become 0; limit is null when absent; with a limit the page is the clamped window `[offset, offset+limit)` and has at most `limit` notes, without one it is everything from the clamped offset |
| `NotesService.Create` | notes_backend/src/services/notes.js:93-105 | appends exactly one note at the end with the given id, the given title and content (absent ones become empty), and both timestamps set to `now`; earlier notes are unchanged; the id set grows by the new id; unique ids stay unique; the store is saved |
| `NotesService.GetById` | notes_backend/src/services/notes.js:111-113 | answers the first note with the id, or nothing exactly when the id is absent; the store is unchanged and not saved |
| `NotesService.Update` | notes_backend/src/services/notes.js:119-132 | an unknown id answers nothing and changes and saves nothing; a known id changes only the first matching note, where a given field (even empty) replaces the stored one, an omitted field is kept, the id and `createdAt` are kept, and `updatedAt` becomes `now`; every other note stays in place and the store is saved |
| `NotesService.Remove` | notes_backend/src/services/notes.js:138-144 | answers true and saves exactly when the id is present; then the store is one shorter, has lost one copy of the first matching note, and keeps the other notes in their order; otherwise the store is unchanged |
| `NotesService.CreatedIsFirst` | notes_backend/src/services/notes.js:102 | after a create with a fresh id, the new note is the first and only note with that id |
| `NotesService.GetAfterCreate` | notes_backend/src/services/notes.js:102-112 | reading a freshly created note back by its id returns it |
| `NotesService.RemoveUndoesCreate` | notes_backend/src/services/notes.js:102-143 | removing a note just created answers true and restores the previous store exactly |
| `NotesService.UpdatedIsFirst` | notes_backend/src/services/notes.js:120-129 | an update keeps the updated note at the first position for its id |
| `NotesService.GetAfterUpdate` | notes_backend/src/services/notes.js:119-131 | reading a note back after updating it returns the updated note |
| `NotesService.UpdateIdempotent` | notes_backend/src/services/notes.js:119-131 | repeating an update with the same fields and clock reading gives the same store and result |
| `NotesService.MutationsKeepIdsUnique` | notes_backend/src/services/notes.js:119-144 | update and remove keep the stored ids pairwise distinct |
| `NotesService.GetAfterRemove` | notes_backend/src/services/notes.js:138-144 | with unique ids, a removed note can no longer be found |
| `NotesService.UpdateMayEmptyBoth` | notes_backend/src/services/notes.js:123-126 | the service accepts an update that empties both title and content |
| `NotesController.HandleList` | notes_backend/src/controllers/notes.js:11-24 | listing always answers 200, leaves the store alone and saves nothing, and its body carries exactly the service's page: data, total, limit and offset |
| `NotesController.HandleCreate` | notes_backend/src/controllers/notes.js:31-52 | answers 400 without touching the store iff neither title nor content is a string that is non-blank after trimming; otherwise stores one new note with the trimmed strings (a non-string becomes empty) and answers 201 with it |
| `NotesController.HandleGetById` | notes_backend/src/controllers/notes.js:58-69 | answers 404 exactly when no note has the id, else 200 with the first note that has it; nothing is saved |
| `NotesController.HandleUpdate` | notes_backend/src/controllers/notes.js:76-102 | answers 400 before the store is touched iff a provided title or content is not a string; otherwise 404 exactly when the id is unknown, and 200 with the updated note after passing the trimmed strings and "not provided" for omitted fields |
| `NotesController.HandleRemove` | notes_backend/src/controllers/notes.js:108-119 | answers 404 with the store unchanged exactly when the id is unknown, else 204 with no body after removing the note |
| `NotesController.CreatedNoteNotBlank` | notes_backend/src/controllers/notes.js:36-49 | a note created through the controller has trimmed fields, and at least one of them is non-empty |
| `NotesController.UpdateMayBlankBoth` | notes_backend/src/controllers/notes.js:82-93 | updating a known note with a blank title and an empty content answers 200 and empties both fields, while creating with the same fields answers 400 |
| `NotesController.EmptyUpdateOnlyTouches` | notes_backend/src/controllers/notes.js:90-99 | an update naming no field answers 200 and changes only the note's `updatedAt` |

## Left out

- Persistence is not modelled: loading the data file at start-up, writing it, creating its directory, and swallowing and logging write errors (notes_backend/src/services/notes.js:15-45). The only trace is the `saved` flag, which records whether an operation would call the write. The model's store is any sequence of notes, whatever a load would have produced.
- Id generation (notes_backend/src/services/notes.js:47-52) uses the clock and a random number, so it is not modelled. The fresh id is a parameter of `Create`, with the precondition that no stored note already has it. The code itself does not guarantee this.
- The clock (`new Date().toISOString()`) is not modelled: `now` is a parameter.
- NotesService.List: takes `limit` and `offset` as already-parsed integers. `Number`, `parseInt` and `NaN` are not modelled. For example, an empty `limit` string gives `NaN` in the code, and with it an empty page.
- Text.Trim: trims ASCII whitespace only, not the full Unicode set that `String.prototype.trim` removes.
- Text.Lower: lower-cases ASCII letters only, not the full Unicode case mapping.
- Ranking.SortByRecency: compares timestamps code point by code point instead of with `localeCompare`. For fixed-width ISO 8601 timestamps both orders agree.
- Ranking.SortByRecency: the tie order comes from the engine's sort. The model's sort is stable by construction, but stability is not proved. `Ranking.SortedPermutationsAgree` shows that only the tie order is open.
- The `try`/`catch` branches that answer 500 are not modelled, and neither is the `async` form of the handlers. They are error plumbing with no decision logic.
- Route wiring and the OpenAPI documentation (notes_backend/src/routes/notes.js, notes_backend/swagger.js) are not modelled: they carry no logic.
- Notes are assumed to hold string fields. The list filter's guards on `n.title` and `n.content` are modelled only as "non-empty", so a record with a non-string field, which could only come from a hand-edited data file, is outside the model.
