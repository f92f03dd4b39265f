# Study-notes page: the note collection

The page keeps its notes in one module-level array `notes` of records
`{id, title, subject, content, date}`, seeded with three sample notes (ids 1,
2, 3). Its event handlers change that array and read it:

- the OCR save button and the manual form's save button validate their form
  and push a new note whose id is 1 on an empty collection and otherwise one
  more than the largest id present;
- deleting keeps the notes whose id differs from the clicked one;
- editing looks the note up, takes it out of the array at once, and on save
  pushes a record with the same id, the new fields and a new date; the create
  listener of the same button is never removed and runs first on that click;
- the search box and the tag buttons show filtered views in collection order;
- the statistics show the number of notes and of distinct subjects.

This project models that collection in Dafny:

- `text.dfy` (`Text`): ASCII lower-casing, JavaScript-style `trim`, and
  `includes` with its meaning "occurs at some position".
- `filtering.dfy` (`Filtering`): `filter` as `Keep`, with "order-preserving
  subsequence" and exact multiplicities as its contract.
- `notes.dfy` (`Notes`): the record, ids, the max-plus-one id rule, removal by
  id, lookup by id, and the id-uniqueness lemmas.
- `queries.dfy` (`Queries`): search, the tag filter and the counters.
- `store.dfy` (`NoteStore`): the mutable collection as a class `Store` with a
  `notes: seq<Note>` field, the save, delete and edit handlers as methods, and
  the form checks.

The clock is an argument: every method that stamps a date takes `date`.

Three behaviours of the code that a reader might expect to be otherwise, and
that the model keeps as the code has them:

- deleting or editing an unknown id is a silent no-op, not a not-found error;
- an edit replaces the date instead of keeping the creation date;
- "create, create, delete id 1, create" on an empty collection hands out id 3,
  not id 1, because ids are the maximum plus one (`Notes.FreedLowIdIsNotReused`).

## Model

| member | source | states |
|---|---|---|
| `Notes.MaxId` | script.js:194 | the result is one of the ids present and no id present is larger |
| `Notes.NextId` | script.js:193-194 | the new id is 1 on an empty collection; otherwise larger than every id present (so fresh) and exactly one above an id present |
| `Notes.WithoutId` | script.js:316 | the result keeps the order of the input, holds no note with the id, and holds every other note exactly as often as the input |
| `Notes.Find` | script.js:256-257 | `None` exactly when no note has the id; otherwise the note at the first position with that id |
| `Notes.SubsequenceKeepsUniqueIds` | script.js:316 | dropping notes while keeping the order of the rest cannot create a duplicate id |
| `Notes.AppendUniqueIds` | script.js:291 | pushing a note keeps ids unique if and only if they were unique and its id is new |
| `Notes.WithoutAbsentId` | script.js:316 | removing an id that is not present leaves the collection unchanged |
| `Notes.CreateKeepsUniqueIds` | script.js:193-201 | pushing a note with the next id keeps ids unique |
| `Notes.DeleteKeepsUniqueIds` | script.js:316 | deleting keeps ids unique |
| `Notes.ReplaceKeepsUniqueIds` | script.js:283-291 | removing an id and then pushing one record with that id keeps ids unique |
| `Notes.NextIdAfterDeletingMax` | script.js:194 | after deleting the largest id m >= 1 the next id is at most m, and equals m exactly when m is 1 or m - 1 is still in use: ids are reused |
| `Notes.ReuseAfterDeletingThird` | script.js:194 | with ids 1, 2, 3 the next id is 4, and after deleting 3 it is 3 again |
| `Notes.SeedNotes` | script.js:2-24 | the collection the page starts with holds three notes with the distinct ids 1, 2 and 3 |
| `Notes.SeedReusesDeletedId` | script.js:2-24 | on the sample collection the next id is 4, or 3 once note 3 is deleted |
| `Notes.NextIdAfterRemovingBelowMax` | script.js:235 | taking out a present note whose id is not the largest leaves the next id as it was, which differs from the removed id |
| `Notes.SeedNextIdWithoutFirst` | script.js:235 | with note 1 taken out of the sample collection the next id is 4 |
| `Notes.FreedLowIdIsNotReused` | script.js:234-242 | on an empty collection two creates get ids 1 and 2; after deleting 1 the next create gets 3 |
| `Filtering.Keep` | script.js:339-343 | `filter`: an order-preserving subsequence holding each element that meets the condition exactly as often as the input and nothing else |
| `Filtering.KeepIdempotent` | script.js:402-405 | filtering twice by one condition is filtering once |
| `Text.Lower` | script.js:332 | same length, no upper-case ASCII letter left, white-space characters kept as they are and no other character turned into white space |
| `Text.Contains` | script.js:340-342 | every string includes the empty string, and none includes a longer string |
| `Text.ContainsIff` | script.js:340-342 | `includes` holds exactly when the term occurs at some position |
| `Text.Trim` | script.js:332 | `trim` returns the input with a blank prefix and a blank suffix cut off; the result is empty exactly for blank input and otherwise neither starts nor ends with white space, so it is the input with all its leading and trailing white space removed |
| `Queries.Search` | script.js:331-346 | blank input (white space only) gives the whole collection; otherwise an order-preserving subsequence holding exactly the notes whose lower-cased title, subject or content includes the lower-cased trimmed term, with their multiplicities |
| `Queries.SearchTermOfWord` | script.js:332 | search text that neither starts nor ends with white space is searched for as it is, only lower-cased |
| `Queries.SearchIgnoresCase` | script.js:332 | the letter case of the search text does not change the result |
| `Queries.SearchIdempotent` | script.js:339-343 | searching a search result again with the same text changes nothing |
| `Queries.SearchFindsSubject` | script.js:341 | a note whose lower-cased subject contains the term is found |
| `Queries.SearchMatchesSubjectInAnyCase` | script.js:339-343 | a note filed under "Mathematics" is found by "MATH" and by "mathematics" |
| `Queries.FilterByTag` | script.js:392-407 | always an order-preserving subsequence; a subject tag keeps exactly the notes with that subject; an exam tag keeps everything; any other tag keeps exactly the notes whose lower-cased content or title includes the lower-cased tag |
| `Queries.FilterByTagIdempotent` | script.js:392-405 | filtering by a tag twice is filtering once |
| `Queries.SubjectTagIsCaseSensitive` | script.js:394 | a note filed under "mathematics" is not shown for the "Mathematics" tag |
| `Queries.Subjects` | script.js:351 | the set holds exactly the subjects some note has; there are no more of them than notes, and at least one when there is a note |
| `Queries.CountStats` | script.js:349-351 | the total is the number of notes; the subject count is at most the total and is zero only for an empty collection |
| `Queries.DistinctSubjectsCons` | script.js:351 | a note in front of a collection makes the subjects not distinct when a later note has its subject, and otherwise leaves distinctness as it was |
| `Queries.SubjectCountEqualsTotal` | script.js:350-351 | the two counters are equal exactly when no two notes share a subject |
| `Queries.TwoDistinctSubjects` | script.js:351 | notes under "Math", "Math", "History" give the counters 3 and 2 |
| `NoteStore.CheckOcrForm` | script.js:183-191 | rejects exactly a blank title (white space only) or the "Select Subject" placeholder, the title check first; the extracted text is not checked |
| `NoteStore.CheckForm` | script.js:229-232 | accepts exactly when title, subject and content are all non-empty, without trimming |
| `NoteStore.Store.constructor` | script.js:2-24 | the collection starts as the three sample notes, so ids start unique, the invariant `Create`, `Delete` and `Update` keep |
| `NoteStore.Store.Create` | script.js:193-201 | appends exactly one note, with the next id, at the end; earlier notes stay in place; ids stay unique |
| `NoteStore.Store.SaveOcrNote` | script.js:182-201 | a rejected form leaves the collection unchanged; otherwise the extracted text becomes the content of a created note |
| `NoteStore.Store.SaveManualNote` | script.js:224-242 | an empty field leaves the collection unchanged; otherwise a note is created |
| `NoteStore.Store.Delete` | script.js:314-316 | the collection becomes the notes with other ids, in order; an unknown id changes nothing; ids stay unique |
| `NoteStore.Store.BeginEdit` | script.js:255-263 | returns the first note with the id, if any, and the collection loses every note with that id |
| `NoteStore.Store.SaveEdit` | script.js:273-291 | an empty field leaves the collection unchanged; otherwise a record with the edited id and new date is appended; ids stay unique if that id was absent |
| `NoteStore.Store.SaveClickDuringEdit` | script.js:224-309 | one click on the save button during an edit: the create listener rejects an empty field and then nothing changes; otherwise it appends a note with the next id and the form's fields, and the edit's handler appends a record with the edited id only if the fields left by the form reset are all non-empty |
| `NoteStore.Store.Update` | script.js:255-291 | an unknown id or an empty field changes nothing; otherwise the other notes in order followed by one record with the same id, new fields and new date; ids stay unique |
| `NoteStore.CreateDuringEditDuplicatesId` | script.js:263 | while an edit is pending, a create that gets the edited id leads to two notes with the same id once the edit is saved |
| `NoteStore.AbandonedEditLosesNote` | script.js:262-263 | once an edit has begun, the note being edited is no longer in the collection |
| `NoteStore.EditSaveClickRenumbers` | script.js:234-263 | when an edit of a note without the largest id is saved and the edit's handler then rejects the reset form, the note comes back under the next id and its own id is gone |

## Findings

| source | as written | input that shows it | evidently intended | confidence | as-written member | corrected member |
|---|---|---|---|---|---|---|
| script.js:262-263 | `editNote` removes the note when the edit dialog opens; only a valid save pushes a record back | the sample notes; click edit on note 1; close the dialog without saving: note 1 is gone | a note changes only when a valid edit is saved, and stays as it was otherwise | high; not executed | `NoteStore.Store.BeginEdit` with `NoteStore.AbandonedEditLosesNote` | `NoteStore.Store.Update` |
| script.js:263 | the edited id is absent while the edit is pending, and the create listener of script.js:224 runs on the edit's own save click before the edit's handler, so the created note may receive that id | the sample notes; edit note 3; click save with all fields filled: the create listener pushes the fields as note 3; if the fields left by the form reset are all non-empty, the edit's handler pushes a second note 3 | ids stay unique | medium (the create on the save click follows from the code; the second push needs the reset at script.js:247 to leave every field non-empty, which the page markup decides); not executed | `NoteStore.Store.SaveClickDuringEdit` with `NoteStore.CreateDuringEditDuplicatesId` | `NoteStore.Store.Update` |
| script.js:224 | the create listener is never removed (script.js:308 removes `onclick`, read at script.js:415, which is not that listener), so saving an edit creates a note with the next id | the sample notes; edit note 1; click save with all fields filled: the create listener pushes the fields as note 4, and if the reset empties the form the edit's handler rejects it: the collection holds ids 2, 3, 4 | an edited note keeps its id | high (what the reset leaves in the fields decides only whether a second record with id 1 follows); not executed | `NoteStore.Store.SaveClickDuringEdit` with `NoteStore.EditSaveClickRenumbers` and `Notes.SeedNextIdWithoutFirst` | `NoteStore.Store.Update` |

## Left out

- Camera capture, image handling and the OCR call (script.js:94-179): browser media APIs and an external OCR library. The recognised text is only the `extracted` argument of `SaveOcrNote`.
- Rendering (`displayNotes`, script.js:53-91), notifications (script.js:366-384), the confirmation dialog before deleting (script.js:315), modal dialogs, form resets, smooth scrolling and the progress bars (script.js:357-362). `Delete` is the step after the user confirmed.
- The wall clock (script.js:198, script.js:288): the date is the `date` argument.
- The Enter-key binding of the search box (script.js:324-329) and `parseInt` of the button's `data-id` (script.js:80, script.js:87).
- `currentFilters` (script.js:46-50): it is written and never read.
- The page markup, which decides what the form reset at script.js:247 leaves in the fields: `SaveClickDuringEdit` takes those values as arguments. `SaveEdit` models the edit's handler (script.js:273-291) on its own; what one save click in edit mode does, the create listener of script.js:224 first and then that handler, is `SaveClickDuringEdit`. A handler left registered after a rejected edit save, which runs again on later clicks, is not modelled.
- `Text.Lower`: folds only the ASCII letters A-Z, where `toLowerCase` folds all of Unicode.
- `Notes.Note`: ids are unbounded naturals; JavaScript numbers are doubles, and ids above 2^53 would lose precision.
- The tag text is taken as given; the whitespace `textContent` may carry from the markup is not modelled.
