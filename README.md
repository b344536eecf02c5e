# Notes store, modelled in Dafny

This project models the note store of a small browser notes app. The store is the `App` component's state: the `notes` array, `activeNoteId` and the search `query`. It also models the `snippet` helper that makes the body preview on a note card.

Layout:

- `app.dfy`: module `App`. The class `NoteStore` holds the three state fields and a ghost copy `persisted` of what local storage holds. Its methods are the handlers:
  - `Mount`: the first render plus the load effect;
  - `CreateNew`, `SaveNote`, `SelectNote`, `DeleteNote`;
  - `SetQuery`: the search box's setter.

  It also has the derived values `ActiveNote` and `FilteredNotes`. Every method that changes `notes` also writes `persisted := notes`, which is what the persistence effect does after each change.
- `notes.dfy`: module `Notes`. It holds the note record and the pure pieces of the handlers:
  - `safeParseJson` and the value the load effect works with;
  - `notes.find` by id;
  - the edit made by a save;
  - the `filter` done by a delete;
  - the delete confirmation text.

  It also states the store invariants (distinct ids, `createdAt <= updatedAt`) and the lemmas showing that each handler keeps them.
- `note_sort.dfy`: module `NoteSort`, the `[...notes].sort((a, b) => b.updatedAt - a.updatedAt)` copy. It is written as a stable insertion sort and proved:
  - sorted newest first;
  - a permutation of its input;
  - stable: notes with equal `updatedAt` keep their array order;
  - the only stable sort for this comparator. Any sorted, stable permutation equals it.
- `note_view.dfy`: module `NoteView`, the `filteredNotes` memo. It lower-cases and trims the query, sorts a copy, then filters by a case-insensitive substring test on title or body. The main proof shows that filtering commutes with the stable sort. The view is therefore the sorted list of exactly the selected notes.
- `js_string.dfy`: module `JsString`, the JavaScript string built-ins these use:
  - the `\s` character class (ECMAScript WhiteSpace and LineTerminator);
  - `trim`;
  - `replace(/\s+/g, " ")`;
  - `toLowerCase`;
  - `includes`.

  It also defines the words of a string (its maximal runs of non-whitespace characters) and their join with single spaces. These are the reference against which `replace(/\s+/g, " ")` followed by `trim` is proved.
- `note_item.dfy`: module `NoteItem`, `snippet(text, maxLen)` and the `|| "—"` placeholder of the note card.
- `scenarios.dfy`: module `Scenarios`, concrete stores:
  - a two-note search example;
  - a delete whose fallback note differs from the first note the sidebar shows.
- `options.dfy`: the `Option` type. `None` stands for JavaScript `null`/`undefined`, and for a `JSON.parse` that threw.

External inputs are parameters:

- `Date.now()` is `now`.
- `generateId()` is `id`.
- `window.confirm(...)` is `confirmed`. `DeleteNote` returns the question it would ask.
- The stored string is `raw`, and what `JSON.parse` makes of it is `parsed`.

Behaviour of the code that a reader might not expect, modelled as the code has it:

- **Delete fallback.** After deleting the active note, the code makes the first remaining note in array (storage) order active, not the first in display order. `DeleteNote` ensures `activeNoteId == FirstId(notes)`. `Scenarios.DeleteFallbackFollowsArrayOrder` exhibits a store where the two differ.
- **Select.** `handleSelectNote` sets the id whether or not a note has it, so the active note is then `null`. Selecting an unknown id is not a no-op. `SelectNote` models this.
- **Create.** The code's id generator is time- and random-based, so freshness is not guaranteed. `CreateNew` does not require a fresh id. It states that ids stay distinct when the id it is given is fresh.
- **Save.** The code saves into the active note: the handler takes no note id. A save changes every note whose id equals the active note's id; when ids are distinct, that is the active note alone. `SaveNote` models this.

## Model

| member | source | states |
|---|---|---|
| App.NoteStore.Mount | notes_frontend/src/App.js:45-52 | Starts from the empty store. If the loaded value is an array, `notes` becomes it and `activeNoteId` becomes its first id, or null when it is empty. Any other value leaves `notes == []` and no active id. Storage ends up holding `notes`. |
| App.NoteStore.CreateNew | notes_frontend/src/App.js:78-90 | `notes` becomes the new note (`"Untitled note"`, empty body, both timestamps `now`) followed by the old notes, unchanged and in order. The new id becomes active and the active note is the new note. Ids stay distinct when the given id is fresh. `createdAt <= updatedAt` is kept. The query is untouched and storage holds the new array. |
| App.NoteStore.SaveNote | notes_frontend/src/App.js:92-108 | With no active note, nothing changes. Otherwise `notes` becomes `ApplySave` with the active note's id. The active id and query are unchanged. Distinct ids are kept, and so is `createdAt <= updatedAt` when `now` is no earlier than every timestamp. Storage holds the new array. |
| App.NoteStore.SelectNote | notes_frontend/src/App.js:110-112 | The active id becomes the given id unconditionally. If a note has that id, the active note has it. If none does, the active note is null. |
| App.NoteStore.DeleteNote | notes_frontend/src/App.js:114-127 | The prompt names the note's title, or "this note". Unconfirmed, nothing changes. Confirmed: `notes` loses every note with the id. If the deleted id was active, the first remaining note in array order becomes active, or none. Otherwise the active id and the active note are unchanged. Ids stay distinct, `createdAt <= updatedAt` is kept, and storage holds the new array. |
| App.NoteStore.ActiveNote | notes_frontend/src/App.js:59-62 | The active note is null exactly when no note has the active id. Otherwise it is a note of the array whose id is the active id. |
| App.NoteStore.FilteredNotes | notes_frontend/src/App.js:64-76 | The sidebar list is newest first and holds the selected notes, each as often as in the array. |
| App.NoteStore.SetQuery | notes_frontend/src/App.js:137 | The query becomes the text, and nothing else changes. The sidebar then lists, newest first, the notes the new text selects. |
| Notes.SafeParseJson | notes_frontend/src/App.js:23-30 | A parsed value other than null is returned as is. When parsing threw or gave null, the result is the fallback. It is never null when the fallback is not. |
| Notes.LoadedValue | notes_frontend/src/App.js:46-47 | A missing or empty stored string, a parse failure or a parsed null gives `[]`. Otherwise the result is the parsed value. Never null. |
| Notes.FindNote | notes_frontend/src/App.js:60 | `notes.find` by id, scanning from the front. Its meaning is stated by the two lemmas below. |
| Notes.FindNoteFinds | notes_frontend/src/App.js:59-62 | The lookup yields null exactly when no note has the id; otherwise it yields a member of the array that has the id. |
| Notes.FindNoteIsFirst | notes_frontend/src/App.js:59-62 | The lookup yields the first note in array order that has the id. |
| Notes.SavedTitle | notes_frontend/src/App.js:101 | The saved title is never empty and has no surrounding whitespace. A blank title becomes "Untitled note". Any other title becomes its trim, with the same non-whitespace characters. |
| Notes.Edited | notes_frontend/src/App.js:96-107 | The record a save makes of one note: the saved title, the given body and `updatedAt == now`. Its meaning is stated by `SaveChangesOnlyMatching`. |
| Notes.ApplySave | notes_frontend/src/App.js:96-107 | The `map` a save does over the array. Its meaning is stated by `SaveChangesOnlyMatching`. |
| Notes.SaveChangesOnlyMatching | notes_frontend/src/App.js:96-107 | The length is kept. Notes with another id are unchanged at their index. Notes with the id keep `id` and `createdAt`, and get the saved title, the body as given and `updatedAt == now`. |
| Notes.SaveKeepsUniqueIds | notes_frontend/src/App.js:96-107 | A save keeps ids pairwise distinct. |
| Notes.SaveKeepsTimestampsOrdered | notes_frontend/src/App.js:95-107 | If `now` is no earlier than any stored timestamp, a save keeps `createdAt <= updatedAt` and keeps every timestamp at or before `now`. |
| Notes.Without | notes_frontend/src/App.js:120 | The `filter` a delete does. Its meaning is stated by the lemmas below. |
| Notes.WithoutMembers | notes_frontend/src/App.js:120 | The filtered array holds exactly the notes with another id, and is no longer than the original. |
| Notes.WithoutAppend | notes_frontend/src/App.js:120 | Removal distributes over concatenation, so the kept notes keep their relative order. |
| Notes.WithoutAbsent | notes_frontend/src/App.js:120 | Removing an id no note has leaves the array unchanged. |
| Notes.WithoutKeepsUniqueIds | notes_frontend/src/App.js:120 | Removal keeps ids pairwise distinct. |
| Notes.WithoutKeepsTimestampsOrdered | notes_frontend/src/App.js:120 | Removal keeps `createdAt <= updatedAt`. |
| Notes.FindAfterWithout | notes_frontend/src/App.js:120-126 | Removing one id does not change what a lookup of any other id (or null) yields. |
| Notes.FirstId | notes_frontend/src/App.js:124-125 | The fallback id is present exactly when notes remain, and the lookup of it yields the first remaining note. |
| Notes.DeletePrompt | notes_frontend/src/App.js:115-117 | When no note has the id, the question names "this note". Otherwise it names the title of the first note in array order that has the id. |
| Notes.PrependFreshKeepsUniqueIds | notes_frontend/src/App.js:89 | Putting a note with a fresh id in front keeps ids pairwise distinct. |
| NoteSort.SortNewestFirst | notes_frontend/src/App.js:66 | The copy is sorted by `updatedAt`, descending, and is a permutation of the notes. |
| NoteSort.InsertKeepsSorted | notes_frontend/src/App.js:66 | Inserting into a newest-first sequence keeps it newest first. |
| NoteSort.InsertAddsOne | notes_frontend/src/App.js:66 | Insertion adds exactly the inserted note to the multiset. |
| NoteSort.SortKeepsTies | notes_frontend/src/App.js:66 | For every timestamp, the notes with it appear in the sorted copy in their array order (stability). |
| NoteSort.StableSortIsUnique | notes_frontend/src/App.js:66 | Two sorted sequences that hold the same notes, with the same order among equal timestamps, are equal. |
| NoteSort.StableSortIsSortNewestFirst | notes_frontend/src/App.js:66 | Any sorted permutation of the notes that keeps the order of ties is this sort's result. |
| NoteView.NormalizedQuery | notes_frontend/src/App.js:65 | The trimmed, lower-cased query is empty exactly when the query holds only whitespace. |
| NoteView.Matches | notes_frontend/src/App.js:70-75 | The search test: the lower-cased title or the lower-cased body includes the query. |
| NoteView.Filter | notes_frontend/src/App.js:68-75 | The array `filter`. Its meaning is stated by `FilterMembers` (what it keeps and how often) and `FilterAppend` (in what order). |
| NoteView.FilterAppend | notes_frontend/src/App.js:70-75 | Filtering distributes over concatenation, so the kept notes keep their relative input order. |
| NoteView.Selected | notes_frontend/src/App.js:68-75 | All notes for a blank query, the matching notes otherwise. Its meaning is stated by `SelectedNotes`. |
| NoteView.FilterMembers | notes_frontend/src/App.js:70-75 | The filter keeps exactly the notes that pass the test, each as many times as it occurs in the input, and drops every other note. It never lengthens the list. |
| NoteView.FilterInsertKept | notes_frontend/src/App.js:66-75 | For a list sorted newest first and a note that passes the test, filtering after inserting the note equals inserting it into the filtered list. |
| NoteView.FilterInsertDropped | notes_frontend/src/App.js:66-75 | A note the filter drops leaves the filtered list as it was without it. |
| NoteView.FilterCommutesWithSort | notes_frontend/src/App.js:66-75 | Filtering the sorted copy equals sorting the filtered notes. |
| NoteView.SelectedNotes | notes_frontend/src/App.js:65-75 | A blank query selects every note. Any other selects exactly the notes whose lower-cased title or body includes the normalized query, each as many times as it occurs, and never more notes than there are. |
| NoteView.VisibleNotes | notes_frontend/src/App.js:64-76 | The view is the stable newest-first sort of the selected notes. |
| NoteView.VisibleBlankQuery | notes_frontend/src/App.js:65-68 | With a blank query the view is a permutation of all notes, newest first. |
| NoteView.VisibleWithQuery | notes_frontend/src/App.js:65-75 | With any other query the view is newest first. It holds exactly the matching notes, each as many times as it occurs in `notes`, and is no longer than `notes`. |
| NoteView.VisibleKeepsTies | notes_frontend/src/App.js:66 | Notes with equal `updatedAt` appear in the view in the order they have among the selected notes. For a blank query that is the array order; for any other, the selected notes keep array order by `FilterAppend`. |
| JsString.Trim | notes_frontend/src/App.js:65 | The trimmed string has no leading or trailing whitespace. |
| JsString.TrimStart | notes_frontend/src/components/NoteItem.js:18 | The result is a suffix of the input. What it drops is all whitespace, and it does not start with whitespace. |
| JsString.TrimEnd | notes_frontend/src/components/NoteItem.js:18 | The result is a prefix of the input. What it drops is all whitespace, and it does not end with whitespace. |
| JsString.TrimKeepsNonSpace | notes_frontend/src/components/NoteItem.js:18 | Trimming keeps every non-whitespace character, in order. |
| JsString.TrimEmptyIffBlank | notes_frontend/src/App.js:65-68 | A string trims to empty exactly when it holds only whitespace. |
| JsString.TrimPosition | notes_frontend/src/components/NoteItem.js:18 | The trimmed string is a contiguous slice of the input. |
| JsString.CollapseSpaces | notes_frontend/src/components/NoteItem.js:18 | After replacing whitespace runs: the result is empty exactly when the input is, and starts with whitespace exactly when the input does. No two whitespace characters are adjacent, and every whitespace character is a plain space. |
| JsString.CollapseKeepsNonSpace | notes_frontend/src/components/NoteItem.js:18 | Collapsing keeps every non-whitespace character, in order. |
| JsString.CollapseKeepsLastSpace | notes_frontend/src/components/NoteItem.js:18 | The collapsed string ends with whitespace exactly when the input does. |
| JsString.WordLengthIsMaximal | notes_frontend/src/components/NoteItem.js:18 | A word is a run of non-whitespace characters, and whitespace or the end of the string follows it. |
| JsString.WordsAreWords | notes_frontend/src/components/NoteItem.js:18 | Every word of a string is non-empty and holds no whitespace. |
| JsString.WordsAppend | notes_frontend/src/components/NoteItem.js:18 | Where whitespace or an end separates two strings, the words of the whole are the words of the first, then those of the second. |
| JsString.CollapseKeepsWords | notes_frontend/src/components/NoteItem.js:18 | Replacing whitespace runs keeps the words, in order. Only the whitespace between them changes. |
| JsString.WordsOfTrim | notes_frontend/src/components/NoteItem.js:18 | Trimming keeps the words, in order. |
| JsString.PlainIsJoinedWords | notes_frontend/src/components/NoteItem.js:18 | A trimmed string whose whitespace is single plain spaces is its words joined by one space. |
| JsString.TrimKeepsNoDoubleSpace | notes_frontend/src/components/NoteItem.js:18 | Trimming keeps the absence of adjacent whitespace. |
| JsString.TrimKeepsPlainSpaces | notes_frontend/src/components/NoteItem.js:18 | Trimming keeps every whitespace character a plain space. |
| JsString.ToLower | notes_frontend/src/App.js:65 | Lower-casing keeps the length and maps each character on its own. |
| JsString.Includes | notes_frontend/src/App.js:72-73 | `includes`, trying each start position from the left. Its meaning is stated by the two lemmas below. |
| JsString.OccurrenceIsIncluded | notes_frontend/src/App.js:72-73 | If the substring occurs at any position, `includes` is true. |
| JsString.IncludedOccurs | notes_frontend/src/App.js:72-73 | If `includes` is true, the substring occurs at some position, and not at any earlier one. |
| NoteItem.TextOrEmpty | notes_frontend/src/components/NoteItem.js:18 | `text ?? ""`: a null text reads as the empty string. |
| NoteItem.CleanIsJoinedWords | notes_frontend/src/components/NoteItem.js:18 | The cleaned text is the words of the input (null read as ""), in order, joined by single spaces. |
| NoteItem.Clean | notes_frontend/src/components/NoteItem.js:18 | The cleaned text is trimmed and has no two adjacent whitespace characters. Its only whitespace is plain spaces. It keeps every non-whitespace character of the input (null read as ""), in order. |
| NoteItem.Snippet | notes_frontend/src/components/NoteItem.js:17-21 | The result is at most `maxLen + 1` long. Cleaned text that fits is returned as is. Otherwise the result is the first `maxLen` characters of the cleaned text followed by "…". |
| NoteItem.SnippetEmptyIffBlank | notes_frontend/src/components/NoteItem.js:17-21 | The snippet is empty exactly when the text is null or holds only whitespace. |
| NoteItem.CardPreview | notes_frontend/src/components/NoteItem.js:38 | A blank body shows "—". Any other body shows its 90-character snippet, which is not empty. |
| Scenarios.SearchExample | notes_frontend/src/App.js:64-76 | Notes "Shopping"/"milk" (updated at 10) and "Work"/"report" (updated at 20): the blank query shows Work then Shopping, and the query "MILK " shows only Shopping. |
| Scenarios.DeleteFallbackFollowsArrayOrder | notes_frontend/src/App.js:123-126 | Deleting the active note A from [A, B, C], with C the newest and B the oldest, makes B active although the sidebar lists C first. |

## Left out

- Local storage and `JSON.stringify` are not modelled. Persistence is the ghost field `persisted`, set to `notes` after every change. Save-then-reload round trips through JSON are therefore not modelled.
- `JSON.parse` is a parameter: its result, or `None` when it throws. The shape of a parsed array's elements is not checked by the code. The model takes every element to be a note.
- Mount: the two effects and three state setters of the first render are one constructor. Re-render timing, the effects' dependency lists and the stale `notes` closure of `handleDeleteNote` are not modelled. Handlers run one at a time on the current state, so the closure and `prev` are the same array.
- `Date.now()`, `generateId()` and `window.confirm()` are parameters: `now`, `id` and `confirmed`.
- JsString.ToLower: lower-cases only the ASCII letters `A`–`Z`. Full Unicode case mapping is not modelled, because it needs the Unicode tables.
- String lengths count Unicode scalar values, not UTF-16 code units. `snippet`'s `slice` can cut a surrogate pair in the source; the model cannot.
- NoteItem.Snippet: `maxLen` is a natural number. The source's behaviour for a negative `maxLen` (slicing from the end) is not modelled; the only caller passes 90.
- NoteSort.SortNewestFirst: timestamps are integers. A missing or non-numeric `updatedAt` would make the comparator return `NaN`, which is not modelled.
- The React rendering, JSX, the other components, `formatDate` and NoteForm's push-on-change effect are not modelled. They are presentation, not store logic.
