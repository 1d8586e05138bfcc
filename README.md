# Easy Note: a verified model of the note store and the edit session

This project models the core of a React Native note-taking app in Dafny.

- **The note store** (`hooks/useNotes.ts`) keeps an ordered list of notes and a `loading` flag. Each note has an `id`, `title`, `content`, `createdAt` and `updatedAt`. The store also keeps one persisted entry under the key `"notes"`. `addNote` appends a note, `updateNote` rewrites the notes with a given id, and `deleteNote` filters them out. Each of them writes the whole new list back to storage. `loadNotes` fills the list from that entry.
- **The home screen** (`app/index.tsx`) holds the edit session. This is a working copy made of `selectedNote`, `title`, `plainText`, `editorState` and `isEditorVisible`. Opening a note or pressing "new" seeds the working copy. Save commits it to the store through create or update. Cancel discards it. The screen also has a case-insensitive search over titles and contents, and a search bar that `toggleSearch` opens and closes.

Files:

- `options.dfy`: `Option`, the model of `T | null`.
- `seqs.dfy`: `Filter`, the meaning of `Array.prototype.filter`. It is order preserving and keeps multiplicities. Delete and search both use it.
- `decimal.dfy`: the decimal text of the clock reading, `Date.now().toString()`, which becomes a new note's id. It comes with its inverse and an injectivity proof.
- `notes.dfy`: the `Note` record, the pure list edits `Updated` and `Without`, and lemmas about ids. The class `NoteStore` has the fields `notes`, `loading` and `stored`. The file ends with a verified client walkthrough of the store's create, update and delete cycle, with a reload from storage after each write.
- `home_screen.dfy`: ASCII lower-casing, `Includes`, `Search`, and the class `EditSession`, which holds the store. The file ends with a verified client walkthrough that saves a new untitled note typed into the editor.

Clock reads and storage are not ambient. `Date.now()` and each `new Date()` are method parameters. The storage entry is the field `NoteStore.stored`, of type `Absent | Document(notes) | Unparseable`. A rejected `getItem` is the parameter `readFails` of `LoadNotes`.

The key invariant is **write-through**. After `AddNote`, `UpdateNote` and `DeleteNote`, `Persisted()` holds: the stored document equals the in-memory list. A `LoadNotes` that follows returns that same list. The edit session keeps its own invariant, `EditSession.Valid()`. The notes are loaded. A hidden editor holds an empty working copy. A selected note is one of the store's notes.

## Model

| member | source | states |
|---|---|---|
| Seqs.Filter | hooks/useNotes.ts:52 | the result holds only elements that pass the test; each passing element occurs as often as in the input and each failing one not at all; the result is an order-preserving subsequence of the input |
| Seqs.FilterKeepsAll | hooks/useNotes.ts:52 | filtering with a test every element passes returns the list unchanged |
| Seqs.FilterAgrees | app/index.tsx:61-65 | two tests that agree on every element of the list select the same result |
| Decimal.DecimalString | hooks/useNotes.ts:28 | the id text of a clock reading is non-empty, all digits, and starts with '0' exactly when the reading is 0 |
| Decimal.DecimalRoundTrip | hooks/useNotes.ts:28 | reading back the decimal text of a reading gives that reading |
| Decimal.DecimalStringInjective | hooks/useNotes.ts:28 | two different clock readings never produce the same id |
| Notes.Updated | hooks/useNotes.ts:42-46 | the list keeps its length; a note with another id is unchanged; a note with the id keeps its id and createdAt and gets the new title and content, and as updatedAt the clock reading taken at its own position (one `new Date()` per rewritten note); the id is present afterwards exactly when it was before; an absent id leaves the list unchanged |
| Notes.Without | hooks/useNotes.ts:52 | no remaining note has the id; the result is an order-preserving subsequence; every note with another id keeps its multiplicity; an absent id leaves the list unchanged |
| Notes.UpdatedKeepsIds | hooks/useNotes.ts:42-46 | an update leaves the sequence of ids exactly as it was, so unique ids stay unique |
| Notes.SubsequenceKeepsUniqueIds | hooks/useNotes.ts:52 | dropping notes from a list with unique ids leaves unique ids |
| Notes.WithoutRemovesOne | hooks/useNotes.ts:52 | with unique ids, deleting removes exactly one note when the id is present and none otherwise, and ids stay unique |
| Notes.FreshClockGivesFreshId | hooks/useNotes.ts:27-35 | if every existing id was made from an earlier clock reading, the new id is carried by no note, and appending keeps ids unique |
| Notes.NoteStore.constructor | hooks/useNotes.ts:6-7 | the hook starts with an empty list and loading set, over whatever storage already holds |
| Notes.NoteStore.LoadNotes | hooks/useNotes.ts:13-24 | a stored document replaces the list; a missing entry, an unparseable entry or a failed read leaves the list as it was; loading is false afterwards in every case; storage is not written; a load after a write returns the written list |
| Notes.NoteStore.AddNote | hooks/useNotes.ts:26-39 | the returned note has the decimal clock id, the given title and content and the two Date readings; the list is the old list with exactly that note appended; storage holds the new list |
| Notes.NoteStore.UpdateNote | hooks/useNotes.ts:41-49 | the list becomes Updated of the old list under the per-position clock readings, and storage holds the new list |
| Notes.NoteStore.DeleteNote | hooks/useNotes.ts:51-55 | the list becomes Without of the old list, and storage holds the new list |
| HomeScreen.Lower | app/index.tsx:63-64 | same length; no ASCII upper-case letter remains; only upper-case letters change, each to its lower-case partner |
| HomeScreen.Includes | app/index.tsx:63-64 | true exactly when the needle occurs at some position of the haystack |
| HomeScreen.Search | app/index.tsx:61-65 | keeps a note exactly when its lower-cased title or lower-cased content includes the lower-cased query; keeps multiplicities and store order; the empty query returns every note |
| HomeScreen.SearchIgnoresCase | app/index.tsx:61-65 | two queries that lower-case alike select the same notes |
| HomeScreen.EditSession.constructor | app/index.tsx:20-27 | the screen starts with a loaded store, a closed editor over an empty working copy, an empty query and a hidden search bar |
| HomeScreen.EditSession.ToggleSearch | app/index.tsx:29-39 | flips search visibility; clears the query exactly when the bar was hidden before; keeps the working copy |
| HomeScreen.EditSession.OnSearchChanged | app/index.tsx:82-89 | typing into the open search bar sets the query and nothing else |
| HomeScreen.EditSession.OpenNote | app/index.tsx:107-112 | pressing a listed note selects it, seeds plainText and title from it and shows the editor; editorState and the search bar are unchanged |
| HomeScreen.EditSession.NewNote | app/index.tsx:115-121 | the working copy becomes empty with the editor shown |
| HomeScreen.EditSession.OnTitleChanged | app/index.tsx:158-161 | typing in the title field sets the working title and nothing else |
| HomeScreen.EditSession.OnTextChanged | components/dom-components/rich-text-field.tsx:22-25 | the editor's change sets plainText and editorState to the same text and nothing else |
| HomeScreen.EditSession.Cancel | app/index.tsx:144-150 | the editor closes over an empty working copy; the store's list and storage are untouched |
| HomeScreen.EditSession.OnDeletePress | app/index.tsx:102-105 | the delete button changes neither the store nor the working copy |
| HomeScreen.EditSession.Save | app/index.tsx:40-51 | with a selected note: update under its id, with the working title or else the note's own title, and content from plainText; the note is still present. With no selection: append a note with the working title or else "New Note", content from plainText and the clock id. The editor state never reaches the store. Storage holds the new list, and the editor closes over an empty working copy |

## Left out

- AsyncStorage and JSON are abstracted. `getItem` and `setItem` are asynchronous foreign calls. `JSON.stringify` and `JSON.parse` are library code. The stored entry is modelled as the list itself (`Document`), as text that fails to parse (`Unparseable`), or as a missing key (`Absent`). A rejected read is a parameter. The stored empty string is falsy, so the truthiness check at hooks/useNotes.ts:16 skips it. It then has the same effect as a missing entry, and it is folded into `Unparseable`.
- Timestamps are integers (milliseconds since the epoch). A JSON round trip turns each `Date` into an ISO string, and a reloaded note holds strings in `createdAt` and `updatedAt`. The model does not distinguish the two forms.
- The clock is a parameter. `updateNote` calls `new Date()` once for each note it rewrites, so `UpdateNote` and `Save` take a clock function from list position to reading, and notes that share an id can get different `updatedAt` values. `addNote` reads the clock three times: `Date.now()` for the id and one `new Date()` each for `createdAt` and `updatedAt`. Separate reads can differ, so `createdAt == updatedAt` holds only when the caller passes equal readings, as the walkthrough does. Nothing guarantees that two saves in the same millisecond get different ids. `FreshClockGivesFreshId` therefore takes a later clock as its hypothesis and proves no more than that.
- Decimal.DecimalString: `Number.prototype.toString` switches to exponent notation at 10^21. A millisecond clock reading never reaches that, so only the plain decimal form is modelled.
- Overlapping asynchronous mutations are not modelled. Two saves in flight could each compute from a stale `notes` closure. Mutations are modelled as running one after another.
- Storage write failures are not modelled. A rejected `setItem` is not caught at its call site. The model treats every write as completing.
- HomeScreen.Lower: `toLowerCase` is modelled over ASCII letters only. Unicode case mapping is not modelled.
- HomeScreen.Search: it lower-cases through `HomeScreen.Lower`, so it inherits that ASCII-only restriction.
- The loading screen (app/index.tsx:52-60) is only rendering. The model starts the session after loading, which `EditSession.Valid()` records.
- The `requires isEditorVisible` on `Save`, `OnTitleChanged` and `OnTextChanged` stands for the fact that these inputs exist only inside the editor modal. The `requires isSearchVisible` on `OnSearchChanged` stands for the same fact about the search field. The `requires note in FilteredNotes()` on `OpenNote` stands for the fact that only listed notes can be pressed.
- The search-bar animation (`Animated.spring`, `interpolate`) and all styles are out of scope, because they are presentation and floating point.
- components/dom-components/plugins/ToolbarPlugin.tsx and components/dom-components/plugins/TreeViewPlugin.tsx are not part of this model. The toolbar only forwards commands to a rich-text library that is not visible here, and the tree view is an empty placeholder.
- components/NoteList.tsx and components/FloatingActionButton.tsx are not part of this model. They are rendering and date formatting. Their callbacks are modelled as `OpenNote`, `OnDeletePress` and `NewNote`.
- The store's `deleteNote` is modelled and verified. The screen never calls it, because its delete button only logs (`OnDeletePress`).
