# Realtime notes: the note store and its editing, versioning and sharing rules

This project models the logic of a realtime collaborative notes application that is more than
plumbing around the document store: how notes are created, edited, versioned, shared, deleted
and listed. Two parts of the front end carry that logic. Each is modelled on its own terms,
over one in-memory copy of the `notes` collection.

- **Dashboard page** (`frontend/pages/dashboard.js`, module `DashboardPage`, class `Dashboard`).
  - The page state is a class: the signed-in user, the input fields, the note being edited and
    the list of notes the two live queries delivered.
  - `handleAdd` rejects a blank text.
  - `saveEdit` appends the text it replaces to the note's inline `history` array.
  - `handleDelete` and `handleShare` are for the owner only. Sharing adds the trimmed,
    lower-cased address to `sharedWith` with set-union semantics.
  - Each snapshot is merged into the previous list through a `Map` keyed by id (module
    `NoteList`). The list is shown newest first. The history panel shows the last five
    entries, newest first.
- **Notes service** (`frontend/utils/notesService.js`, module `NotesService`).
  - `updateNote` patches only the string-typed `title`/`content` and then adds one record to
    the note's `history` subcollection.
  - `restoreVersion` is an `updateNote` with a version's fields.
  - `getMyNotes` filters by owner. `listenHistory` orders the records by `editedAt`, newest
    first.

Supporting modules:

- `Notes`: the shared document shape.
- `Store`: class `NoteStore`, the collection. It holds documents by id, the per-note history
  subcollections, and a counter that hands out fresh ids.
- `Text`: JavaScript's `trim`, `toLowerCase` and the `@` check.
- `Ordering`: a stable insertion sort by a natural-number key, largest first.
- `Wrappers`: `Option`.

Timestamps (`serverTimestamp()`, `new Date()`) are natural numbers passed in as `now`.
`createdAt` and `updatedAt` are `Option<nat>`, because a snapshot can carry a timestamp the
server has not yet assigned. Query results arrive as parameters: `ApplySnapshot(docs)`, and
the snapshot arguments of `ListenersListVisibleNotes`.

Behaviours of the code a reader might not expect:

- `notesService.js` `updateNote` (lines 51-56) records the values it was *given*, not the ones
  it replaces. So `restoreVersion` also records the restored values, not the state before the
  restore. `NotesService.CurrentFieldsAreLatestRecorded` states the consequence: the newest
  record that carries a field holds the note's current value of that field.
- `handleShare` (dashboard.js:164-166) does not refresh `updatedAt`. Only `handleAdd`,
  `saveEdit`, `addNote` and `updateNote` set it.
- Deleting a missing document succeeds and changes nothing (`deleteDoc` does not fail on a
  missing document). Editing a missing document fails, because `updateDoc` rejects it.
- Merging never removes an entry (`NoteList.MergeKeepsUnmentioned`). A note that was deleted
  or unshared after it was listed stays in the dashboard list until the page is reloaded.

## Model

| member | source | states |
|---|---|---|
| `Text.Trim` | frontend/pages/dashboard.js:98 | `trim()`: the input is a blank prefix, then the result, then a blank suffix; the result neither starts nor ends with ECMAScript whitespace |
| `Text.TrimEmptyIffBlank` | frontend/pages/dashboard.js:121 | `!s.trim()` holds exactly when `s` is empty or whitespace only |
| `Text.Lower` | frontend/pages/dashboard.js:165 | `toLowerCase()`: same length, each character lower-cased where it stands |
| `Text.LowerIdempotent` | frontend/pages/dashboard.js:165 | lower-casing twice equals lower-casing once |
| `Text.NormalizeKeepsAt` | frontend/pages/dashboard.js:160-165 | an address that passed the `@` check still contains `@` after `trim().toLowerCase()` |
| `Text.NormalizedEmailIsNormalized` | frontend/pages/dashboard.js:165 | the stored address is already trimmed and lower-cased, so normalizing it again changes nothing |
| `Notes.OwnedIds` | frontend/pages/dashboard.js:56-59 | the owner query selects exactly the documents whose `owner` is the uid |
| `Notes.SharedIds` | frontend/pages/dashboard.js:69-72 | the shared query selects exactly the documents whose `sharedWith` contains the user's e-mail; a user without an e-mail matches none |
| `Store.NoteStore.Add` | frontend/pages/dashboard.js:100-108 | `addDoc` stores the document under an id no document or history subcollection uses yet; nothing else changes |
| `Store.NoteStore.Put` | frontend/pages/dashboard.js:129-137 | `updateDoc` of an existing document replaces only that document |
| `Store.NoteStore.Remove` | frontend/pages/dashboard.js:150 | `deleteDoc` removes the document if present and leaves its history subcollection |
| `Store.NoteStore.AddVersion` | frontend/utils/notesService.js:51-56 | `addDoc` into a note's `history` subcollection appends exactly one record |
| `Ordering.SortDesc` | frontend/pages/dashboard.js:89-93 | sorting with a `tb - ta` comparator yields a permutation whose keys never increase |
| `NoteList.SortNewestFirst` | frontend/pages/dashboard.js:88-94 | `sortedNotes` is a permutation of the notes ordered by `updatedAt` seconds, else `createdAt` seconds, else 0, largest first |
| `NoteList.MapSet` | frontend/pages/dashboard.js:63 | `Map.set` adds the id once, keeps ids distinct, and afterwards the id maps to the new note while every other id keeps its value |
| `NoteList.SetAll` | frontend/pages/dashboard.js:62 | building a `Map` from entries: the ids are the union, and an id takes the value of its last entry, else its previous value |
| `NoteList.Merge` | frontend/pages/dashboard.js:61-65 | the merged list has each id once and holds the ids of the old list and of the snapshot; a snapshot document overwrites the entry with its id; an entry the snapshot lacks keeps its note |
| `NoteList.MergeSnapshot` | frontend/pages/dashboard.js:74-78 | the two loops (the `Map` built from the previous list, then `set` for each snapshot document) compute exactly `Merge`; both listeners run this code |
| `NoteList.MergeKeepsUnmentioned` | frontend/pages/dashboard.js:62-64 | corollary of `NoteList.Merge`'s contract, spelled out: an entry that is not in the snapshot is never removed and keeps the note it had |
| `NoteList.ListenersListVisibleNotes` | frontend/pages/dashboard.js:52-85 | after the owned and shared snapshots are merged, every note the user owns or that is shared with the user's e-mail is in the list exactly once, as stored; nothing else is added |
| `DashboardPage.Reverse` | frontend/pages/dashboard.js:290 | `reverse()` of a copy: entry `i` of the result is entry `n-1-i` of the input |
| `DashboardPage.RecentHistory` | frontend/pages/dashboard.js:290 | the history panel shows min(5, n) entries, newest first; the stored history is a value and stays as it was |
| `DashboardPage.ShareIdempotent` | frontend/pages/dashboard.js:164-166 | `arrayUnion` sharing is idempotent, adds the address, and leaves text, owner, history and `updatedAt` alone |
| `DashboardPage.EditsRecordPriorTexts` | frontend/pages/dashboard.js:129-137 | after any run of edits the history has grown by one entry per edit and old entries are untouched; new entry `i` holds the text from just before edit `i` ("" if none), its editor and time; the note holds the last text; owner and sharing are unchanged |
| `DashboardPage.HistoryShowsReplacedTextFirst` | frontend/pages/dashboard.js:132-136 | right after an edit, the first row of the history panel is the text the edit replaced |
| `DashboardPage.Dashboard.constructor` | frontend/pages/dashboard.js:26-36 | the page starts with empty inputs, no note being edited and an empty list |
| `DashboardPage.Dashboard.HandleAdd` | frontend/pages/dashboard.js:97-111 | with no user or a blank text nothing changes; otherwise exactly one new note under an id that neither a document nor a history subcollection uses yet: trimmed text, owner = uid, ownerEmail = e-mail, empty `sharedWith` and `history`, both timestamps `now`; the input is cleared |
| `DashboardPage.Dashboard.BeginEdit` | frontend/pages/dashboard.js:114-117 | the note becomes the one being edited, with its text ("" if none) in the edit box |
| `DashboardPage.Dashboard.SaveEdit` | frontend/pages/dashboard.js:120-141 | no-op without a note being edited or with a blank text; a missing document fails and changes nothing; otherwise only that note changes: trimmed text, `updatedAt` = now, one history entry holding the pre-edit text and the editor's e-mail or "unknown"; the edit state is cleared |
| `DashboardPage.Dashboard.HandleDelete` | frontend/pages/dashboard.js:144-151 | the document is removed iff there is a user and the note's owner is that user's uid; otherwise the store is unchanged |
| `DashboardPage.Dashboard.HandleShare` | frontend/pages/dashboard.js:154-169 | changes nothing unless the user is the owner, the address is non-empty and contains `@`, and the document exists; then only `sharedWith` gains the trimmed, lower-cased address and the input is cleared |
| `DashboardPage.Dashboard.ApplySnapshot` | frontend/pages/dashboard.js:60-66 | a delivered snapshot turns the list into `Merge(old list, snapshot)`, which keeps ids distinct |
| `NotesService.AddNote` | frontend/utils/notesService.js:16-27 | the note's fields are stored unchanged under an id that neither a document nor a history subcollection uses yet (so the new note has no version records), with `createdAt` = `updatedAt` = now; a failed write is swallowed and the store is unchanged |
| `NotesService.GetMyNotes` | frontend/utils/notesService.js:30-36 | exactly the documents whose `owner` is `userId`, as stored |
| `NotesService.AddedNoteInOwnersList` | frontend/utils/notesService.js:30-33 | a note added under a fresh id appears in its owner's `getMyNotes` result and in no other user's |
| `NotesService.UpdateNote` | frontend/utils/notesService.js:39-57 | a missing note is rejected with nothing written; otherwise only the string-typed `title`/`content` and `updatedAt` change, and exactly one record is appended holding the new string values, `editedAt` = now and the uid or "unknown" |
| `NotesService.RestoreVersion` | frontend/utils/notesService.js:70-76 | exactly `updateNote` with the version's `title` and `content` (none for a missing version) |
| `NotesService.RestoreBringsBackRecordedFields` | frontend/utils/notesService.js:73 | after a restore the note carries each field the version recorded and keeps the others; owner, text, sharing and inline history are untouched |
| `NotesService.ListenHistory` | frontend/utils/notesService.js:60-67 | the note's history records (none if it has none), permuted so that `editedAt` never increases |
| `NotesService.CurrentFieldsAreLatestRecorded` | frontend/utils/notesService.js:43-56 | after any run of updates, the note's title and content are those of the newest record that has them, else the originals; owner, text, sharing and inline history never change |

## Left out

- Firestore and Firebase Auth calls, live `onSnapshot` subscriptions and their teardown. The
  store is an in-memory class and a snapshot is a parameter. The order of Firestore query
  results is not modelled, so `getMyNotes` returns a map.
- The unguarded read-then-write in `saveEdit` (the `getDoc` then `updateDoc` race). Every
  handler is atomic.
- Store failures, except the one `addNote` catches (the `stored` parameter). Every other write
  succeeds unless its document is missing.
- Clocks and ISO date strings. Both are a natural number `now`.
- Firestore's auto-generated ids. The store numbers documents and hands out an unused number.
- `arrayUnion` de-duplication of dashboard history objects. Every edit appends its entry,
  since two entries would only coincide if they had the same `editedAt`.
- The display order of `sharedWith` (an array joined for display). It is a set here.
- Alerts, console messages, `handleLogout`, the loading flag and the history-panel toggle.
  These are UI and auth.
- Text.Lower: lower-cases ASCII `A`–`Z` only. JavaScript's `toLowerCase` also maps other
  Unicode letters.
- NoteList.SortNewestFirst: the stability of the order among notes with equal keys is not
  stated (the sort used is stable).
- NotesService.ListenHistory: among records with equal `editedAt`, Firestore orders by
  document id. The model keeps subcollection order and states only the `editedAt` order.
- `frontend/pages/index.js`, `login.js` and `register.js` are not part of this model. They
  are auth flows.
- `frontend/components/*` and `frontend/party/index.js` are not part of this model. They are
  views over a different service module.
- `frontend/pages/Room.js` is not part of this model. It is a provider wrapper.
- `backend/index.js`, `backend/routes/noteRoutes.js` and
  `backend/controller/socketController.js` are not part of this model. They are HTTP wiring
  and a thin database wrapper.
