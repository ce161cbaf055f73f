# Offline-first notes: a verified model of the sync engine

This project is a Dafny model of the sync engine behind a local-first notes
app written in JavaScript (React). Notes live in a browser object store
(IndexedDB). An in-memory projection of them (a reducer) drives the UI. A
server receives each note when the app is online. The model covers these
pieces of the app:

- **Deduplication and merge** (`src/utils/noteUtils.js`). `Dedup` is a
  specification function over lists. It keeps one note per id, the latest by
  `updatedAt`, and the first on a tie. `Merge` is the one-shot last-writer-wins
  reconciliation with the server, in which an unsynced local note is never
  overwritten. Each is also written as the loop over a JavaScript `Map` that
  the source runs (`DeduplicateNotes`, `MergeNotesFromServer`). Each loop is
  proved equal to its function. The `Map`'s insertion order is modelled by
  `JsMap.NoteMap`.
- **Reducer** (`src/reducers/notesReducer.js`). `Reduce` is a pure transition
  function over a datatype of actions. `NotesView` holds the state that
  `dispatch` updates, with a log of the actions dispatched.
- **Local store** (`src/utils/indexedDB.js`). `NoteStore` is a class holding
  a map from id to record. It also keeps the keys in ascending order, which is
  the order in which IndexedDB returns records. It models:
  - `add`, which refuses an existing key;
  - `put`, an upsert;
  - `get`, `getAll`, `delete` and `clear`;
  - the normalisation applied to notes on the way in and out;
  - the "needs sync" scan by cursor, and its fallback to filtering `getAll`.

  Any storage request can fail: its outcome is chosen nondeterministically.
- **Sync orchestrator** (`src/hooks/useNoteSync.js`). `SyncHook` holds the
  set of ids in flight and the debounce table. `syncNote` is split at its
  `await` into `BeginSync` (the single-flight guard, then `"syncing"`) and
  `FinishSync` (`"synced"` or `"error"`). `SyncNote` runs both halves in
  sequence. `SyncAll` is the sequential sweep, which always lowers `isSyncing`
  at the end. The server is `RemoteApi.Remote`. Each call to it succeeds or
  fails nondeterministically. The model records each push with the server's
  reply, each delete, and each fetch with its result.
- **Provider** (`src/Providers/NotesProvider.js`). It models:
  - `createNote`, `updateNote` and `deleteNote`;
  - the once-only initial load, which dedups, sorts most recent first,
    merges when online, and writes the merge back;
  - the reconnect effect;
  - the debounce table, with explicit `Arm`, `Cancel` and `Fire` events.

Timestamps are integers, and a missing timestamp is `None`. Every
`new Date(a) > new Date(b)` becomes `Later(a, b)`, which is false when either
timestamp is missing, as a `NaN` comparison is. The current time and new ids
are parameters.

## Model

| member | source | states |
|---|---|---|
| NoteModel.MarkSynced | src/utils/noteUtils.js:20-24 | the copy has `synced` true and status `synced`; every other field is the note's own |
| NoteModel.LaterIsStrict | src/utils/noteUtils.js:5 | the timestamp comparison `new Date(a) > new Date(b)` is a strict order (irreflexive, asymmetric, transitive), and a note without a timestamp is neither later nor earlier than any other |
| NoteModel.Put | src/utils/noteUtils.js:8 | a `Map.set` on the list of values: the ids grow by the note's id, one note per id is kept, and a lookup of that id afterwards gives the note |
| NoteModel.PutOther | src/utils/noteUtils.js:8 | a write to one id leaves the lookup of every other id unchanged |
| NoteModel.PutNew | src/utils/noteUtils.js:8 | setting a new key appends at the end, as `Map` insertion order does |
| NoteModel.Lookup | src/utils/noteUtils.js:19 | a found entry is in the list and has the id; nothing is found exactly when no entry has the id |
| JsMap.NoteMap.Set | src/utils/noteUtils.js:8 | `map.set(id, note)` keeps the map well formed: distinct keys in insertion order, each mapped to a note with that id |
| JsMap.NoteMap.Values | src/utils/noteUtils.js:11 | `Array.from(map.values())` lists one note per key, in key insertion order |
| JsMap.ValuesUnique | src/utils/noteUtils.js:11 | the values of a map have one note per id |
| JsMap.HasGet | src/utils/noteUtils.js:5-6 | `has` and `get` agree with a lookup in the list of values |
| JsMap.SetValues | src/utils/noteUtils.js:8 | `set` on the map is `Put` on its list of values, so the loops can be related to the list functions |
| NoteUtils.Dedup | src/utils/noteUtils.js:1-12 | the result has one note per id, and its ids are exactly the input's |
| NoteUtils.DedupSubset | src/utils/noteUtils.js:3-11 | every note of the result is a note of the input |
| NoteUtils.KeepNewerKeepsNoOlder | src/utils/noteUtils.js:4-9 | one turn of the dedup loop never makes the entry for any id older: a note that was no later than its id's entry stays so |
| NoteUtils.KeepNewerKeepsLast | src/utils/noteUtils.js:4-9 | after one turn of the dedup loop the note just seen has an entry for its id that it is not later than |
| NoteUtils.DedupNoOlder | src/utils/noteUtils.js:4-8 | every input note's id has an entry, and the input note is not strictly later than that entry |
| NoteUtils.DedupKeepsNewest | src/utils/noteUtils.js:4-8 | no input note is strictly later than the note kept for its id |
| NoteUtils.DedupKeepsFirstOfLatest | src/utils/noteUtils.js:4-8 | with every timestamp present, the kept note occurs at or before every input note for its id that is not strictly older, so the first of the latest wins a tie |
| NoteUtils.DedupFirstOccurrenceOrder | src/utils/noteUtils.js:8-11 | the output lists ids in the order of their first occurrence in the input |
| NoteUtils.DedupOfUnique | src/utils/noteUtils.js:1-12 | a list with one note per id is returned unchanged |
| NoteUtils.DedupIdempotent | src/utils/noteUtils.js:1-12 | deduplicating twice is deduplicating once |
| NoteUtils.DedupTwo | src/utils/noteUtils.js:4-8 | of two notes with one id, the strictly later one is kept in either order; on equal timestamps the first is kept |
| NoteUtils.DeduplicateNotes | src/utils/noteUtils.js:1-12 | the `Map` loop returns exactly `Dedup` of its input |
| NoteUtils.LoadLocal | src/utils/noteUtils.js:16 | the first merge loop yields one note per id and the local ids |
| NoteUtils.LoadLocalOfUnique | src/utils/noteUtils.js:16 | local notes with one note per id are loaded as they are |
| NoteUtils.ServerWins | src/utils/noteUtils.js:25-29 | a server note never wins against an unsynced local entry, and never against an entry it is not strictly later than, an undated one included |
| NoteUtils.AdoptServer | src/utils/noteUtils.js:19-31 | one turn of the server loop keeps one note per id and adds the server id; an unsynced entry is left as it is; any change installs the server note marked synced |
| NoteUtils.ApplyServer | src/utils/noteUtils.js:18-32 | the server loop keeps one note per id and adds the server's ids |
| NoteUtils.Merge | src/utils/noteUtils.js:14-35 | the reconciled list has one note per id, and its ids are the local ids together with the server ids |
| NoteUtils.MergeIds | src/utils/noteUtils.js:14-35 | the merge has one note per id, and its ids are the union of the local and server ids |
| NoteUtils.ApplyServerKeepsUnsynced | src/utils/noteUtils.js:25-28 | an unsynced entry survives every server note |
| NoteUtils.MergeKeepsUnsyncedLocal | src/utils/noteUtils.js:25-28 | a local note with `synced` false is in the merge unchanged, whatever the server's timestamp |
| NoteUtils.ApplyServerOnlyWhen | src/utils/noteUtils.js:18-32 | an entry after the server loop is the one before it, or a server note for that id that won against it, marked synced |
| NoteUtils.MergeOnlyWhen | src/utils/noteUtils.js:20-30 | a merged entry differs from the local one only when a server note replaced it: the local note was missing, or was synced and strictly older; the replacement is marked synced |
| NoteUtils.ApplyServerOtherIds | src/utils/noteUtils.js:18-32 | server notes for other ids leave an entry alone |
| NoteUtils.ApplyServerIfWins | src/utils/noteUtils.js:25-30 | a server note that wins against the current entry ends up in the result, marked synced |
| NoteUtils.MergeIfServerWins | src/utils/noteUtils.js:25-30 | if the local note is missing, or is synced and strictly older, the merge holds the server note marked synced |
| NoteUtils.MergeTieKeepsLocal | src/utils/noteUtils.js:28 | on equal timestamps the local note is kept |
| NoteUtils.MergeNotesFromServer | src/utils/noteUtils.js:14-35 | the two `Map` loops return exactly `Merge` of the inputs |
| NotesReducer.ReplaceById | src/reducers/notesReducer.js:11-13 | position by position, the entry with the payload's id becomes the payload and the others stay |
| NotesReducer.WithStatus | src/reducers/notesReducer.js:38-42 | position by position, the entry with the id gets the status and the others stay |
| NotesReducer.RemoveById | src/reducers/notesReducer.js:31 | a note is kept exactly when it was present and has another id |
| NotesReducer.Reduce | src/reducers/notesReducer.js:3-55 | after SET_NOTES, ADD_NOTE, UPDATE_NOTE or SET_SYNC_STATUS the notes have one entry per id; DELETE_NOTE keeps that; SET_SYNCING and SET_LOADING set their flag to the payload and leave the notes alone; each flag changes only under its own action; unknown actions change nothing |
| NotesReducer.RemoveKeepsUnique | src/reducers/notesReducer.js:31 | filtering keeps one note per id |
| NotesReducer.RemoveByIdAppend | src/reducers/notesReducer.js:31 | filtering distributes over concatenation |
| NotesReducer.DeleteNoteRemoves | src/reducers/notesReducer.js:28-32 | DELETE_NOTE removes every entry with the id and keeps the rest in their order |
| NotesReducer.AddNoteNew | src/reducers/notesReducer.js:8-16 | ADD_NOTE with a new id puts the payload at the head |
| NotesReducer.ReplaceUnique | src/reducers/notesReducer.js:11-13 | with one note per id, the replacement changes exactly the one matching position |
| NotesReducer.AddNoteExisting | src/reducers/notesReducer.js:8-16 | ADD_NOTE with a present id replaces that entry where it stands |
| NotesReducer.AddNoteIds | src/reducers/notesReducer.js:8-16 | ADD_NOTE shows the payload's id, and no other id appears or goes |
| NotesReducer.UpdateNoteKeepsIds | src/reducers/notesReducer.js:18-26 | UPDATE_NOTE never inserts: the ids are unchanged |
| NotesReducer.SetSyncStatusKeepsIds | src/reducers/notesReducer.js:34-44 | SET_SYNC_STATUS neither adds nor removes an id |
| NotesReducer.UpdateNoteInPlace | src/reducers/notesReducer.js:18-26 | with one note per id, UPDATE_NOTE replaces the matching entry in place, or changes nothing when no entry matches |
| NotesReducer.SetSyncStatusOnlyStatus | src/reducers/notesReducer.js:34-44 | SET_SYNC_STATUS changes only the `syncStatus` of the matching note; `synced` and every other field stay |
| NotesReducer.SetNotesInstalls | src/reducers/notesReducer.js:5-6 | SET_NOTES installs the deduplicated payload and leaves both flags alone |
| NotesReducer.NotesView.Dispatch | src/reducers/notesReducer.js:3-55 | the state becomes the reducer applied to the old state, and the action is logged |
| LocalStore.KeyLessIrreflexive | src/utils/indexedDB.js:111 | the key order used for records is irreflexive |
| LocalStore.KeyLessTransitive | src/utils/indexedDB.js:111 | the key order is transitive |
| LocalStore.KeyLessTotal | src/utils/indexedDB.js:111 | any two distinct keys are ordered |
| LocalStore.InsertKey | src/utils/indexedDB.js:79 | a new key enters the ordered key list at its place: the list stays sorted and gains exactly that key |
| LocalStore.RemoveKey | src/utils/indexedDB.js:188 | a deleted key leaves the ordered key list, which stays sorted |
| LocalStore.NormalizeForWrite | src/utils/indexedDB.js:47-52 | the written note has a status, defaulting to `unsynced`, and a timestamp, defaulting to the current time; every other field is kept |
| LocalStore.NormalizeForRead | src/utils/indexedDB.js:116-120 | the read copy defaults a missing status to `unsynced` and keeps everything else, `updatedAt` included |
| LocalStore.NormalizeForWriteFixpoint | src/utils/indexedDB.js:71-76 | a note that already has a status and a timestamp is written as it is |
| LocalStore.PutRecord | src/utils/indexedDB.js:71-79 | a write adds the note's id to the keys, stores a record carrying a status and a timestamp under it, and leaves every other record alone |
| LocalStore.ReadAfterWrite | src/utils/indexedDB.js:116-120 | a read gives back exactly what a write stored |
| LocalStore.PutTwice | src/utils/indexedDB.js:71-81 | putting a note a second time leaves the records as putting it once |
| LocalStore.ReadAll | src/utils/indexedDB.js:114-121 | `getAllNotes` returns every stored note in key order, each normalised for reading |
| LocalStore.NeedsSync | src/utils/indexedDB.js:146-150 | a note with `synced` false always needs sync; one that is synced with status `synced` never does |
| LocalStore.Filter | src/utils/indexedDB.js:169-174 | a note is kept exactly when it is in the input and needs sync |
| LocalStore.CursorScan | src/utils/indexedDB.js:138-162 | the cursor pass returns no more notes than are stored, each of which needs sync |
| LocalStore.FallbackScan | src/utils/indexedDB.js:164-178 | the fallback returns only notes that need sync |
| LocalStore.CursorScanMembers | src/utils/indexedDB.js:141-161 | the cursor scan returns exactly the read copies of the stored notes that need sync |
| LocalStore.FallbackScanMembers | src/utils/indexedDB.js:164-177 | the fallback returns exactly the read copies that need sync |
| LocalStore.FilterAppend | src/utils/indexedDB.js:169-174 | filtering distributes over appending one note |
| LocalStore.ScansAgree | src/utils/indexedDB.js:146-150 | when every stored note has a status, the cursor scan and the fallback return the same list |
| LocalStore.PutRecordWritten | src/utils/indexedDB.js:71-81 | a write keeps every record carrying a status and a timestamp |
| LocalStore.ScansDifferWithoutStatus | src/utils/indexedDB.js:146-177 | a synced note stored without a status is skipped by the cursor but returned by the fallback |
| LocalStore.NoteStore.Snapshot | src/utils/indexedDB.js:111 | the stored notes in ascending key order |
| LocalStore.NoteStore.WrittenScansAgree | src/utils/indexedDB.js:131-180 | in a store whose records all went through a write, both scan paths return the same list |
| LocalStore.NoteStore.SetRecord | src/utils/indexedDB.js:79 | the record for the id is set, and the key order stays sorted |
| LocalStore.NoteStore.Add | src/utils/indexedDB.js:41-63 | an existing id fails with a constraint error and changes nothing; on success the normalised note is stored and returned |
| LocalStore.NoteStore.Put | src/utils/indexedDB.js:65-87 | on success the normalised note is stored under its id, replacing any record there, and returned; a failure changes nothing |
| LocalStore.NoteStore.Get | src/utils/indexedDB.js:89-103 | the raw stored record, or none for a missing id |
| LocalStore.NoteStore.GetAll | src/utils/indexedDB.js:105-129 | the read copies of all records, in key order |
| LocalStore.NoteStore.GetUnsynced | src/utils/indexedDB.js:131-180 | the cursor scan's list, or the fallback's after a cursor error |
| LocalStore.NoteStore.GetUnsyncedWithRange | src/utils/indexedDB.js:227-263 | the same lists as `getUnsyncedNotes`, which the range query always falls back to |
| LocalStore.NoteStore.Delete | src/utils/indexedDB.js:182-196 | on success the id is absent and every other record is unchanged |
| LocalStore.NoteStore.Clear | src/utils/indexedDB.js:198-212 | on success the store is empty |
| RemoteApi.Remote.CreateOrUpdate | src/utils/api.js:78-92 | the note is sent, and the call and its outcome are recorded |
| RemoteApi.Remote.Delete | src/utils/api.js:94-101 | the id is sent, and the call is recorded |
| RemoteApi.Remote.FetchNotes | src/utils/api.js:18-21 | the result, a list or a failure, is recorded; nothing is pushed or deleted |
| NoteSync.SyncedCopy | src/hooks/useNoteSync.js:26-31 | the server's copy laid over the local note, forced to `synced` true and status `synced`; a timestamp the server lacks comes from the local note |
| NoteSync.SweepPushes | src/hooks/useNoteSync.js:53-55 | a note is pushed exactly when it is in the batch and its id is not in flight |
| NoteSync.SweepPushesIdle | src/hooks/useNoteSync.js:53-55 | with nothing in flight, the sweep pushes every note of the batch, in order, marked synced |
| NoteSync.SweepPushesUnique | src/hooks/useNoteSync.js:52-55 | a deduplicated batch pushes each id at most once |
| NoteSync.SyncedCopyOfPushed | src/hooks/useNoteSync.js:20-31 | the copy stored after a push is the same whether built from the local note or from the note as pushed, marked synced |
| NoteSync.SweptStoreStep | src/hooks/useNoteSync.js:26-33 | after one more push and its reply, each record is still the old one or was written by one of the pushes, as the synced copy of the pushed note over the server's recorded reply to it; no record is lost |
| NoteSync.SyncHook.BeginSync | src/hooks/useNoteSync.js:11-17 | an id already in flight changes nothing; otherwise the id is claimed and `syncing` is dispatched for it |
| NoteSync.SyncHook.FinishSync | src/hooks/useNoteSync.js:26-43 | on success the synced copy is stored, dispatched and returned; on a server or store failure only `error` is dispatched and the store is untouched; the id is released on every path |
| NoteSync.SyncHook.SyncNote | src/hooks/useNoteSync.js:10-44 | an id in flight makes no call and no dispatch; otherwise the note is pushed marked synced, `syncing` is dispatched first, then `synced` or `error`; on success the synced copy is stored, on failure the store is untouched; the ids shown and the in-flight set are as before |
| NoteSync.SyncHook.SweepOne | src/hooks/useNoteSync.js:53-55 | one `syncNote` of the sweep adds its push (unless the id is in flight) and its reply, and keeps the store the old one or written by the recorded pushes from their replies |
| NoteSync.SyncHook.Sweep | src/hooks/useNoteSync.js:53-55 | the pushes are those of `SweepPushes` for the batch, one recorded reply each; no record is lost, and each record is the old one or the synced copy of one of those pushes over the server's reply to it; both flags stay |
| NoteSync.SyncHook.Refresh | src/hooks/useNoteSync.js:57-58 | when the store can be read, the projection becomes the deduplicated store contents |
| NoteSync.SyncHook.SweepUnsynced | src/hooks/useNoteSync.js:51-58 | the batch is the deduplicated result of one of the two scans, or empty; its pushes are made, and each record is the old one or the synced copy of one of them over its recorded reply; after a refresh the projection is the deduplicated store |
| NoteSync.SyncHook.SyncAll | src/hooks/useNoteSync.js:46-64 | offline nothing happens; online `isSyncing` is raised first and lowered last on every path, the pushes are those of the sweep, and each record is the old one or the synced copy of one of those pushes over its recorded reply |
| NotesProvider.Arm | src/Providers/NotesProvider.js:84-92 | arming keeps one timer per id: the id's old entry is replaced by the new note, and other ids keep theirs |
| NotesProvider.Cancel | src/Providers/NotesProvider.js:99-102 | the id loses its timer; other ids keep theirs |
| NotesProvider.Fire | src/Providers/NotesProvider.js:88-91 | a fired timer yields the note it captured, and its entry is removed; an id without a timer yields nothing |
| NotesProvider.ArmAllHoldsLast | src/Providers/NotesProvider.js:84-92 | after a burst of edits the table holds the last one for the id |
| NotesProvider.BurstCoalesces | src/Providers/NotesProvider.js:83-93 | a burst of edits yields one push, of the last edit; the entry is then gone and a second firing yields nothing |
| NotesProvider.CancelThenFire | src/Providers/NotesProvider.js:99-102 | a cancelled timer pushes nothing |
| NotesProvider.Insert | src/Providers/NotesProvider.js:31-33 | an insertion step of the sort only adds the one note |
| NotesProvider.SortByRecency | src/Providers/NotesProvider.js:31-33 | the sort is a permutation of its input |
| NotesProvider.InsertDescending | src/Providers/NotesProvider.js:31-33 | inserting into a most-recent-first list keeps it so |
| NotesProvider.SortByRecencyDescending | src/Providers/NotesProvider.js:31-33 | with every timestamp present, the sorted list is most recent first |
| NotesProvider.SortKeepsIds | src/Providers/NotesProvider.js:31-33 | sorting keeps the ids, and one note per id |
| NotesProvider.LocalList | src/Providers/NotesProvider.js:31-33 | the list shown first has one note per id and the stored ids |
| NotesProvider.LocalListInstalled | src/Providers/NotesProvider.js:34 | SET_NOTES with the local list installs it in its sorted order |
| NotesProvider.WriteBack | src/Providers/NotesProvider.js:39 | the write-back of a list loses no record, and each record is either the old one or a normalised write |
| NotesProvider.WriteBackFrame | src/Providers/NotesProvider.js:39 | the write-back adds the merged ids and leaves every other record alone |
| NotesProvider.WriteBackStores | src/Providers/NotesProvider.js:39 | after the write-back each merged note is stored, normalised |
| NotesProvider.NewNote | src/Providers/NotesProvider.js:56-64 | a new note gets the title `Untitled` and empty content by default, the current time, `synced` false and status `unsynced` |
| NotesProvider.Edited | src/Providers/NotesProvider.js:73-79 | the stored note overlaid with the edit, re-stamped, `synced` false and status `unsynced` |
| NotesProvider.Provider.WriteBackAll | src/Providers/NotesProvider.js:39 | when every `put` succeeds, the store is the write-back of the merged list |
| NotesProvider.Provider.ShowLocal | src/Providers/NotesProvider.js:31-34 | when the store can be read, the projection shows its notes deduplicated and most recent first |
| NotesProvider.Provider.MergeWithServer | src/Providers/NotesProvider.js:36-41 | one fetch is made; on success the list it returned is merged with the local list, written back and shown |
| NotesProvider.Provider.LoadBody | src/Providers/NotesProvider.js:31-41 | the local list comes from the store; offline nothing is fetched and it is what is shown; online exactly one fetch is made, and the merge with the list it returned is written back and shown |
| NotesProvider.Provider.FinishLoad | src/Providers/NotesProvider.js:43-44 | the load is marked done and `isLoading` is lowered |
| NotesProvider.Provider.LoadNotes | src/Providers/NotesProvider.js:27-45 | a second load changes nothing and fetches nothing; a first load raises `isLoading` first; a completed load lowers it last, and shows the local list offline (with no fetch) or, online, the written-back merge with the list its one fetch returned |
| NotesProvider.Provider.SetOnline | src/Providers/NotesProvider.js:50-54 | `syncAll` runs exactly on a change to online after the initial load; then `isSyncing` is raised first and lowered last, the batch is one of the scans deduplicated (or empty), its pushes are made, and the store changes only by their synced copies |
| NotesProvider.Provider.CreateNote | src/Providers/NotesProvider.js:56-69 | the new note is added (refused for an existing id) before ADD_NOTE is dispatched, and its id is then both stored and shown; offline the projection is ADD_NOTE applied; online it is pushed unless in flight, and the store holds the note or, after a successful push, its synced copy as well |
| NotesProvider.Provider.UpdateNote | src/Providers/NotesProvider.js:71-96 | the stored note overlaid with the edit is written, and the projection becomes UPDATE_NOTE applied to it; online its timer is re-armed with it; a missing id fails and changes nothing |
| NotesProvider.Provider.DeleteNote | src/Providers/NotesProvider.js:98-114 | the id's timer is cancelled on every path; on success the record goes, the projection becomes DELETE_NOTE applied, so no entry with the id is shown, and online the server is asked to delete, whatever it answers |
| NotesProvider.Provider.FireTimer | src/Providers/NotesProvider.js:88-91 | without a timer, or with its note in flight, nothing but the table changes; otherwise the captured note is pushed, `syncing` then `synced` or `error` is dispatched, and on success its synced copy is stored; the entry is removed and the ids shown stay |

## Left out

- HTTP (`src/utils/api.js`): `fetch`, the existence probes and `APIError` are replaced by `RemoteApi.Remote`, whose calls succeed or fail nondeterministically. A successful push returns an arbitrary server copy.
- Opening and upgrading the database (`initDB`, `ensureDBReady`) and the module-level connection cache: browser API calls.
- The `synced` index path of `getUnsyncedNotesWithRange`. `IDBKeyRange.only(false)` throws because a boolean is not a valid key. So the function always falls back to the cursor method, which is what `GetUnsyncedWithRange` does.
- UI code (components, `App.jsx`, the context), `useOnlineStatus` and `console` logging. The online flag is a field set by `SetOnline`.
- Real time and promise interleaving. Timers are explicit `Arm`/`Cancel`/`Fire` events, and the 500 ms delay is not modelled. `syncNote` after a create and `syncAll` on reconnect are run to completion before the caller returns. A `syncNote` suspended at its `await` is expressible only through `BeginSync`/`FinishSync`.
- ISO-8601 parsing, `new Date()` and `uuidv4`: timestamps are integers, and the current time and a new id are parameters. A falsy but present field (an empty string timestamp, say) is not distinguished from a missing one.
- Key order: string keys are compared by Unicode code point, not by UTF-16 code unit as IndexedDB does. The two orders differ only for characters outside the Basic Multilingual Plane.
- NotesProvider.SortByRecency: stability (notes with equal timestamps keep their input order) is built in but not proved. Where a timestamp is missing, the comparator yields `NaN` and the engine's order is implementation-defined; the model fixes one order.
- NotesProvider.NoteUpdate: only `title` and `content`, the fields the editor passes; other fields in `updates` are not modelled.
- NoteSync.SyncHook.SyncAll: its contract states the pushes, the replies, the flags and the store. It does not state the per-note status actions in the log, which `SyncNote` states.
- NoteSync.SyncHook.Sweep: does not state the per-note status actions in the log, for the same reason as `SyncAll`. It also does not say which push wrote which record when two pushes' replies carry the same id.
- NoteSync.SyncHook.SweepUnsynced: does not state the per-note status actions in the log, as for `Sweep`.
- NotesProvider.Provider.LoadNotes: a failed read, fetch or write ends the load with `isLoading` still raised and the load not marked done, as an exception escaping the effect does.
- RemoteApi.Remote.FetchNotes: returns any list or a failure; only the recording of the result is stated.
