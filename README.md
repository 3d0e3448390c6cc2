# PeNote notes store and sync step, in Dafny

This project models the core of PeNote, an offline-first Android note app.
The core is three things:

- a local table of notes keyed by id (the Room `NoteDao`);
- the repository on top of it, with its one-round `syncNotes` step;
- the mappers between the three note shapes and the note-building and
  state rules of the two ViewModels.

The server's reply to `POST notes/sync` is an input value, not a network call:
`Throws(e) | Response(isSuccessful, body: Option<SyncResponseDto>)`.

Files and modules:

- `model.dfy`, module `NoteModel`: the records `Note`, `NoteEntity`, `NoteDto`,
  `SyncRequestDto`, `SyncResponseDto`. It also holds `Date` (a millisecond
  instant, as `java.util.Date` is), `Exception` (an optional message) and
  `DateFormat`. `DateFormat` is the mapper's shared `SimpleDateFormat`, with
  `format` and `parse` left uninterpreted. `parse` yields a date, yields null,
  or throws.
- `mapper.dfy`, module `NoteMapper`: the four `NoteMapper` conversions.
- `table.dfy`, module `NoteTable`: the table as a `map<string, NoteEntity>`.
  It also has the pure effect of each write and the lemmas about those effects.
- `dao.dfy`, module `LocalStore`: class `NoteDao`. Its `rows` field is the
  table, and its methods are the DAO's queries and writes.
- `repository.dfy`, module `Repository`: class `NotesRepositoryImpl`. `Sync`
  is the pure function that specifies `syncNotes`; the lemmas about `Sync` are
  the sync properties.
- `viewmodels.dfy`, module `ViewModels`: classes `NotesViewModel` and
  `NoteDetailViewModel`, the note constructors and `FindById`.

The repository has two copies, `com.rkt.penote` and `com.example.notesapp`.
Their `NotesRepositoryImpl.kt` and `NoteMapper.kt` are the same line for line,
apart from package names. One model serves both. The table cites the
`com.rkt.penote` copy; the `NoteDao.kt` rows cite `com.example.notesapp`.

How `syncNotes` is specified: the method has a ghost out-parameter `batch`,
the unsynced rows in the order the query returned them. Its postcondition
says two things:

- `batch` lists exactly the unsynced rows (`IsUnsyncedListing`);
- the new table, the request sent and the outcome equal `Sync(old rows, batch, reply, fmt, now)`.

Behaviour of the code worth knowing:

- Unparseable timestamps. `DateFormat.parse(String)` throws on unparseable
  text, so the `?: Date()` fallback in `dtoToDomain` fires only when `parse`
  returns null. The model keeps both paths. A server record with an
  unparseable timestamp makes `dtoToDomain` raise. In `syncNotes` this
  happens after the `markAsSynced` loop. The batch therefore stays marked
  synced, no server note is inserted, and the exception propagates
  (`Repository.SyncBadServerTimestamp`).
- Duplicate ids in the reply. If the reply lists the same id twice, the later
  record wins, because rows are inserted one after the other with REPLACE
  (`Repository.SyncServerCopyWins`).
- The server's notes are merged only when there was something to send. With
  no unsynced rows, `syncNotes` returns before any request is made.

## Model

| member | source | states |
|---|---|---|
| `NoteModel.MessageOr` | app/src/main/java/com/rkt/penote/ui/viewmodel/NotesViewModel.kt:46 | `e.message ?: fallback`: the exception's message, or the fallback when it has none; used by every error state of both ViewModels (also NotesViewModel.kt:83, 94, 104 and NoteDetailViewModel.kt:28, 44) |
| `NoteMapper.EntityToDomain` | app/src/main/java/com/rkt/penote/data/mapper/NoteMapper.kt:12-21 | the domain note carrying the row's six fields; its properties are stated by `EntityDomainInverse` |
| `NoteMapper.DomainToEntity` | app/src/main/java/com/rkt/penote/data/mapper/NoteMapper.kt:23-32 | the table row carrying the note's six fields; its properties are stated by `EntityDomainInverse` |
| `NoteMapper.ParseOrNow` | app/src/main/java/com/rkt/penote/data/mapper/NoteMapper.kt:39-40 | `parse(text) ?: Date()`: the parsed date, `now` on a null result, or a failure carrying the parse's exception |
| `NoteMapper.DtoToDomain` | app/src/main/java/com/rkt/penote/data/mapper/NoteMapper.kt:34-43 | the synced note for a server record, parsing `createdAt` and then `updatedAt`; the first parse that throws is raised; stated by `DtoToDomainIsSynced` and `DtoToDomainTimestamps` |
| `NoteMapper.DomainToDto` | app/src/main/java/com/rkt/penote/data/mapper/NoteMapper.kt:45-53 | the wire record with id, title, content and both timestamps formatted; stated by `DomainToDtoDropsSynced` |
| `NoteMapper.EntityDomainInverse` | app/src/main/java/com/rkt/penote/data/mapper/NoteMapper.kt:12-32 | both conversions copy id, title, content, both timestamps and the synced flag, and they undo each other (a bijection) |
| `NoteMapper.EntitiesToDomain` | app/src/main/java/com/rkt/penote/data/repository/NotesRepositoryImpl.kt:21-22 | the mapped list has one note per row, in order, and each maps back to its row |
| `NoteMapper.DomainsToEntity` | app/src/main/java/com/rkt/penote/data/repository/NotesRepositoryImpl.kt:62 | the mapped list has one row per note, in order, and each maps back to its note |
| `NoteMapper.DtoToDomainIsSynced` | app/src/main/java/com/rkt/penote/data/mapper/NoteMapper.kt:34-43 | a note built from a server record is synced and keeps the record's id, title and content |
| `NoteMapper.DtoToDomainTimestamps` | app/src/main/java/com/rkt/penote/data/mapper/NoteMapper.kt:39-40 | conversion raises exactly when a timestamp's parse throws, with the creation timestamp's exception if that one fails and otherwise the update timestamp's; a timestamp becomes `now` exactly when its parse yields null |
| `NoteMapper.DomainToDtoDropsSynced` | app/src/main/java/com/rkt/penote/data/mapper/NoteMapper.kt:45-53 | the wire record keeps id, title and content, carries both formatted timestamps, and is the same whatever the synced flag |
| `NoteMapper.DtoRoundTripKeepsText` | app/src/main/java/com/rkt/penote/data/mapper/NoteMapper.kt:34-53 | whenever domain→wire→domain yields a note, it keeps id, title and content and is synced, whatever the date format does |
| `NoteMapper.DtoRoundTrip` | app/src/main/java/com/rkt/penote/data/mapper/NoteMapper.kt:34-53 | if the format parses its own output, domain→wire→domain gives back the same note with synced set |
| `NoteTable.Upsert` | app/src/main/java/com/example/notesapp/data/local/dao/NoteDao.kt:18-19 | `@Insert(onConflict = REPLACE)` of one row: the row is stored under its id; stated by `UpsertReplaces` |
| `NoteTable.UpdateExisting` | app/src/main/java/com/example/notesapp/data/local/dao/NoteDao.kt:24-25 | `@Update`: replaces the row with the same key, if any; stated by `UpdateExistingOnlyThatRow` |
| `NoteTable.RemoveId` | app/src/main/java/com/example/notesapp/data/local/dao/NoteDao.kt:27-31 | `@Delete` and `deleteNoteById`: the table without that key; stated by `RemoveIdOnlyThatRow` |
| `NoteTable.MarkSynced` | app/src/main/java/com/example/notesapp/data/local/dao/NoteDao.kt:33-34 | `UPDATE notes SET isSynced = 1 WHERE id = :id`; stated by `MarkSyncedOnlyThatRow` |
| `NoteTable.MarkEach` | app/src/main/java/com/rkt/penote/data/repository/NotesRepositoryImpl.kt:56-58 | `markAsSynced` applied to each id in list order; stated by `MarkEachAt` |
| `NoteTable.UpsertEach` | app/src/main/java/com/example/notesapp/data/local/dao/NoteDao.kt:21-22 | `insertNotes` with REPLACE: the rows inserted in list order; stated by `UpsertEachIsOverlay` and `UpsertEachIdempotent` |
| `NoteTable.InsertNewestFirst` | app/src/main/java/com/example/notesapp/data/local/dao/NoteDao.kt:9 | inserting a row into a newest-first listing keeps it newest-first, and the result holds exactly the old elements plus that row, counted as a multiset |
| `NoteTable.WritesKeepWellKeyed` | app/src/main/java/com/example/notesapp/data/local/dao/NoteDao.kt:18-34 | every single write keeps each row under its own id, so no two rows share an id |
| `NoteTable.MarkEachKeepsWellKeyed` | app/src/main/java/com/rkt/penote/data/repository/NotesRepositoryImpl.kt:56-58 | marking a list of ids keeps rows under their own ids |
| `NoteTable.UpsertEachKeepsWellKeyed` | app/src/main/java/com/example/notesapp/data/local/dao/NoteDao.kt:21-22 | a batch insert keeps rows under their own ids |
| `NoteTable.UpsertReplaces` | app/src/main/java/com/example/notesapp/data/local/dao/NoteDao.kt:18-19 | insert-replace puts the row under its id, leaves every other row alone, and inserting twice equals inserting once |
| `NoteTable.UpdateExistingOnlyThatRow` | app/src/main/java/com/example/notesapp/data/local/dao/NoteDao.kt:24-25 | `@Update` replaces only the row with that id, adds no row, and is a no-op when the id is absent |
| `NoteTable.RemoveIdOnlyThatRow` | app/src/main/java/com/example/notesapp/data/local/dao/NoteDao.kt:27-31 | delete removes that id only and is a no-op when it is absent |
| `NoteTable.MarkSyncedOnlyThatRow` | app/src/main/java/com/example/notesapp/data/local/dao/NoteDao.kt:33-34 | mark-synced sets the flag of that row only, keeps its other fields, and is a no-op when the id is absent |
| `NoteTable.MarkEachAt` | app/src/main/java/com/rkt/penote/data/repository/NotesRepositoryImpl.kt:56-58 | marking ids one after the other sets the flag of exactly the present listed rows, and adds or removes no row |
| `NoteTable.KeyedKeys` | app/src/main/java/com/example/notesapp/data/local/dao/NoteDao.kt:21-22 | the rows of a list, keyed by id, cover exactly the list's ids |
| `NoteTable.KeyedLast` | app/src/main/java/com/example/notesapp/data/local/dao/NoteDao.kt:21-22 | among rows of a list with the same id, the last one is the one kept |
| `NoteTable.KeyedFromList` | app/src/main/java/com/example/notesapp/data/local/dao/NoteDao.kt:21-22 | every kept row comes from the list and carries its key as id |
| `NoteTable.UpsertEachIsOverlay` | app/src/main/java/com/example/notesapp/data/local/dao/NoteDao.kt:21-22 | inserting a list one row after another equals overlaying the table with the list keyed by id |
| `NoteTable.UpsertEachIdempotent` | app/src/main/java/com/example/notesapp/data/local/dao/NoteDao.kt:21-22 | inserting the same list twice gives the same table as inserting it once |
| `NoteTable.ListingIds` | app/src/main/java/com/example/notesapp/data/local/dao/NoteDao.kt:15-16 | a listing of the unsynced rows shows exactly the unsynced ids, and it is empty exactly when no row is unsynced |
| `LocalStore.NoteDao.constructor` | app/src/main/java/com/example/notesapp/data/local/dao/NoteDao.kt:7-8 | a new table is empty and keyed by id |
| `LocalStore.NoteDao.GetAllNotes` | app/src/main/java/com/example/notesapp/data/local/dao/NoteDao.kt:9-10 | returns every row exactly once (as many entries as rows, each the stored row), ordered by `updatedAt` newest first |
| `LocalStore.NoteDao.GetNoteById` | app/src/main/java/com/example/notesapp/data/local/dao/NoteDao.kt:12-13 | returns the row with that id, or null exactly when there is none; reads only |
| `LocalStore.NoteDao.GetUnsyncedNotes` | app/src/main/java/com/example/notesapp/data/local/dao/NoteDao.kt:15-16 | returns exactly the rows with `isSynced == false`, each once; reads only |
| `LocalStore.NoteDao.InsertNote` | app/src/main/java/com/example/notesapp/data/local/dao/NoteDao.kt:18-19 | the new table is the old one with the row inserted, replacing on id conflict |
| `LocalStore.NoteDao.InsertNotes` | app/src/main/java/com/example/notesapp/data/local/dao/NoteDao.kt:21-22 | the new table is the old one with the rows inserted in order, each replacing on conflict |
| `LocalStore.NoteDao.UpdateNote` | app/src/main/java/com/example/notesapp/data/local/dao/NoteDao.kt:24-25 | only the row with the note's id is replaced; no such row, no change |
| `LocalStore.NoteDao.DeleteNote` | app/src/main/java/com/example/notesapp/data/local/dao/NoteDao.kt:27-28 | the row with the note's primary key is removed, if present |
| `LocalStore.NoteDao.DeleteNoteById` | app/src/main/java/com/example/notesapp/data/local/dao/NoteDao.kt:30-31 | the row with that id is removed, if present |
| `LocalStore.NoteDao.MarkAsSynced` | app/src/main/java/com/example/notesapp/data/local/dao/NoteDao.kt:33-34 | that row alone gets `isSynced = true`, other fields unchanged; no-op when absent |
| `Repository.Accepted` | app/src/main/java/com/rkt/penote/data/repository/NotesRepositoryImpl.kt:52-54 | a reply is acted on only when the status is successful, the body is non-null and `success` is true |
| `Repository.Sync` | app/src/main/java/com/rkt/penote/data/repository/NotesRepositoryImpl.kt:42-71 | the whole effect of `syncNotes` on a table whose unsynced rows were read as the batch: the new table, the request sent (if any) and whether it completes or raises; stated by the `Sync…` lemmas below |
| `Repository.RequestDtos` | app/src/main/java/com/rkt/penote/data/repository/NotesRepositoryImpl.kt:47-49 | the request has one record per unsynced row, in order, each the row's domain form put on the wire |
| `Repository.ServerNotes` | app/src/main/java/com/rkt/penote/data/repository/NotesRepositoryImpl.kt:61 | converting the server's records fails exactly when one record fails; on success there is one note per record, in order |
| `Repository.ServerNotesFirstFailure` | app/src/main/java/com/rkt/penote/data/repository/NotesRepositoryImpl.kt:61 | a failed conversion raises the exception of the first record whose conversion throws, and every record before it converts |
| `Repository.SyncWithNothingUnsynced` | app/src/main/java/com/rkt/penote/data/repository/NotesRepositoryImpl.kt:45-46 | with no unsynced row, nothing is sent, the table is unchanged and the call completes |
| `Repository.RequestCopiesBatch` | app/src/main/java/com/rkt/penote/data/repository/NotesRepositoryImpl.kt:47-49 | the i-th request record has the i-th batch row's id, title and content, with its timestamps formatted |
| `Repository.RequestIdsAreBatchIds` | app/src/main/java/com/rkt/penote/data/repository/NotesRepositoryImpl.kt:47-49 | the request's ids are the batch's ids, in order |
| `Repository.SyncRequestIsBatch` | app/src/main/java/com/rkt/penote/data/repository/NotesRepositoryImpl.kt:45-49 | with unsynced rows, the request is sent, holds one record per batch row, and its ids are exactly the unsynced ids |
| `Repository.SyncThrowLeavesTable` | app/src/main/java/com/rkt/penote/data/repository/NotesRepositoryImpl.kt:51-70 | a thrown API call is raised again and leaves the table, and so the unsynced set, unchanged |
| `Repository.SyncRejectedLeavesTable` | app/src/main/java/com/rkt/penote/data/repository/NotesRepositoryImpl.kt:52-54 | an unsuccessful status, a null body or `success == false` completes and leaves the table unchanged |
| `Repository.ServerRows` | app/src/main/java/com/rkt/penote/data/repository/NotesRepositoryImpl.kt:61-62 | rows built from the server's notes carry the records' ids in order, and all are synced |
| `Repository.SyncAcceptedRows` | app/src/main/java/com/rkt/penote/data/repository/NotesRepositoryImpl.kt:56-62 | after an accepted reply the table is the marked table, overlaid with the server rows when they all convert |
| `Repository.SyncAcceptedMarksBatch` | app/src/main/java/com/rkt/penote/data/repository/NotesRepositoryImpl.kt:56-58 | after an accepted reply every id of the unsynced batch is still present and synced |
| `Repository.MarkBatchEffect` | app/src/main/java/com/rkt/penote/data/repository/NotesRepositoryImpl.kt:56-58 | marking the ids of the unsynced listing sets the flag of exactly the unsynced rows, keeps their other fields and adds or removes no row |
| `Repository.SyncServerCopyWins` | app/src/main/java/com/rkt/penote/data/repository/NotesRepositoryImpl.kt:61-62 | after an accepted reply whose records all convert, the sync completes and the row under each server id is the last server record with that id, converted with its timestamps and synced, replacing the local row |
| `Repository.SyncBadServerTimestamp` | app/src/main/java/com/rkt/penote/data/repository/NotesRepositoryImpl.kt:56-62 | after an accepted reply with an unconvertible record, the batch is marked, nothing else changes, and the conversion's exception is raised: by `ServerNotesFirstFailure`, that of the first record that fails |
| `Repository.SyncOthersUntouched` | app/src/main/java/com/rkt/penote/data/repository/NotesRepositoryImpl.kt:56-62 | a row neither in the batch nor in the reply keeps its exact value |
| `Repository.SyncAddsOnlyServerRows` | app/src/main/java/com/rkt/penote/data/repository/NotesRepositoryImpl.kt:56-62 | no row appears after a sync that was neither present before nor sent by the server |
| `Repository.SyncKeepsWellKeyed` | app/src/main/java/com/rkt/penote/data/repository/NotesRepositoryImpl.kt:42-71 | sync keeps every row under its own id (no duplicate rows) |
| `Repository.SyncAcceptedLeavesNothingUnsynced` | app/src/main/java/com/rkt/penote/data/repository/NotesRepositoryImpl.kt:56-62 | after an accepted reply no row of the table is unsynced |
| `Repository.SyncTwiceSendsNothing` | app/src/main/java/com/rkt/penote/data/repository/NotesRepositoryImpl.kt:45-62 | a second sync right after an accepted one, with no edit between, sends nothing and changes nothing |
| `Repository.NotesRepositoryImpl.constructor` | app/src/main/java/com/rkt/penote/data/repository/NotesRepositoryImpl.kt:15-18 | holds the given DAO; the API service is replaced by the `reply` input of `SyncNotes` |
| `Repository.NotesRepositoryImpl.GetAllNotes` | app/src/main/java/com/rkt/penote/data/repository/NotesRepositoryImpl.kt:20-24 | one snapshot of the notes stream: each row once as a domain note, newest first |
| `Repository.NotesRepositoryImpl.GetNoteById` | app/src/main/java/com/rkt/penote/data/repository/NotesRepositoryImpl.kt:26-28 | the mapped row with that id, or null exactly when there is none |
| `Repository.NotesRepositoryImpl.AddNote` | app/src/main/java/com/rkt/penote/data/repository/NotesRepositoryImpl.kt:30-32 | the note's row is inserted, replacing on id conflict |
| `Repository.NotesRepositoryImpl.UpdateNote` | app/src/main/java/com/rkt/penote/data/repository/NotesRepositoryImpl.kt:34-36 | only an existing row with the note's id is replaced |
| `Repository.NotesRepositoryImpl.DeleteNote` | app/src/main/java/com/rkt/penote/data/repository/NotesRepositoryImpl.kt:38-40 | the row with the note's id is removed, if present |
| `Repository.NotesRepositoryImpl.GetUnsyncedNotes` | app/src/main/java/com/rkt/penote/data/repository/NotesRepositoryImpl.kt:73-75 | exactly the notes whose `isSynced` is false, each once, mapped from their rows |
| `Repository.NotesRepositoryImpl.SyncNotes` | app/src/main/java/com/rkt/penote/data/repository/NotesRepositoryImpl.kt:42-71 | the batch read lists exactly the unsynced rows, and the new table, request and outcome are those of `Sync` on the old table |
| `Repository.NotesRepositoryImpl.MarkBatch` | app/src/main/java/com/rkt/penote/data/repository/NotesRepositoryImpl.kt:56-58 | calls `markAsSynced` on each batch id in order; the table becomes `MarkEach` of the batch's ids |
| `Repository.NotesRepositoryImpl.SendBatch` | app/src/main/java/com/rkt/penote/data/repository/NotesRepositoryImpl.kt:47-65 | for a non-empty batch: sends the request, marks each batch id in turn on an accepted reply, then inserts the converted server rows, exactly as `Sync` says |
| `ViewModels.NewNote` | app/src/main/java/com/rkt/penote/ui/viewmodel/NotesViewModel.kt:73-80 | the note `addNote` builds; stated by `NewNoteIsUnsynced` |
| `ViewModels.EditedCopy` | app/src/main/java/com/rkt/penote/ui/viewmodel/NotesViewModel.kt:91 | `note.copy(updatedAt = Date(), isSynced = false)`, also at NoteDetailViewModel.kt:40; stated by `EditedCopyIsUnsynced` |
| `ViewModels.NewNoteIsUnsynced` | app/src/main/java/com/rkt/penote/ui/viewmodel/NotesViewModel.kt:73-80 | a new note has the given id, title and content, both timestamps `now`, and is unsynced |
| `ViewModels.EditedCopyIsUnsynced` | app/src/main/java/com/rkt/penote/ui/viewmodel/NotesViewModel.kt:91 | an edit keeps id, title, content and creation time, sets `updatedAt` to now and clears `isSynced` |
| `ViewModels.EditsAreUnsynced` | app/src/main/java/com/rkt/penote/ui/viewmodel/NoteDetailViewModel.kt:40-41 | after adding a note or editing a present one, that id is unsynced; adding adds exactly that id to the unsynced set, editing adds it only when present, and deleting removes only it, so no local write marks any row synced |
| `ViewModels.FindById` | app/src/main/java/com/rkt/penote/ui/viewmodel/NoteDetailViewModel.kt:31 | the first note whose id matches, or none exactly when no note matches |
| `ViewModels.NotesViewModel.constructor` | app/src/main/java/com/rkt/penote/ui/viewmodel/NotesViewModel.kt:27-34 | starts in Loading, not offline, not syncing |
| `ViewModels.NotesViewModel.OnNotes` | app/src/main/java/com/rkt/penote/ui/viewmodel/NotesViewModel.kt:48-50 | each emission sets `Success(notes)` |
| `ViewModels.NotesViewModel.OnNotesFailure` | app/src/main/java/com/rkt/penote/ui/viewmodel/NotesViewModel.kt:45-47 | a stream failure sets Error with the message, or "Unknown error" |
| `ViewModels.NotesViewModel.OnConnectivity` | app/src/main/java/com/rkt/penote/ui/viewmodel/NotesViewModel.kt:57-61 | afterwards `isOffline == !isConnected`; a sync runs exactly when connected, and otherwise the table is unchanged |
| `ViewModels.NotesViewModel.SyncNotes` | app/src/main/java/com/rkt/penote/ui/viewmodel/NotesViewModel.kt:109-121 | runs the repository sync, surfaces no exception, leaves the screen state alone, and `isSyncing` is false afterwards |
| `ViewModels.NotesViewModel.AddNote` | app/src/main/java/com/rkt/penote/ui/viewmodel/NotesViewModel.kt:70-86 | inserts the new unsynced note, or on a storage failure changes nothing and shows the message or "Failed to add note" |
| `ViewModels.NotesViewModel.UpdateNote` | app/src/main/java/com/rkt/penote/ui/viewmodel/NotesViewModel.kt:88-97 | stores the edited unsynced copy over the existing row, or on failure shows the message or "Failed to update note" |
| `ViewModels.NotesViewModel.DeleteNote` | app/src/main/java/com/rkt/penote/ui/viewmodel/NotesViewModel.kt:99-107 | removes the note's row, or on failure shows the message or "Failed to delete note" |
| `ViewModels.NoteDetailViewModel.constructor` | app/src/main/java/com/rkt/penote/ui/viewmodel/NoteDetailViewModel.kt:21 | starts in Loading |
| `ViewModels.NoteDetailViewModel.OnNotes` | app/src/main/java/com/rkt/penote/ui/viewmodel/NoteDetailViewModel.kt:30-33 | each emission sets `Success` of the first note with the id, or `Success(null)` |
| `ViewModels.NoteDetailViewModel.OnNotesFailure` | app/src/main/java/com/rkt/penote/ui/viewmodel/NoteDetailViewModel.kt:27-29 | a stream failure sets Error with the message, or "Unknown error" |
| `ViewModels.NoteDetailViewModel.UpdateNote` | app/src/main/java/com/rkt/penote/ui/viewmodel/NoteDetailViewModel.kt:37-47 | stores the edited unsynced copy and shows `Success(updatedNote)`, or on failure shows the message or "Failed to update note" |

## Left out

- Flow behaviour. Re-emission of the notes stream is not modelled, nor are
  coroutine interleavings. `getAllNotes` is one snapshot, and each ViewModel
  handler is one call that runs to completion.
- The edit-during-sync race is left out: the model is sequential. Under that
  race, an edit made between `getUnsyncedNotes` and `markAsSynced` would be
  marked synced.
- The shared `SimpleDateFormat` is not thread-safe; that is not modelled.
- Dates. The pattern, locale and time-zone handling of `SimpleDateFormat` are
  out, including the literal `'Z'` with local-time formatting. `format` and
  `parse` are uninterpreted. Round trips of timestamps hold only under
  `ParsesOwnOutput`.
- `Date()` is the parameter `now`. One instant stands for every `Date()`
  evaluated in one call.
- `UUID.randomUUID()` is the parameter `newId`.
- ViewModels.NotesViewModel.AddNote: does not promise that the id is fresh.
  It is an input. A colliding id replaces the row, as `insertNote` would.
- Storage I/O failures. In the model the DAO and repository methods never
  fail. A failing call from a ViewModel is the input `storageError`, and the
  model then commits nothing.
- A storage failure part-way through `syncNotes` is not modelled (for
  example, one `markAsSynced` out of several failing).
- HTTP, JSON and Gson are out. Gson could give null fields in a record; that
  is not modelled. The API's `getAllNotes` is left out: nothing calls it.
- WorkManager scheduling is out. This covers `SyncManager.kt` and both
  `SyncWorker.kt` (unique work names, REPLACE/KEEP, network constraints,
  backoff). It also covers `startPeriodicSync` and `retrySync` in
  `NotesViewModel`, which only enqueue work.
- The Compose UI and navigation are out: they only render.
- Room and Hilt wiring (`NotesDatabase.kt`, the DI modules) is out.
- The one-line use cases and the `NotesRepository` interface are out: they
  only delegate. The ViewModels call the repository directly.
- The Room `DateConverter` registered at `NotesDatabase.kt:10, 17` is not part
  of this model. `ORDER BY updatedAt DESC` is modelled as ordering on
  `Date.millis`, which assumes the converter stores `Date.time`.
- `UIState.kt` and `ConnectivityManager` are not part of this model.
  `UiState` is built from how the ViewModels and screens use it: Loading,
  Success with data, Error with a message. Connectivity changes are the input
  `isConnected`.
