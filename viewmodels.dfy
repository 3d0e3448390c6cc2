/** The two ViewModels: how they build new and edited notes, and how their
    handlers move the screen state. Each coroutine a ViewModel launches is
    modelled as one call that runs to completion; a failing storage call is
    an input (`storageError`) rather than an I/O fault. */
module ViewModels {
  import opened NoteModel
  import opened NoteMapper
  import opened NoteTable
  import opened LocalStore
  import opened Repository

  /** What a screen shows: still loading, a value, or an error text. */
  datatype UiState<+T> = Loading | Success(data: T) | Error(message: string)

  const UnknownError := "Unknown error"
  const FailedToAdd := "Failed to add note"
  const FailedToUpdate := "Failed to update note"
  const FailedToDelete := "Failed to delete note"

  /** The note `addNote` builds: the given id (`UUID.randomUUID()` in Kotlin),
      title and content, both timestamps "now", not synced. */
  function NewNote(id: string, title: string, content: string, now: Date): Note
  {
    Note(id, title, content, now, now, false)
  }

  /** `note.copy(updatedAt = Date(), isSynced = false)`. */
  function EditedCopy(note: Note, now: Date): Note
  {
    note.(updatedAt := now, isSynced := false)
  }

  /** A new note carries what the user typed and is not synced. */
  lemma NewNoteIsUnsynced(id: string, title: string, content: string, now: Date)
    ensures var n := NewNote(id, title, content, now);
      && n.id == id && n.title == title && n.content == content
      && n.createdAt == now && n.updatedAt == now && !n.isSynced
  {
  }

  /** An edit keeps the identity, text and creation time, refreshes the
      update time and clears the synced flag. */
  lemma EditedCopyIsUnsynced(note: Note, now: Date)
    ensures var n := EditedCopy(note, now);
      && n.id == note.id && n.title == note.title && n.content == note.content
      && n.createdAt == note.createdAt && n.updatedAt == now && !n.isSynced
  {
  }

  /** The first note with the id, as Kotlin's `find`. */
  function FindById(notes: seq<Note>, id: string): (r: Option<Note>)
    ensures r.None? <==> forall i :: 0 <= i < |notes| ==> notes[i].id != id
    ensures forall i :: 0 <= i < |notes| && notes[i].id == id && (forall j :: 0 <= j < i ==> notes[j].id != id) ==>
      r == Some(notes[i])
  {
    if notes == [] then None
    else if notes[0].id == id then Some(notes[0])
    else
      var r := FindById(notes[1..], id);
      assert forall i :: 1 <= i < |notes| ==> notes[i] == notes[1..][i - 1];
      r
  }

  class NotesViewModel {
    const repository: NotesRepositoryImpl
    var uiState: UiState<seq<Note>>
    var isOffline: bool
    var isSyncing: bool

    /** The initial state; the observers and the periodic sync that `init`
        starts are the handlers below. */
    constructor (repository: NotesRepositoryImpl)
      ensures this.repository == repository
      ensures uiState == Loading && !isOffline && !isSyncing
    {
      this.repository := repository;
      uiState := Loading;
      isOffline := false;
      isSyncing := false;
    }

    /** One emission of the notes stream. */
    method OnNotes(notes: seq<Note>)
      modifies this
      ensures uiState == UiState.Success(notes)
      ensures isOffline == old(isOffline) && isSyncing == old(isSyncing)
    {
      uiState := UiState.Success(notes);
    }

    /** The notes stream failed. */
    method OnNotesFailure(e: Exception)
      modifies this
      ensures uiState == Error(MessageOr(e, UnknownError))
      ensures isOffline == old(isOffline) && isSyncing == old(isSyncing)
    {
      uiState := Error(MessageOr(e, UnknownError));
    }

    /** One connectivity event: the offline flag follows it, and a sync runs
        exactly when connected. */
    method OnConnectivity(isConnected: bool, reply: ApiReply, fmt: DateFormat, now: Date)
      returns (syncStarted: bool, ghost batch: seq<NoteEntity>)
      requires repository.dao.Valid()
      modifies this, repository.dao
      ensures repository.dao.Valid()
      ensures isOffline == !isConnected
      ensures syncStarted == isConnected
      ensures uiState == old(uiState)
      ensures isConnected ==> !isSyncing
      ensures !isConnected ==> repository.dao.rows == old(repository.dao.rows) && isSyncing == old(isSyncing)
      ensures isConnected ==> IsUnsyncedListing(old(repository.dao.rows), batch)
      ensures isConnected ==> repository.dao.rows == Sync(old(repository.dao.rows), batch, reply, fmt, now).rows
    {
      isOffline := !isConnected;
      syncStarted := isConnected;
      batch := [];
      if isConnected {
        batch := SyncNotes(reply, fmt, now);
      }
    }

    /** The private `syncNotes`: sets `isSyncing`, runs the repository's
        sync, swallows whatever it raises, and clears `isSyncing` whatever
        the outcome. The screen state is not touched. */
    method SyncNotes(reply: ApiReply, fmt: DateFormat, now: Date) returns (ghost batch: seq<NoteEntity>)
      requires repository.dao.Valid()
      modifies this, repository.dao
      ensures repository.dao.Valid()
      ensures !isSyncing
      ensures uiState == old(uiState) && isOffline == old(isOffline)
      ensures IsUnsyncedListing(old(repository.dao.rows), batch)
      ensures repository.dao.rows == Sync(old(repository.dao.rows), batch, reply, fmt, now).rows
    {
      isSyncing := true;
      var sent, outcome;
      sent, outcome, batch := repository.SyncNotes(reply, fmt, now);
      isSyncing := false;
    }

    /** `addNote`: inserts a new unsynced note, or shows the storage error. */
    method AddNote(title: string, content: string, newId: string, now: Date, storageError: Option<Exception>)
      requires repository.dao.Valid()
      modifies this, repository.dao
      ensures repository.dao.Valid()
      ensures isOffline == old(isOffline) && isSyncing == old(isSyncing)
      ensures storageError.None? ==>
        && repository.dao.rows == Upsert(old(repository.dao.rows), DomainToEntity(NewNote(newId, title, content, now)))
        && uiState == old(uiState)
      ensures storageError.Some? ==>
        && repository.dao.rows == old(repository.dao.rows)
        && uiState == Error(MessageOr(storageError.value, FailedToAdd))
    {
      var note := NewNote(newId, title, content, now);
      if storageError.Some? {
        uiState := Error(MessageOr(storageError.value, FailedToAdd));
      } else {
        repository.AddNote(note);
      }
    }

    /** `updateNote`: stores the edited, unsynced copy, or shows the
        storage error. */
    method UpdateNote(note: Note, now: Date, storageError: Option<Exception>)
      requires repository.dao.Valid()
      modifies this, repository.dao
      ensures repository.dao.Valid()
      ensures isOffline == old(isOffline) && isSyncing == old(isSyncing)
      ensures storageError.None? ==>
        && repository.dao.rows == UpdateExisting(old(repository.dao.rows), DomainToEntity(EditedCopy(note, now)))
        && uiState == old(uiState)
      ensures storageError.Some? ==>
        && repository.dao.rows == old(repository.dao.rows)
        && uiState == Error(MessageOr(storageError.value, FailedToUpdate))
    {
      var updated := EditedCopy(note, now);
      if storageError.Some? {
        uiState := Error(MessageOr(storageError.value, FailedToUpdate));
      } else {
        repository.UpdateNote(updated);
      }
    }

    /** `deleteNote`: removes the note's row, or shows the storage error. */
    method DeleteNote(note: Note, storageError: Option<Exception>)
      requires repository.dao.Valid()
      modifies this, repository.dao
      ensures repository.dao.Valid()
      ensures isOffline == old(isOffline) && isSyncing == old(isSyncing)
      ensures storageError.None? ==>
        repository.dao.rows == RemoveId(old(repository.dao.rows), note.id) && uiState == old(uiState)
      ensures storageError.Some? ==>
        && repository.dao.rows == old(repository.dao.rows)
        && uiState == Error(MessageOr(storageError.value, FailedToDelete))
    {
      if storageError.Some? {
        uiState := Error(MessageOr(storageError.value, FailedToDelete));
      } else {
        repository.DeleteNote(note);
      }
    }
  }

  class NoteDetailViewModel {
    const repository: NotesRepositoryImpl
    var uiState: UiState<Option<Note>>

    constructor (repository: NotesRepositoryImpl)
      ensures this.repository == repository && uiState == Loading
    {
      this.repository := repository;
      uiState := Loading;
    }

    /** One emission of the stream `loadNote(noteId)` collects: the first
        note with that id, or null. */
    method OnNotes(noteId: string, notes: seq<Note>)
      modifies this
      ensures uiState == UiState.Success(FindById(notes, noteId))
    {
      uiState := UiState.Success(FindById(notes, noteId));
    }

    /** The stream `loadNote` collects failed. */
    method OnNotesFailure(e: Exception)
      modifies this
      ensures uiState == Error(MessageOr(e, UnknownError))
    {
      uiState := Error(MessageOr(e, UnknownError));
    }

    /** `updateNote`: stores the edited, unsynced copy and shows it, or
        shows the storage error. */
    method UpdateNote(note: Note, now: Date, storageError: Option<Exception>)
      requires repository.dao.Valid()
      modifies this, repository.dao
      ensures repository.dao.Valid()
      ensures storageError.None? ==>
        && repository.dao.rows == UpdateExisting(old(repository.dao.rows), DomainToEntity(EditedCopy(note, now)))
        && uiState == UiState.Success(Some(EditedCopy(note, now)))
      ensures storageError.Some? ==>
        && repository.dao.rows == old(repository.dao.rows)
        && uiState == Error(MessageOr(storageError.value, FailedToUpdate))
    {
      var updated := EditedCopy(note, now);
      if storageError.Some? {
        uiState := Error(MessageOr(storageError.value, FailedToUpdate));
      } else {
        repository.UpdateNote(updated);
        uiState := UiState.Success(Some(updated));
      }
    }
  }

  /** Local edits never mark a note synced: after adding or editing, the row
      for that id is unsynced, so the next sync will send it; no edit and no
      delete makes any other row synced or unsynced. */
  lemma EditsAreUnsynced(t: Table, id: string, title: string, content: string, note: Note, now: Date)
    requires WellKeyed(t)
    ensures id in UnsyncedIds(Upsert(t, DomainToEntity(NewNote(id, title, content, now))))
    ensures note.id in t ==> note.id in UnsyncedIds(UpdateExisting(t, DomainToEntity(EditedCopy(note, now))))
    ensures UnsyncedIds(Upsert(t, DomainToEntity(NewNote(id, title, content, now)))) == UnsyncedIds(t) + {id}
    ensures UnsyncedIds(UpdateExisting(t, DomainToEntity(EditedCopy(note, now)))) == UnsyncedIds(t) + ({note.id} * t.Keys)
    ensures UnsyncedIds(RemoveId(t, note.id)) == UnsyncedIds(t) - {note.id}
  {
  }
}
