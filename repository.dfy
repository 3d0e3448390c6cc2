/** The repository over the DAO and the server: CRUD delegation through the
    mapper, and the one-round sync step. The server's reply is an input
    value rather than a network call. */
module Repository {
  import opened NoteModel
  import opened NoteMapper
  import opened NoteTable
  import opened LocalStore

  /** What `apiService.syncNotes(request)` does: throw, or return an HTTP
      response with a success status bit and a possibly absent body. */
  datatype ApiReply =
    | Throws(error: Exception)
    | Response(isSuccessful: bool, body: Option<SyncResponseDto>)

  /** How a call of `syncNotes` ends: normally, or by raising an exception. */
  datatype Outcome = Completed | Raised(error: Exception)

  /** The table after a sync, the request it sent (if any) and how it ended. */
  datatype SyncResult = SyncResult(rows: Table, sent: Option<SyncRequestDto>, outcome: Outcome)

  /** The reply was successful, had a body, and the body said `success`. */
  predicate Accepted(reply: ApiReply)
  {
    reply.Response? && reply.isSuccessful && reply.body.Some? && reply.body.value.success
  }

  /** The server notes listed in an accepted reply (empty otherwise). */
  function ServerDtos(reply: ApiReply): seq<NoteDto>
  {
    if Accepted(reply) then reply.body.value.notes else []
  }

  /** `unsynced.map { domainToDto(entityToDomain(it)) }`. */
  function RequestDtos(batch: seq<NoteEntity>, fmt: DateFormat): (dtos: seq<NoteDto>)
    ensures |dtos| == |batch|
    ensures forall i :: 0 <= i < |batch| ==> dtos[i] == DomainToDto(EntityToDomain(batch[i]), fmt)
  {
    if batch == [] then [] else [DomainToDto(EntityToDomain(batch[0]), fmt)] + RequestDtos(batch[1..], fmt)
  }

  function DtoIds(dtos: seq<NoteDto>): (ids: seq<string>)
    ensures |ids| == |dtos|
    ensures forall i :: 0 <= i < |dtos| ==> ids[i] == dtos[i].id
  {
    if dtos == [] then [] else [dtos[0].id] + DtoIds(dtos[1..])
  }

  /** `notes.map { dtoToDomain(it) }`: the first record that fails to
      convert raises, and then no note is produced. */
  function ServerNotes(dtos: seq<NoteDto>, fmt: DateFormat, now: Date): (r: Result<seq<Note>>)
    ensures r.Success? ==> |r.value| == |dtos|
    ensures r.Success? ==> forall i :: 0 <= i < |dtos| ==> DtoToDomain(dtos[i], fmt, now) == Success(r.value[i])
    ensures r.Failure? <==> exists i :: 0 <= i < |dtos| && DtoToDomain(dtos[i], fmt, now).Failure?
  {
    if dtos == [] then Success([])
    else
      match DtoToDomain(dtos[0], fmt, now)
      case Failure(e) => Failure(e)
      case Success(n) =>
        match ServerNotes(dtos[1..], fmt, now)
        case Failure(e) =>
          assert exists i :: 0 <= i < |dtos[1..]| && DtoToDomain(dtos[1..][i], fmt, now).Failure?;
          var i :| 0 <= i < |dtos[1..]| && DtoToDomain(dtos[1..][i], fmt, now).Failure?;
          assert dtos[i + 1] == dtos[1..][i];
          Failure(e)
        case Success(ns) =>
          assert forall i :: 1 <= i < |dtos| ==> dtos[i] == dtos[1..][i - 1];
          Success([n] + ns)
  }

  /** A failed conversion raises the exception of the first record that
      fails; every record before it converts. */
  lemma {:induction false} ServerNotesFirstFailure(dtos: seq<NoteDto>, fmt: DateFormat, now: Date)
    requires ServerNotes(dtos, fmt, now).Failure?
    ensures exists i :: (0 <= i < |dtos|
      && (forall j :: 0 <= j < i ==> DtoToDomain(dtos[j], fmt, now).Success?)
      && DtoToDomain(dtos[i], fmt, now) == Failure(ServerNotes(dtos, fmt, now).error))
  {
    if DtoToDomain(dtos[0], fmt, now).Success? {
      ServerNotesFirstFailure(dtos[1..], fmt, now);
      var f :| (0 <= f < |dtos[1..]|
        && (forall j :: 0 <= j < f ==> DtoToDomain(dtos[1..][j], fmt, now).Success?)
        && DtoToDomain(dtos[1..][f], fmt, now) == Failure(ServerNotes(dtos[1..], fmt, now).error));
      assert forall j :: 1 <= j < f + 1 ==> dtos[j] == dtos[1..][j - 1];
      assert DtoToDomain(dtos[f + 1], fmt, now) == Failure(ServerNotes(dtos, fmt, now).error);
    } else {
      assert DtoToDomain(dtos[0], fmt, now) == Failure(ServerNotes(dtos, fmt, now).error);
    }
  }

  /** `syncNotes` on a table whose unsynced rows were read as `batch`:
      nothing is sent when there are none; otherwise the batch goes out,
      and only an accepted reply changes the table: first every batch id is
      marked synced, then the server's notes are converted and inserted
      with replace. A thrown call, or a server record whose timestamp fails
      to parse, is raised again. */
  function Sync(rows: Table, batch: seq<NoteEntity>, reply: ApiReply, fmt: DateFormat, now: Date): SyncResult
  {
    if batch == [] then SyncResult(rows, None, Completed)
    else
      var request := Some(SyncRequestDto(RequestDtos(batch, fmt)));
      match reply
      case Throws(e) => SyncResult(rows, request, Raised(e))
      case Response(_, _) =>
        if !Accepted(reply) then SyncResult(rows, request, Completed)
        else
          var marked := MarkEach(rows, IdsOf(batch));
          match ServerNotes(reply.body.value.notes, fmt, now)
          case Failure(e) => SyncResult(marked, request, Raised(e))
          case Success(notes) => SyncResult(UpsertEach(marked, DomainsToEntity(notes)), request, Completed)
  }

  /** No unsynced row: no request, no change. */
  lemma SyncWithNothingUnsynced(rows: Table, batch: seq<NoteEntity>, reply: ApiReply, fmt: DateFormat, now: Date)
    requires WellKeyed(rows) && IsUnsyncedListing(rows, batch)
    requires UnsyncedIds(rows) == {}
    ensures Sync(rows, batch, reply, fmt, now) == SyncResult(rows, None, Completed)
  {
    ListingIds(rows, batch, "");
  }

  /** The request copies each row of the batch, in order: id, title and
      content unchanged, timestamps formatted, no synced flag. */
  lemma RequestCopiesBatch(batch: seq<NoteEntity>, fmt: DateFormat, i: nat)
    requires i < |batch|
    ensures var d := RequestDtos(batch, fmt)[i];
      && d.id == batch[i].id && d.title == batch[i].title && d.content == batch[i].content
      && d.createdAt == fmt.format(batch[i].createdAt) && d.updatedAt == fmt.format(batch[i].updatedAt)
  {
  }

  lemma RequestIdsAreBatchIds(batch: seq<NoteEntity>, fmt: DateFormat)
    ensures DtoIds(RequestDtos(batch, fmt)) == IdsOf(batch)
  {
    var dtos := RequestDtos(batch, fmt);
    assert forall i :: 0 <= i < |batch| ==> dtos[i].id == batch[i].id;
  }

  /** With unsynced rows, the request holds exactly them, in the order
      read (each row copied as `RequestCopiesBatch` says); its ids are
      exactly the unsynced ids of the table. */
  lemma SyncRequestIsBatch(rows: Table, batch: seq<NoteEntity>, reply: ApiReply, fmt: DateFormat, now: Date)
    requires WellKeyed(rows) && IsUnsyncedListing(rows, batch)
    requires UnsyncedIds(rows) != {}
    ensures var sent := Sync(rows, batch, reply, fmt, now).sent;
      && sent == Some(SyncRequestDto(RequestDtos(batch, fmt)))
      && |sent.value.notes| == |batch|
      && (forall k :: k in UnsyncedIds(rows) <==> k in DtoIds(sent.value.notes))
  {
    ListingIds(rows, batch, "");
    RequestIdsAreBatchIds(batch, fmt);
    forall k ensures k in UnsyncedIds(rows) <==> k in IdsOf(batch) {
      ListingIds(rows, batch, k);
    }
  }

  /** A thrown call is raised again and leaves the table as it was, so the
      same rows stay unsynced for a retry. */
  lemma SyncThrowLeavesTable(rows: Table, batch: seq<NoteEntity>, e: Exception, fmt: DateFormat, now: Date)
    requires WellKeyed(rows) && IsUnsyncedListing(rows, batch)
    requires UnsyncedIds(rows) != {}
    ensures Sync(rows, batch, Throws(e), fmt, now).rows == rows
    ensures Sync(rows, batch, Throws(e), fmt, now).outcome == Raised(e)
  {
    ListingIds(rows, batch, "");
  }

  /** An unsuccessful status, a missing body or `success == false` ends
      normally and changes nothing. */
  lemma SyncRejectedLeavesTable(rows: Table, batch: seq<NoteEntity>, reply: ApiReply, fmt: DateFormat, now: Date)
    requires reply.Response? && !Accepted(reply)
    ensures Sync(rows, batch, reply, fmt, now).rows == rows
    ensures Sync(rows, batch, reply, fmt, now).outcome == Completed
  {
  }

  /** The rows built from the server's notes carry the records' ids, in
      order, and are all synced. */
  lemma {:induction false} ServerRows(dtos: seq<NoteDto>, fmt: DateFormat, now: Date)
    requires ServerNotes(dtos, fmt, now).Success?
    ensures var ents := DomainsToEntity(ServerNotes(dtos, fmt, now).value);
      && IdsOf(ents) == DtoIds(dtos)
      && forall x :: x in ents ==> x.isSynced
  {
    var notes := ServerNotes(dtos, fmt, now).value;
    var ents := DomainsToEntity(notes);
    forall i | 0 <= i < |dtos| ensures ents[i].id == dtos[i].id && ents[i].isSynced {
      assert DtoToDomain(dtos[i], fmt, now) == Success(notes[i]);
    }
  }

  /** The table after an accepted reply: the marked table, overlaid with
      the server's rows when they all convert. */
  lemma SyncAcceptedRows(rows: Table, batch: seq<NoteEntity>, reply: ApiReply, fmt: DateFormat, now: Date)
    requires batch != [] && Accepted(reply)
    ensures var marked := MarkEach(rows, IdsOf(batch));
      var server := ServerNotes(reply.body.value.notes, fmt, now);
      Sync(rows, batch, reply, fmt, now).rows ==
        if server.Success? then marked + Keyed(DomainsToEntity(server.value)) else marked
  {
    var marked := MarkEach(rows, IdsOf(batch));
    var request := Some(SyncRequestDto(RequestDtos(batch, fmt)));
    var server := ServerNotes(reply.body.value.notes, fmt, now);
    if server.Success? {
      assert Sync(rows, batch, reply, fmt, now) == SyncResult(UpsertEach(marked, DomainsToEntity(server.value)), request, Completed);
      UpsertEachIsOverlay(marked, DomainsToEntity(server.value));
    } else {
      assert Sync(rows, batch, reply, fmt, now) == SyncResult(marked, request, Raised(server.error));
    }
  }

  /** After an accepted reply every row of the batch is present and synced,
      whether or not the server's notes could be converted. */
  lemma SyncAcceptedMarksBatch(rows: Table, batch: seq<NoteEntity>, reply: ApiReply, fmt: DateFormat, now: Date, k: string)
    requires WellKeyed(rows) && IsUnsyncedListing(rows, batch)
    requires Accepted(reply)
    requires k in UnsyncedIds(rows)
    ensures var after := Sync(rows, batch, reply, fmt, now).rows;
      k in after && after[k].isSynced
  {
    ListingIds(rows, batch, k);
    MarkEachAt(rows, IdsOf(batch), k);
    SyncAcceptedRows(rows, batch, reply, fmt, now);
    var server := ServerNotes(reply.body.value.notes, fmt, now);
    if server.Success? {
      var ents := DomainsToEntity(server.value);
      ServerRows(reply.body.value.notes, fmt, now);
      if k in Keyed(ents) {
        KeyedFromList(ents, k);
      }
    }
  }

  /** After an accepted reply whose notes all convert, the last server note
      with each id is in the table, synced, with the server's id, title and
      content: the server copy wins over the local row. */
  lemma SyncServerCopyWins(rows: Table, batch: seq<NoteEntity>, reply: ApiReply, fmt: DateFormat, now: Date, i: nat)
    requires batch != [] && Accepted(reply)
    requires ServerNotes(reply.body.value.notes, fmt, now).Success?
    requires var dtos := reply.body.value.notes;
      i < |dtos| && forall j :: i < j < |dtos| ==> dtos[j].id != dtos[i].id
    ensures var r := Sync(rows, batch, reply, fmt, now);
      var d := reply.body.value.notes[i];
      && r.outcome == Completed
      && d.id in r.rows
      && r.rows[d.id].isSynced
      && r.rows[d.id].title == d.title && r.rows[d.id].content == d.content
      && r.rows[d.id].id == d.id
      && r.rows[d.id] == DomainToEntity(DtoToDomain(d, fmt, now).value)
  {
    var dtos := reply.body.value.notes;
    var notes := ServerNotes(dtos, fmt, now).value;
    var ents := DomainsToEntity(notes);
    assert DtoToDomain(dtos[i], fmt, now) == Success(notes[i]);
    forall j | i < j < |ents| ensures ents[j].id != ents[i].id {
      assert DtoToDomain(dtos[j], fmt, now) == Success(notes[j]);
    }
    KeyedLast(ents, i);
    var marked := MarkEach(rows, IdsOf(batch));
    var r := Sync(rows, batch, reply, fmt, now);
    assert r == SyncResult(UpsertEach(marked, ents), Some(SyncRequestDto(RequestDtos(batch, fmt))), Completed);
    UpsertEachIsOverlay(marked, ents);
    assert r.rows[dtos[i].id] == ents[i];
  }

  /** After an accepted reply whose notes do not all convert, the batch is
      marked synced, no server note is inserted, and the conversion's
      exception is raised. */
  lemma SyncBadServerTimestamp(rows: Table, batch: seq<NoteEntity>, reply: ApiReply, fmt: DateFormat, now: Date)
    requires WellKeyed(rows) && IsUnsyncedListing(rows, batch)
    requires Accepted(reply)
    requires ServerNotes(reply.body.value.notes, fmt, now).Failure?
    requires UnsyncedIds(rows) != {}
    ensures var r := Sync(rows, batch, reply, fmt, now);
      && r.outcome == Raised(ServerNotes(reply.body.value.notes, fmt, now).error)
      && r.rows.Keys == rows.Keys
      && forall k :: k in rows ==> r.rows[k] == if k in UnsyncedIds(rows) then rows[k].(isSynced := true) else rows[k]
  {
    ListingIds(rows, batch, "");
    SyncAcceptedRows(rows, batch, reply, fmt, now);
    MarkBatchEffect(rows, batch);
  }

  /** Marking the ids of a listing of the unsynced rows sets the flag of
      exactly the unsynced rows and adds or removes no row. */
  lemma MarkBatchEffect(rows: Table, batch: seq<NoteEntity>)
    requires WellKeyed(rows) && IsUnsyncedListing(rows, batch)
    ensures var marked := MarkEach(rows, IdsOf(batch));
      && marked.Keys == rows.Keys
      && forall k :: k in rows ==> marked[k] == if k in UnsyncedIds(rows) then rows[k].(isSynced := true) else rows[k]
  {
    var marked := MarkEach(rows, IdsOf(batch));
    forall k | k in rows
      ensures k in marked
      ensures marked[k] == if k in UnsyncedIds(rows) then rows[k].(isSynced := true) else rows[k]
    {
      MarkEachAt(rows, IdsOf(batch), k);
      ListingIds(rows, batch, k);
    }
    forall k | k in marked ensures k in rows {
      MarkEachAt(rows, IdsOf(batch), k);
    }
  }

  /** A row that is neither in the batch nor in the server's reply is left
      as it was. */
  lemma SyncOthersUntouched(rows: Table, batch: seq<NoteEntity>, reply: ApiReply, fmt: DateFormat, now: Date, k: string)
    requires WellKeyed(rows) && IsUnsyncedListing(rows, batch)
    requires k in rows && k !in UnsyncedIds(rows) && k !in DtoIds(ServerDtos(reply))
    ensures var after := Sync(rows, batch, reply, fmt, now).rows;
      k in after && after[k] == rows[k]
  {
    if batch != [] && Accepted(reply) {
      ListingIds(rows, batch, k);
      MarkEachAt(rows, IdsOf(batch), k);
      SyncAcceptedRows(rows, batch, reply, fmt, now);
      var server := ServerNotes(reply.body.value.notes, fmt, now);
      if server.Success? {
        ServerRows(reply.body.value.notes, fmt, now);
        KeyedKeys(DomainsToEntity(server.value), k);
      }
    }
  }

  /** No row appears that was neither in the table nor sent by the server. */
  lemma SyncAddsOnlyServerRows(rows: Table, batch: seq<NoteEntity>, reply: ApiReply, fmt: DateFormat, now: Date, k: string)
    requires k in Sync(rows, batch, reply, fmt, now).rows
    ensures k in rows || k in DtoIds(ServerDtos(reply))
  {
    if batch != [] && Accepted(reply) {
      MarkEachAt(rows, IdsOf(batch), k);
      SyncAcceptedRows(rows, batch, reply, fmt, now);
      var server := ServerNotes(reply.body.value.notes, fmt, now);
      if server.Success? {
        ServerRows(reply.body.value.notes, fmt, now);
        KeyedKeys(DomainsToEntity(server.value), k);
      }
    }
  }

  /** The table stays keyed by id. */
  lemma SyncKeepsWellKeyed(rows: Table, batch: seq<NoteEntity>, reply: ApiReply, fmt: DateFormat, now: Date)
    requires WellKeyed(rows)
    ensures WellKeyed(Sync(rows, batch, reply, fmt, now).rows)
  {
    MarkEachKeepsWellKeyed(rows, IdsOf(batch));
    if Accepted(reply) && ServerNotes(reply.body.value.notes, fmt, now).Success? {
      UpsertEachKeepsWellKeyed(MarkEach(rows, IdsOf(batch)), DomainsToEntity(ServerNotes(reply.body.value.notes, fmt, now).value));
    }
  }

  /** After an accepted reply no row is left unsynced: the batch was marked
      and everything the server sent is synced. */
  lemma SyncAcceptedLeavesNothingUnsynced(rows: Table, batch: seq<NoteEntity>, reply: ApiReply, fmt: DateFormat, now: Date)
    requires WellKeyed(rows) && IsUnsyncedListing(rows, batch)
    requires Accepted(reply)
    ensures UnsyncedIds(Sync(rows, batch, reply, fmt, now).rows) == {}
  {
    var after := Sync(rows, batch, reply, fmt, now).rows;
    forall k | k in after ensures after[k].isSynced {
      if k in UnsyncedIds(rows) {
        SyncAcceptedMarksBatch(rows, batch, reply, fmt, now, k);
      } else if batch == [] {
      } else {
        ListingIds(rows, batch, k);
        MarkEachAt(rows, IdsOf(batch), k);
        SyncAcceptedRows(rows, batch, reply, fmt, now);
        var server := ServerNotes(reply.body.value.notes, fmt, now);
        if server.Success? {
          var ents := DomainsToEntity(server.value);
          ServerRows(reply.body.value.notes, fmt, now);
          if k in Keyed(ents) {
            KeyedFromList(ents, k);
          }
        }
      }
    }
  }

  /** A second sync right after an accepted one, with no edit in between,
      reads no unsynced row and so sends nothing and changes nothing. */
  lemma SyncTwiceSendsNothing(rows: Table, batch: seq<NoteEntity>, reply: ApiReply, batch2: seq<NoteEntity>, reply2: ApiReply, fmt: DateFormat, now: Date)
    requires WellKeyed(rows) && IsUnsyncedListing(rows, batch)
    requires Accepted(reply)
    requires IsUnsyncedListing(Sync(rows, batch, reply, fmt, now).rows, batch2)
    ensures var first := Sync(rows, batch, reply, fmt, now).rows;
      Sync(first, batch2, reply2, fmt, now) == SyncResult(first, None, Completed)
  {
    SyncAcceptedLeavesNothingUnsynced(rows, batch, reply, fmt, now);
    SyncKeepsWellKeyed(rows, batch, reply, fmt, now);
    SyncWithNothingUnsynced(Sync(rows, batch, reply, fmt, now).rows, batch2, reply2, fmt, now);
  }

  class NotesRepositoryImpl {
    const dao: NoteDao

    constructor (dao: NoteDao)
      ensures this.dao == dao
    {
      this.dao := dao;
    }

    /** `getAllNotes`, one snapshot of the stream: every row as a domain
        note, newest first. */
    method GetAllNotes() returns (notes: seq<Note>)
      requires dao.Valid()
      ensures |notes| == |dao.rows|
      ensures forall i :: 0 <= i < |notes| ==> notes[i].id in dao.rows && dao.rows[notes[i].id] == DomainToEntity(notes[i])
      ensures forall k :: k in dao.rows ==> EntityToDomain(dao.rows[k]) in notes
      ensures forall i, j :: 0 <= i < j < |notes| ==> notes[i].updatedAt.millis >= notes[j].updatedAt.millis
    {
      var entities := dao.GetAllNotes();
      notes := EntitiesToDomain(entities);
      forall k | k in dao.rows ensures EntityToDomain(dao.rows[k]) in notes {
        var i :| 0 <= i < |entities| && entities[i] == dao.rows[k];
        assert notes[i] == EntityToDomain(entities[i]);
      }
      forall i | 0 <= i < |notes| ensures notes[i].id in dao.rows && dao.rows[notes[i].id] == DomainToEntity(notes[i]) {
        assert entities[i] in entities;
      }
    }

    /** The row with that id as a domain note, or null. */
    method GetNoteById(id: string) returns (note: Option<Note>)
      requires dao.Valid()
      ensures note.Some? <==> id in dao.rows
      ensures note.Some? ==> DomainToEntity(note.value) == dao.rows[id] && note.value.id == id
    {
      var row := dao.GetNoteById(id);
      match row {
        case Some(e) => note := Some(EntityToDomain(e));
        case None => note := None;
      }
    }

    /** Inserts the note, replacing a row with the same id. */
    method AddNote(note: Note)
      requires dao.Valid()
      modifies dao
      ensures dao.Valid()
      ensures dao.rows == Upsert(old(dao.rows), DomainToEntity(note))
    {
      dao.InsertNote(DomainToEntity(note));
    }

    /** Replaces the row with the note's id, if there is one. */
    method UpdateNote(note: Note)
      requires dao.Valid()
      modifies dao
      ensures dao.Valid()
      ensures dao.rows == UpdateExisting(old(dao.rows), DomainToEntity(note))
    {
      dao.UpdateNote(DomainToEntity(note));
    }

    /** Removes the row with the note's id, if there is one. */
    method DeleteNote(note: Note)
      requires dao.Valid()
      modifies dao
      ensures dao.Valid()
      ensures dao.rows == RemoveId(old(dao.rows), note.id)
    {
      dao.DeleteNote(DomainToEntity(note));
    }

    /** Exactly the notes whose `isSynced` is false, each once. */
    method GetUnsyncedNotes() returns (notes: seq<Note>)
      requires dao.Valid()
      ensures forall i :: 0 <= i < |notes| ==>
        !notes[i].isSynced && notes[i].id in dao.rows && dao.rows[notes[i].id] == DomainToEntity(notes[i])
      ensures forall k :: k in dao.rows && !dao.rows[k].isSynced ==> EntityToDomain(dao.rows[k]) in notes
      ensures forall i, j :: 0 <= i < j < |notes| ==> notes[i].id != notes[j].id
    {
      var entities := dao.GetUnsyncedNotes();
      notes := EntitiesToDomain(entities);
      forall k | k in dao.rows && !dao.rows[k].isSynced ensures EntityToDomain(dao.rows[k]) in notes {
        var i :| 0 <= i < |entities| && entities[i] == dao.rows[k];
        assert notes[i] == EntityToDomain(entities[i]);
      }
      forall i | 0 <= i < |notes|
        ensures !notes[i].isSynced && notes[i].id in dao.rows && dao.rows[notes[i].id] == DomainToEntity(notes[i])
      {
        assert entities[i] in entities;
      }
    }

    /** `syncNotes`: reads the unsynced rows (`batch`, in the order read),
        and has exactly the effect `Sync` describes. A row edited between
        the read and the marking would be marked synced too; the model is
        sequential and has no such interleaving. */
    method SyncNotes(reply: ApiReply, fmt: DateFormat, now: Date)
      returns (sent: Option<SyncRequestDto>, outcome: Outcome, ghost batch: seq<NoteEntity>)
      requires dao.Valid()
      modifies dao
      ensures dao.Valid()
      ensures IsUnsyncedListing(old(dao.rows), batch)
      ensures SyncResult(dao.rows, sent, outcome) == Sync(old(dao.rows), batch, reply, fmt, now)
    {
      var unsynced := dao.GetUnsyncedNotes();
      batch := unsynced;
      if |unsynced| == 0 {
        sent, outcome := None, Completed;
      } else {
        sent, outcome := SendBatch(unsynced, reply, fmt, now);
      }
    }

    /** `unsynced.forEach { markAsSynced(it.id) }`: marks the batch ids one
        after the other. */
    method MarkBatch(unsynced: seq<NoteEntity>)
      requires dao.Valid()
      modifies dao
      ensures dao.Valid()
      ensures dao.rows == MarkEach(old(dao.rows), IdsOf(unsynced))
    {
      var ids := IdsOf(unsynced);
      var i := 0;
      while i < |unsynced|
        invariant 0 <= i <= |unsynced|
        invariant dao.Valid()
        invariant dao.rows == MarkEach(old(dao.rows), ids[..i])
      {
        assert ids[..i + 1][..i] == ids[..i];
        dao.MarkAsSynced(unsynced[i].id);
        i := i + 1;
      }
      assert ids[..i] == ids;
    }

    /** The `isNotEmpty` branch of `syncNotes`: builds the request from the
        batch, and on an accepted reply marks every batch id synced, one
        after the other, then converts and inserts the server's notes. */
    method SendBatch(unsynced: seq<NoteEntity>, reply: ApiReply, fmt: DateFormat, now: Date)
      returns (sent: Option<SyncRequestDto>, outcome: Outcome)
      requires dao.Valid() && unsynced != []
      modifies dao
      ensures dao.Valid()
      ensures SyncResult(dao.rows, sent, outcome) == Sync(old(dao.rows), unsynced, reply, fmt, now)
    {
      sent := Some(SyncRequestDto(RequestDtos(unsynced, fmt)));
      match reply {
        case Throws(e) =>
          outcome := Raised(e);
        case Response(isSuccessful, body) =>
          if isSuccessful && body.Some? && body.value.success {
            MarkBatch(unsynced);
            match ServerNotes(body.value.notes, fmt, now) {
              case Failure(e) =>
                outcome := Raised(e);
              case Success(notes) =>
                dao.InsertNotes(DomainsToEntity(notes));
                outcome := Completed;
            }
          } else {
            outcome := Completed;
          }
      }
    }
  }
}
