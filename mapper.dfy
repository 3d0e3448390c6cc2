/** The stateless conversions between the three note shapes. */
module NoteMapper {
  import opened NoteModel

  function EntityToDomain(entity: NoteEntity): Note
  {
    Note(entity.id, entity.title, entity.content, entity.createdAt, entity.updatedAt, entity.isSynced)
  }

  function DomainToEntity(note: Note): NoteEntity
  {
    NoteEntity(note.id, note.title, note.content, note.createdAt, note.updatedAt, note.isSynced)
  }

  /** `fmt.parse(text) ?: now`: a null parse falls back to "now"; a parse
      that throws raises the exception. */
  function ParseOrNow(fmt: DateFormat, text: string, now: Date): Result<Date>
  {
    match fmt.parse(text)
    case Parsed(d) => Success(d)
    case ParsedNull => Success(now)
    case ParseFailed(e) => Failure(e)
  }

  /** Builds a domain note from a server record: the creation timestamp is
      parsed first, then the update timestamp, and the note is marked synced. */
  function DtoToDomain(dto: NoteDto, fmt: DateFormat, now: Date): Result<Note>
  {
    match ParseOrNow(fmt, dto.createdAt, now)
    case Failure(e) => Failure(e)
    case Success(created) =>
      match ParseOrNow(fmt, dto.updatedAt, now)
      case Failure(e) => Failure(e)
      case Success(updated) =>
        Success(Note(dto.id, dto.title, dto.content, created, updated, true))
  }

  function DomainToDto(note: Note, fmt: DateFormat): NoteDto
  {
    NoteDto(note.id, note.title, note.content, fmt.format(note.createdAt), fmt.format(note.updatedAt))
  }

  /** `entities.map { entityToDomain(it) }`. */
  function EntitiesToDomain(entities: seq<NoteEntity>): (notes: seq<Note>)
    ensures |notes| == |entities|
    ensures forall i :: 0 <= i < |entities| ==> DomainToEntity(notes[i]) == entities[i]
  {
    if entities == [] then [] else [EntityToDomain(entities[0])] + EntitiesToDomain(entities[1..])
  }

  /** `notes.map { domainToEntity(it) }`. */
  function DomainsToEntity(notes: seq<Note>): (entities: seq<NoteEntity>)
    ensures |entities| == |notes|
    ensures forall i :: 0 <= i < |notes| ==> EntityToDomain(entities[i]) == notes[i]
  {
    if notes == [] then [] else [DomainToEntity(notes[0])] + DomainsToEntity(notes[1..])
  }

  /** Row and domain value are the same six fields: each conversion undoes
      the other, so they form a bijection that keeps the synced flag. */
  lemma EntityDomainInverse(entity: NoteEntity, note: Note)
    ensures DomainToEntity(EntityToDomain(entity)) == entity
    ensures EntityToDomain(DomainToEntity(note)) == note
    ensures EntityToDomain(entity).isSynced == entity.isSynced
    ensures DomainToEntity(note) == entity <==> EntityToDomain(entity) == note
    ensures var n := EntityToDomain(entity);
      && n.id == entity.id && n.title == entity.title && n.content == entity.content
      && n.createdAt == entity.createdAt && n.updatedAt == entity.updatedAt
    ensures var e := DomainToEntity(note);
      && e.id == note.id && e.title == note.title && e.content == note.content
      && e.createdAt == note.createdAt && e.updatedAt == note.updatedAt && e.isSynced == note.isSynced
  {
  }

  /** A server record that converts at all converts to a synced note with
      the record's id, title and content. */
  lemma DtoToDomainIsSynced(dto: NoteDto, fmt: DateFormat, now: Date)
    ensures DtoToDomain(dto, fmt, now).Success? ==>
      var n := DtoToDomain(dto, fmt, now).value;
      n.isSynced && n.id == dto.id && n.title == dto.title && n.content == dto.content
  {
  }

  /** The conversion raises exactly when one of the two timestamps fails to
      parse, and then raises the first failure; a timestamp falls back to
      `now` exactly when its parse yields null. */
  lemma DtoToDomainTimestamps(dto: NoteDto, fmt: DateFormat, now: Date)
    ensures DtoToDomain(dto, fmt, now).Failure? <==>
      fmt.parse(dto.createdAt).ParseFailed? || fmt.parse(dto.updatedAt).ParseFailed?
    ensures fmt.parse(dto.createdAt).ParseFailed? ==>
      DtoToDomain(dto, fmt, now) == Failure(fmt.parse(dto.createdAt).error)
    ensures !fmt.parse(dto.createdAt).ParseFailed? && fmt.parse(dto.updatedAt).ParseFailed? ==>
      DtoToDomain(dto, fmt, now) == Failure(fmt.parse(dto.updatedAt).error)
    ensures DtoToDomain(dto, fmt, now).Success? ==>
      var n := DtoToDomain(dto, fmt, now).value;
      && n.createdAt == (if fmt.parse(dto.createdAt).Parsed? then fmt.parse(dto.createdAt).date else now)
      && n.updatedAt == (if fmt.parse(dto.updatedAt).Parsed? then fmt.parse(dto.updatedAt).date else now)
  {
  }

  /** The wire record keeps id, title and content, carries the formatted
      timestamps, and does not depend on the synced flag. */
  lemma DomainToDtoDropsSynced(note: Note, fmt: DateFormat, b: bool)
    ensures DomainToDto(note.(isSynced := b), fmt) == DomainToDto(note, fmt)
    ensures var d := DomainToDto(note, fmt);
      && d.id == note.id && d.title == note.title && d.content == note.content
      && d.createdAt == fmt.format(note.createdAt) && d.updatedAt == fmt.format(note.updatedAt)
  {
  }

  /** domain -> wire -> domain keeps id, title and content whatever the
      date format does, whenever it yields a note at all. */
  lemma DtoRoundTripKeepsText(note: Note, fmt: DateFormat, now: Date)
    ensures var r := DtoToDomain(DomainToDto(note, fmt), fmt, now);
      r.Success? ==> r.value.id == note.id && r.value.title == note.title && r.value.content == note.content && r.value.isSynced
  {
  }

  /** Where the format parses its own output, domain -> wire -> domain gives
      the same note back, now marked synced. */
  lemma DtoRoundTrip(note: Note, fmt: DateFormat, now: Date)
    requires ParsesOwnOutput(fmt)
    ensures DtoToDomain(DomainToDto(note, fmt), fmt, now) == Success(note.(isSynced := true))
  {
    assert fmt.parse(fmt.format(note.createdAt)) == Parsed(note.createdAt);
    assert fmt.parse(fmt.format(note.updatedAt)) == Parsed(note.updatedAt);
  }
}
