/** The three shapes of a note (domain value, Room row, wire record), the
    sync request and reply records, and the timestamp and exception values
    they are built from. */
module NoteModel {

  datatype Option<+T> = None | Some(value: T)

  /** A computation that either yields a value or raises an exception. */
  datatype Result<+T> = Success(value: T) | Failure(error: Exception)

  /** A java.util.Date: an instant counted in milliseconds since the epoch. */
  datatype Date = Date(millis: int)

  /** A thrown exception, as far as the callers look at it: its optional message. */
  datatype Exception = Exception(message: Option<string>)

  /** The domain note. */
  datatype Note = Note(
    id: string,
    title: string,
    content: string,
    createdAt: Date,
    updatedAt: Date,
    isSynced: bool)

  /** A row of the `notes` table; `id` is its primary key. */
  datatype NoteEntity = NoteEntity(
    id: string,
    title: string,
    content: string,
    createdAt: Date,
    updatedAt: Date,
    isSynced: bool)

  /** The wire record exchanged with the server; timestamps are text and
      there is no synced flag. */
  datatype NoteDto = NoteDto(
    id: string,
    title: string,
    content: string,
    createdAt: string,
    updatedAt: string)

  /** Body of `POST notes/sync`. */
  datatype SyncRequestDto = SyncRequestDto(notes: seq<NoteDto>)

  /** Body of the server's reply to `POST notes/sync`. */
  datatype SyncResponseDto = SyncResponseDto(success: bool, notes: seq<NoteDto>)

  /** What one call of the shared date format's `parse` does with a text: it
      yields a date, yields null, or throws. */
  datatype ParseResult = Parsed(date: Date) | ParsedNull | ParseFailed(error: Exception)

  /** The mapper's fixed `yyyy-MM-dd'T'HH:mm:ss.SSS'Z'` format, left
      uninterpreted: its pattern, locale and time zone are not modelled. */
  datatype DateFormat = DateFormat(format: Date -> string, parse: string -> ParseResult)

  /** The assumption under which timestamps survive the wire: parsing what
      the format printed gives the same instant back. */
  ghost predicate ParsesOwnOutput(fmt: DateFormat)
  {
    forall d :: fmt.parse(fmt.format(d)) == Parsed(d)
  }

  /** Kotlin's `e.message ?: fallback`. */
  function MessageOr(e: Exception, fallback: string): string
  {
    match e.message
    case Some(m) => m
    case None => fallback
  }
}
