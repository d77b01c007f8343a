/** The SQLite tables of the event store, as values and as the fields of one object.

    Rows of books, progress_events and conflicts are never deleted, so an
    AUTOINCREMENT id is the row's position; outbox rows are deleted, so that
    table keeps its own counter. */
module Tables {
  import opened Model

  datatype Book = Book(
    id: int, fileHash: Option<string>, epubId: Option<string>, calibreId: Option<string>,
    goodreadsId: Option<string>, isbn13: Option<string>, isbn10: Option<string>, asin: Option<string>,
    title: string, authorSort: string)

  function Cell(b: Book, c: Column): Option<string> {
    match c
    case FileHash => b.fileHash
    case EpubId => b.epubId
    case CalibreId => b.calibreId
    case GoodreadsId => b.goodreadsId
    case Isbn13 => b.isbn13
    case Isbn10 => b.isbn10
    case Asin => b.asin
  }

  datatype Alias = Alias(bookId: int, source: Source, key: string)

  datatype EventRow = EventRow(
    id: int, bookId: int, source: Source, receivedAt: int, deviceTS: Option<int>,
    percent: Option<real>, page: Option<int>, totalPages: Option<int>,
    rawLocator: Option<string>, locatorType: LocationType, readStatus: ReadStatus, confidence: int)

  /** What a canonical row says about the reading position. */
  datatype Progress = Progress(
    updatedBy: Source, eventId: int, percent: Option<real>, page: Option<int>, totalPages: Option<int>,
    rawLocator: Option<string>, locatorType: LocationType, readStatus: ReadStatus)

  datatype Canon = Canon(progress: Progress, updatedAt: int, pinned: bool)

  datatype ConflictStatus = Open | AutoResolved | Dismissed

  datatype JumpReason =
    | BackwardJump(from: real, to: real)
    | GoodreadsFinishedEarly(canonical: real)
    | PageCountChange(before: int, after: int)
    | LowConfidence(confidence: int)
    | LocatorTypeChange(was: LocationType, now: LocationType)

  datatype Conflict = Conflict(
    id: int, bookId: int, eventA: int, eventB: int, reason: JumpReason,
    status: ConflictStatus, winner: Option<int>)

  datatype JobStatus = Queued | Running | Succeeded | Retrying | DeadLetter | BlockedByConflict

  /** `event` is the payload of a job the pipeline made; jobs enqueued by hand have none. */
  datatype Job = Job(
    bookId: int, target: Source, status: JobStatus, attempts: int, nextRetry: Option<int>,
    event: Option<int>, blocking: Option<int>)

  datatype Tables = Tables(
    books: seq<Book>, aliases: seq<Alias>, events: seq<EventRow>, canonical: map<int, Canon>,
    conflicts: seq<Conflict>, outbox: map<int, Job>, nextJob: int)

  const EMPTY := Tables([], [], [], map[], [], map[], 1)

  /** The single database connection. */
  class Database {
    var books: seq<Book>
    var aliases: seq<Alias>
    var events: seq<EventRow>
    var canonical: map<int, Canon>
    var conflicts: seq<Conflict>
    var outbox: map<int, Job>
    var nextJob: int

    constructor ()
      ensures View() == EMPTY
    {
      books, aliases, events, canonical, conflicts := [], [], [], map[], [];
      outbox, nextJob := map[], 1;
    }

    function View(): Tables
      reads this
    {
      Tables(books, aliases, events, canonical, conflicts, outbox, nextJob)
    }

    /** Undo a transaction that began in state t. */
    method Rollback(t: Tables)
      modifies this
      ensures View() == t
    {
      books, aliases, events, canonical, conflicts := t.books, t.aliases, t.events, t.canonical, t.conflicts;
      outbox, nextJob := t.outbox, t.nextJob;
    }
  }
}
