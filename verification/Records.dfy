/** The values the background context persists and the popup reads back:
    sync outcomes, status records, the result of parsing a stored JSON
    blob, and the books metadata returned by the upstream. */
module Records {
  import opened Text

  /** The four results of one `fetchAndUploadReport` run. */
  datatype SyncOutcome = Completed | FailedFetchUrl | FailedDownload | FailedUpload
  {
    /** The tag written into the status record. */
    function Tag(): (t: string)
      ensures t == CompletedTag <==> this == Completed
    {
      match this
      case Completed => "completed"
      case FailedFetchUrl => "failed_fetch_url"
      case FailedDownload => "failed_download"
      case FailedUpload => "failed_upload"
    }
  }

  const CompletedTag: string := "completed"

  /** `{status, retryCount, range, updatedAt}`. A missing or falsy field is
      "" for `status` and 0 for `retryCount` and `range`: the source reads
      these only through `===`, `|| 0` and `|| 90` / `|| 14`, which do not
      tell a missing field from a falsy one. */
  datatype StatusRecord = StatusRecord(status: string, retryCount: nat, range: nat, updatedAt: Option<int>)

  /** The parse of `{}`. */
  const EmptyRecord: StatusRecord := StatusRecord("", 0, 0, None)

  predicate IsCompleted(r: StatusRecord) { r.status == CompletedTag }

  /** What `JSON.parse` makes of a stored blob: the store has no entry
      (read as `'{}'`), the text does not parse, or it parses to a value. */
  datatype Stored<T> = Absent | Unparseable | Parsed(value: T)

  /** The initial record as the background runner reads it; anything that
      does not parse counts as the empty record. */
  function InitialRecord(b: Stored<StatusRecord>): StatusRecord
  {
    if b.Parsed? then b.value else EmptyRecord
  }

  /** The date-keyed daily records as the background runner reads them. */
  function DailyRecords(b: Stored<map<string, StatusRecord>>): map<string, StatusRecord>
  {
    if b.Parsed? then b.value else map[]
  }

  datatype Book = Book(asin: string, author: string, bookName: string)

  /** A decoded metadata object; `books` is `None` when `.Books` is missing or falsy. */
  datatype BooksMetadata = BooksMetadata(books: Option<seq<Book>>)
}
