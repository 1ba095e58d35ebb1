# Amazon KDP royalty sync — a verified model

The extension's background context exports a Kindle Direct Publishing royalty report to an upload service on a schedule:

- **`regularCheck`** runs both runners, but only once an e-mail address is stored.
- **The two runners.** `check90daysReport` makes a one-time 90-day backfill. `checkDailyReport` makes one 14-day report per calendar day.
- **What a runner does.** Each runner reads its status record from the store. It skips the work when the record says `completed`. Otherwise it runs `fetchAndUploadReport` and writes back `{status, retryCount + 1, range, updatedAt}`.
- **`fetchAndUploadReport`** runs four stages in order:
  1. it scrapes the CSRF token from the royalties page (`retrieveCsrfToken`);
  2. it derives the report window (`getTimeRange`);
  3. it primes and materializes the report, at most `MAXIMUM_FAILED_RETRY_COUNT + 1` times (`getLatestReportUrl`, `makePageReady`, `getReportUrl`);
  4. it downloads the file and uploads it with the stored e-mail.

  Only stages 3 and 4 name an outcome: no report URL after the loop gives `failed_fetch_url`, no file gives `failed_download`, and a failed upload gives `failed_upload`. A missing CSRF token ends nothing by itself: the loop still runs without it, the metadata read is skipped, and `getReportUrl`, which sends no token, may still return a URL.

The popup renders two things. The status table comes from the two stored records (`updateReportList`, `makeHTMLRow`, `parseTimestamp`). The books table comes from the books metadata (`updateBooksList`), with the texts escaped by `escapeHtml`.

The project has ten modules:

- **`Text`**: decimal rendering and `padStart`, `includes`/`split`/`join`, ASCII lower-casing, string order and sorted keys.
- **`Calendar`**: epoch milliseconds to civil date and time, `toISOString`, the report window and today's date key.
- **`Records`**: outcomes, status records and what `JSON.parse` makes of a stored blob.
- **`Pipeline`**: the request helpers, the retry loop and the outcome choice.
- **`Scheduler`**: the store as the fields of a class `Extension`, whose methods are the runners.
- **`Escape`**: `escapeHtml` and the entities it produces.
- **`Timestamp`**: `parseTimestamp` and a reader for its text.
- **`StatusTable`**: `makeHTMLRow` and `updateReportList`.
- **`BooksTable`**: `updateBooksList`.
- **`RunView`**: what the status table shows after a backfill run.

Network and clock results are parameters of type `Pipeline.Environment`:

- the royalties page;
- one books reply and one report reply per loop attempt;
- the download;
- the upload reply;
- the time at the start and at the end of a run.

The store is not part of the environment. The stored e-mail address and the two status blobs are the fields of `Scheduler.World` (for the specification functions) and of the class `Scheduler.Extension` (for the runners).

Every request a run sends is recorded as a `Pipeline.Call`. That record is what lets the model prove that nothing was sent.

Two conventions apply throughout:

- **Falsy strings.** A report URL, an e-mail address or a status that the code only tests for truthiness is a `string`, and `""` stands for every falsy value (`undefined`, `null`, `''`).
- **Missing numbers.** `retryCount` and `range` are `nat`, and `0` stands for a missing field. `|| 0`, `|| 90` and `|| 14` treat a missing field and a zero field alike.

## Model

| member | source | states |
|---|---|---|
| Records.SyncOutcome.Tag | background.js:339-350 | the stored tag is `completed` exactly for the completed outcome |
| Calendar.DateTimeOf | background.js:254-266 | the broken-down UTC date and time of an instant is a valid calendar value that denotes that same instant |
| Calendar.DateOfDayNumber | background.js:258 | turning a civil date into its day number and back gives the same date |
| Calendar.DateTextRoundTrip | background.js:261-263 | the `YYYY-MM-DD` text of a four-digit-year date has fixed positions and parses back to the same date |
| Calendar.IsoStringDatePrefix | background.js:381 | for four-digit years, the first ten characters of `toISOString` are the `YYYY-MM-DD` text of the instant's UTC date |
| Calendar.WindowEndText | background.js:255-256 | for four-digit years, `endDate` is today's UTC date at `T23:59:59Z` |
| Calendar.WindowStartText | background.js:257-259 | for four-digit years, `startDate` is the UTC date `period - 1` days earlier at `T00:00:00Z` |
| Calendar.WindowShape | background.js:254-266 | for four-digit years, the `endDate` that `getTimeRange` prints is today's UTC date at `T23:59:59Z` and its `startDate` is the date `period - 1` days earlier at `T00:00:00Z` |
| Calendar.WindowSpan | background.js:254-266 | for four-digit years, both strings `getTimeRange` prints start with a well-formed date that parses to a valid date, and the window covers exactly `period` days, both ends included |
| Calendar.DateKeySameDay | background.js:381 | for four-digit years, two instants get the same daily key exactly when they fall on the same UTC day |
| Text.PaddedNatDigits | popup.js:53-56 | `String(n).padStart(width, '0')` for `n < 10^width` is exactly `width` digits and reads back as `n` |
| Text.SplitJoin | background.js:190 | joining comma-free pieces with `,` and splitting the result on `,` gives back the pieces |
| Text.SortedKeysSpec | popup.js:165 | `Object.keys(m).sort()` is strictly ascending and holds every key of `m` exactly once |
| Text.SortKeys | popup.js:165 | the method returns the keys in that sorted order |
| Text.ConcatMapAppend | popup.js:161-170 | markup built by `+=` over two lists in turn is the markup of the first list followed by that of the second |
| Pipeline.AmazonResponse | background.js:119-125 | the response is kept exactly when a page arrived and its final URL does not contain `signin`, and then it is that page |
| Pipeline.CsrfExtraction | background.js:197 | no token exactly when the marker `csrftoken":{"token":"` is absent; otherwise the token is the prefix of the text after the first marker that ends at the first `"` or the first further marker, whichever comes first, or at the end of the text: it holds no `"`, no marker starts inside it, and a `"`, a marker or the end follows it |
| Pipeline.RetrieveCsrfToken | background.js:194-203 | a token is returned only for a page that was not redirected to sign-in, and for every such page the result is exactly the token extracted from its body |
| Pipeline.CommonRequestParams | background.js:138-154 | throws `CSRF token not set` exactly for a falsy token; otherwise a credentialed GET carrying the token in `X-Csrf-Token` |
| Pipeline.GetMetaData | background.js:156-173 | a falsy token throws; a failed request or a final URL containing `signin` in any letter case yields nothing; otherwise a body that does not parse rejects and one that parses is returned |
| Pipeline.SigninCheckCaseInsensitive | background.js:164 | the lower-cased check in `getMetaData` catches every URL that the check in `makeAmazonRequest` catches |
| Pipeline.Asins | background.js:190 | one ASIN per book, in list order |
| Pipeline.GetBookAsinsEmpty | background.js:183-192 | with a token, a missing metadata object, a missing book list or an empty book list all give the empty ASIN string |
| Pipeline.BookAsinsRoundTrip | background.js:183-192 | with a non-empty book list and comma-free ASINs, the joined string splits back into the books' ASINs in order |
| Pipeline.MakePageReady | background.js:241-252 | the books metadata is requested exactly when the token is truthy, and the prime request for the window is sent, carrying ASIN string `a`, exactly when `getBookAsins` returns `a` without throwing |
| Pipeline.PageReadyMaterializes | background.js:241-252 | priming never materializes a report |
| Pipeline.GetReportUrl | background.js:215-239 | a URL is found exactly when a reply arrived whose final URL does not mention `signin` and whose JSON holds a non-empty `url`, and then it is that `url` |
| Pipeline.ResolveFromBound | background.js:276-280 | from attempt `k` the loop makes between 1 and `MAXIMUM_FAILED_RETRY_COUNT + 1 - k` attempts; its URL is the last attempt's, every earlier attempt had none, it stops early only on a URL, and the count of materialize requests equals the count of attempts |
| Pipeline.ResolveReportBound | background.js:268-288 | `getLatestReportUrl` makes at most 2 attempts and sends one materialize request per attempt; a non-empty URL comes from the last attempt made, and every earlier attempt had none |
| Pipeline.ResolveReportGivesUp | background.js:268-288 | when the window can be formed and no attempt yields a URL, both attempts are made and the result is `""` |
| Pipeline.ResolveIgnoresToken | background.js:276-280 | the URL and the attempt count do not depend on the CSRF token |
| Pipeline.MaterializeWithRetry | background.js:276-280 | the do-while loop with the post-incremented counter returns the URL and sends the requests that the recursive definition `ResolveFrom` gives |
| Pipeline.LatestReportUrl | background.js:268-288 | `getLatestReportUrl` returns the URL and sends the requests of `ResolveReport`: the token probe, then the loop, or `""` when the window cannot be formed |
| Pipeline.NoTokenCalls | background.js:276-280 | without a token every request of the loop is a materialize request, and at least one is sent |
| Pipeline.NoTokenStillMaterializes | background.js:268-288 | a missing token does not stop the loop: after the probe, at least one materialize request goes out, and nothing else does |
| Pipeline.UploadFile | background.js:308-332 | the upload counts as done exactly when the e-mail is set and the response is ok |
| Pipeline.SelectOutcome | background.js:339-350 | `failed_fetch_url` iff no URL; `failed_download` iff a URL but no file; `failed_upload` iff a file but no successful upload; `completed` iff all succeed |
| Pipeline.FetchAndUploadReport | background.js:339-350 | the stage-by-stage method with early returns produces the outcome and requests of `RunPipeline` |
| Pipeline.PipelineSucceeds | background.js:339-350 | when the first attempt yields a URL and the download and upload succeed, the run completes after exactly one materialize request and its last request is the upload |
| Pipeline.UploadOnlyAfterDownload | background.js:339-350 | an upload is sent exactly when the run ends `completed` or `failed_upload` and an e-mail is set |
| Pipeline.NoUploadFrom | background.js:276-280 | the retry loop never uploads |
| Pipeline.NoUploadWhileResolving | background.js:268-288 | resolving the report URL never uploads |
| Scheduler.NextRecord | background.js:365-370 | the written record is completed iff the outcome is, with `retryCount` one above the prior count, the runner's range and the finishing time |
| Scheduler.Extension.UpdateInitialStatus | background.js:334-337 | `updateReportStatus` replaces the stored initial record and raises one refresh notice |
| Scheduler.Extension.UpdateDailyStatus | background.js:334-337 | `updateReportStatus` replaces the stored daily map and raises one refresh notice |
| Scheduler.Extension.Check90DaysReport | background.js:352-371 | the store afterwards is `RunInitial` of the store before |
| Scheduler.Extension.CheckDailyReport | background.js:373-396 | the store afterwards is `RunDaily` of the store before |
| Scheduler.Extension.RegularCheck | background.js:398-403 | the store afterwards is `RegularCheckSpec` of the store before |
| Scheduler.InitialRunsCounted | background.js:352-371 | over any sequence of runs the retry count rises by exactly the number of notices sent, at most one per run; once the record is completed, further runs change nothing |
| Scheduler.InitialRunEffect | background.js:361-370 | a run on a record that is not completed stores a record whose status is completed iff the pipeline completed, with range 90; it appends exactly the pipeline's requests and leaves the daily map and the e-mail alone |
| Scheduler.CorruptInitialRestarts | background.js:353-370 | a stored initial blob that does not parse is treated as `{}`, so the next record has `retryCount` 1 |
| Scheduler.DailyKeepsOtherDays | background.js:373-396 | when today is not completed, only today's key is added or replaced; it gets `retryCount` one above today's old count, range 14, the finishing time, and is completed exactly when the pipeline completed; every other date keeps its record; a blob that does not parse restarts from an empty map |
| Scheduler.DailyCompletedForTheDay | background.js:380-384 | after a completed daily run, later runs on the same UTC day change nothing, and a run on another day uses a different key |
| Scheduler.EmailGate | background.js:398-403 | with no e-mail nothing changes; with one, a backfill that is not completed is run and its count goes up by one, and today's daily record, if not completed, is run and its count goes up by one |
| Scheduler.RunnersCommute | background.js:402 | the two runners give the same store, notices and multiset of requests in either order, so `Promise.all` may interleave them |
| Escape.ReplaceChar | popup.js:223-227 | a global `replace` of a character that does not occur is the identity |
| Escape.EscapeHtmlConcat | popup.js:221-228 | escaping distributes over concatenation |
| Escape.EscapeHtmlPerChar | popup.js:221-228 | the five chained replacements equal the per-character escape: `&` is replaced first, so the entities produced are not escaped again |
| Escape.EscapeHtmlRoundTrip | popup.js:221-228 | decoding the five entities recovers the original text, so escaping loses nothing |
| Escape.EscapeHtmlSafe | popup.js:221-228 | escaped text holds no `<`, `>`, `"` or `'` |
| Escape.EscapeHtmlPlain | popup.js:221-228 | text without `& < > " '` is left unchanged |
| Timestamp.StampTailLayout | popup.js:53-58 | the part after the year is exactly `-MM-DD HH:MM`, each field two digits that read back as its value |
| Timestamp.StampReadsBack | popup.js:50-60 | the formatted text of a date reads back to its year, month (1-based), day, hour and minute |
| Timestamp.ParseTimestampReadsBack | popup.js:50-60 | a valid timestamp formats to text that reads back to its fields; a missing or out-of-range one formats to the `NaN` text, which does not read |
| StatusTable.StatusClass | popup.js:141-149 | `status-success` iff the status is exactly `completed`, `status-failed` otherwise |
| StatusTable.StatusText | popup.js:141-149 | `Completed` iff the status is exactly `completed`, `Failed` otherwise |
| StatusTable.MakeHtmlRow | popup.js:151-158 | a row's markup starts a new line |
| StatusTable.MakeHtmlRowCells | popup.js:140-159 | a row shows its kind, its range followed by ` days`, the status cell with the class and text chosen by the status, and the formatted timestamp |
| StatusTable.RenderRowsShape | popup.js:161-170 | the rendered markup is empty exactly when there are no rows, and otherwise starts a new line |
| StatusTable.DailyRow | popup.js:166-169 | a daily row keeps the record's status and timestamp, and its range defaults to 14 |
| StatusTable.DailyRowsSpec | popup.js:165-170 | the walk over the keys aborts exactly when some key's record has no status; otherwise there is one daily row per key, in key order |
| StatusTable.AppendDailyRows | popup.js:165-170 | the loop appends the daily rows to the markup, or returns nothing when a record has no status |
| StatusTable.ReportListHtml | popup.js:125-178 | `updateReportList` produces the markup of `ReportListView`, or nothing when it returns early |
| StatusTable.ReportListPlaceholder | popup.js:172-174 | the `No books found` placeholder is shown exactly when there is neither an initial status nor a daily record; it is always shown when the initial blob does not parse |
| StatusTable.ReportListAborts | popup.js:165-170 | the table is left untouched exactly when some daily record lacks a status |
| StatusTable.ReportRowsOrder | popup.js:161-170 | the initial row appears iff it has a status, comes first and has its range defaulting to 90; then come the daily rows in strictly ascending key order, one per stored day |
| StatusTable.CorruptDailyShowsInitialOnly | popup.js:127-138 | when the initial blob parses but the daily blob does not, the parsed initial record is kept and no daily row appears |
| RunView.BackfillShownAfterRun | popup.js:161-163 | after a backfill run, the first row reports that run's outcome, range 90 and finishing time, in a success cell exactly when the run completed |
| BooksTable.BooksHtmlShape | popup.js:108-118 | the books markup is empty exactly for an empty list, and otherwise starts a new line |
| BooksTable.BooksListHtml | popup.js:104-123 | `updateBooksList` produces the markup of `BooksListView` |
| BooksTable.BooksListShape | popup.js:104-123 | the table is left alone exactly when the metadata or its book list is missing; it shows `No Books found` exactly when the list is empty |
| BooksTable.BookRowMarkup | popup.js:110-117 | a book row holds exactly the six `<` of its template, whatever the author and title are |
| BooksTable.BooksMarkupFixed | popup.js:108-118 | book texts cannot inject markup: the table holds exactly six `<` per book |

## Left out

- **Host APIs.**
  - The `chrome.*` APIs: storage get/set, runtime messages, request interception, tabs and browsing data.
  - The store is the fields of `Scheduler.Extension`.
  - A refresh message is counted as `notices`.
- **Network plumbing.**
  - `fetch`, `FormData` and the body readers are not modelled. Their results are fields of `Pipeline.Environment`.
  - The download (`downloadFileAsBlob`) is an optional file. Its bytes are not inspected.
- **`makeAmazonRequest` error branches.** The 401 and acceptable-status branches are not modelled. A failed request is always swallowed and yields nothing. So the rethrow that would end `getLatestReportUrl` early with `''` is not covered.
- **Timers and concurrency.**
  - `setTimeout`, `setInterval` and the 500 ms pause between attempts are not modelled.
  - `Promise.all` in `regularCheck` is modelled as the backfill runner followed by the daily runner. `Scheduler.RunnersCommute` shows that the order does not matter.
- **Clock.**
  - `Date.now()` and `new Date()` are inputs. `now` is read when a run starts, and `finishedAt` becomes `updatedAt`.
  - `getTimeRange` calls `new Date()` twice. Both calls are taken to see the same instant.
- **Local time.**
  - `getTimeRange` moves the start date with local-time `setDate`, and `parseTimestamp` uses local-time getters. Both are modelled in UTC: time zones are not modelled.
  - The model's window therefore starts on the UTC day `period - 1` days before today. Near midnight in a non-UTC zone the source can differ.
- **Not modelled because they are not used in the sync path.**
  - `getRandomId` uses floating point and randomness.
  - `getAccountCreationDateFromCustomerMetadata` is never called.
  - `getCustomerMetadata` is never called.
  - `getInitialStatus` supplies the sign-in flag and the books metadata that `BooksTable.BooksListHtml` takes as input. Its own logic is not modelled.
- **DOM.**
  - `innerHTML` writes are returned values: `None` means the page is left as it was.
  - `loadStoredData`, `storeData`, `resetData`, `updateSigninStatus`, the event listeners and the message handler are not modelled.
- **Small omissions.**
  - Logging is not modelled.
  - `encodeURIComponent` of the query parameters is not modelled. The prime request carries the raw window strings and ASINs.
- **`JSON.parse` values.**
  - A stored blob that parses to `null` is not modelled. In the source it makes `reportStatus.status` throw.
  - A stored blob that parses to a number, a string, a boolean or an array is not modelled either. For the backfill runner and for the popup's initial row it acts like `{}`: its `status` and `retryCount` read as `undefined`.
  - For the daily runner such a blob does not act like `{}`. Setting `reportStatus[today]` on a primitive is lost, or throws in strict mode. On an array it sets a property that `JSON.stringify` drops. Either way today's record is never saved, so every tick runs the pipeline and uploads again.
  - For the popup's daily rows it does not act like `{}` either. A non-empty string or an array has index keys (`"ab"` gives `["0", "1"]`). An entry without a `status` among them makes `updateReportList` return early (popup.js:167), so nothing is drawn.
  - A daily entry that is `null` is represented as a record with an empty status. The popup treats both the same way.
- **`escapeHtml(undefined)`**, which a book without an author or title would cause, throws in the source. In the model, books always carry strings.
- **Key order.** `Object.keys(...).sort()` compares UTF-16 code units. The model orders strings by `char` value, which agrees for the ASCII date keys the runner writes.
- **`Pipeline.CsrfExtraction`** follows the code rather than a looser reading of it. The token is the second piece of a split on the marker, cut at the first `"`. So it also ends where a second copy of the marker begins, not only at the next `"`.
- **`StatusTable.MakeHtmlRow`**: its own contract says only that a row starts a new line. The cells are stated by `StatusTable.MakeHtmlRowCells`.
- **One clock reading per run.** The source reads the clock twice: once for today's daily key (background.js:381) and again, later, inside `getTimeRange` (background.js:255-257). The model uses the single `now` of the environment for both. A run that crosses UTC midnight between the two reads can key its record by one day and fetch the window of the next; the model does not capture that.
- **`Pipeline.LatestReportUrl`**: the model returns `""` when the window's dates fall outside the `Date` range, because `toISOString` then throws into the `catch`. Real clocks never reach that range.
