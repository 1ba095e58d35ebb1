/** The report pipeline of the background context: token scraping, the
    authenticated metadata reads, the "prime then materialize" report
    resolver with its bounded retry, download, upload and the choice of the
    outcome tag. Every reply from the network is an input; every request
    sent is recorded in a trace of `Call`s. */
module Pipeline {
  import opened Text
  import opened Records
  import Calendar

  const MaximumFailedRetryCount: nat := 1
  const InitialReportRange: nat := 90
  const DailyReportRange: nat := 14

  /** The text that precedes the anti-forgery token in the royalties page. */
  const CsrfMarker: string := "csrftoken\":{\"token\":\""
  const SigninMarker: string := "signin"

  /** The requests the background context sends, in the order it sends them. */
  datatype Call =
    | ProbeRoyalties                                                  // GET of the royalties page
    | GetBooksMetadata                                                // authenticated GET of the books metadata
    | PrimeReport(startDate: string, endDate: string, asins: string)  // GET of the "pages read" endpoint
    | GenerateReport(startDate: string, endDate: string)              // POST asking for the report URL
    | DownloadReport(url: string)                                     // GET of the pre-signed report
    | UploadReport(email: string)                                     // multipart POST to the collector

  /** The reply to a request sent through `makeAmazonRequest`: the transport
      failed, or a response arrived with its final URL (after redirects). */
  datatype PageReply = NoPage | Page(finalUrl: string, body: string)

  /** What `response.json()` makes of the books metadata: it does not parse,
      or it decodes to a value (`None` for JSON `null`). */
  datatype BooksJson = Malformed | Decoded(metadata: Option<BooksMetadata>)

  datatype MetaReply = NoMeta | MetaPage(finalUrl: string, json: BooksJson)

  /** The reply to the report-generation POST; `url` is `None` when the body
      does not parse or has no `url`. */
  datatype ReportReply = NoReport | ReportPage(finalUrl: string, url: Option<string>)

  /** The replies one prime-and-materialize attempt receives. */
  datatype Attempt = Attempt(books: MetaReply, report: ReportReply)

  datatype UploadReply = UploadFailed | UploadResponse(ok: bool)

  datatype ReportFile = ReportFile(bytes: seq<bv8>)

  /** The errors that escape a helper as exceptions. */
  datatype Fault = CsrfNotSet | BadJson

  datatype Result<T> = Ok(value: T) | Threw(fault: Fault)

  predicate Truthy(s: Option<string>) { s.Some? && s.value != "" }

  // ---------------------------------------------------------------------
  // Session bootstrap
  // ---------------------------------------------------------------------

  /** `makeAmazonRequest`: the body of a response whose final URL does not
      mention `signin`; nothing when the transport failed or the session lapsed. */
  function AmazonResponse(reply: PageReply): (r: Option<string>)
    ensures r.Some? <==> reply.Page? && !Contains(reply.finalUrl, SigninMarker)
    ensures r.Some? ==> r.value == reply.body
  {
    match reply
    case NoPage => None
    case Page(url, body) => if Contains(url, SigninMarker) then None else Some(body)
  }

  /** Where the first piece of a split ends. */
  function FirstIndex(s: string, sep: string): (i: nat)
    requires 0 < |sep|
    ensures i <= |s|
    ensures forall j :: 0 <= j < i ==> !OccursAt(s, sep, j)
    ensures i < |s| ==> OccursAt(s, sep, i)
  {
    match FindFrom(s, sep, 0)
    case None => |s|
    case Some(i) => i
  }

  lemma SplitFirstPiece(s: string, sep: string)
    requires 0 < |sep|
    ensures Split(s, sep)[0] == s[..FirstIndex(s, sep)]
  {
    match FindFrom(s, sep, 0)
    case None => SplitWhole(s, sep);
    case Some(i) => SplitHead(s, sep, i);
  }

  /** `text.split(marker)[1]?.split('"')[0]`. */
  function ExtractCsrf(body: string): Option<string>
  {
    var parts := Split(body, CsrfMarker);
    if |parts| < 2 then None else Some(Split(parts[1], "\"")[0])
  }

  /** The token is missing exactly when the marker is absent; otherwise it is
      the text right after the marker's first occurrence up to, not
      including, the next `"`, the next marker or the end of the page, and
      it never contains a `"` nor any occurrence of the marker. */
  lemma CsrfExtraction(body: string)
    ensures ExtractCsrf(body).None? <==> !Contains(body, CsrfMarker)
    ensures ExtractCsrf(body).Some? ==>
      var i := FindFrom(body, CsrfMarker, 0).value;
      var rest := body[i + |CsrfMarker|..];
      var t := ExtractCsrf(body).value;
      && '"' !in t
      && |t| <= |rest| && rest[..|t|] == t
      && (|t| == |rest| || rest[|t|] == '"' || OccursAt(rest, CsrfMarker, |t|))
      && (forall j :: 0 <= j < |t| ==> !OccursAt(rest, CsrfMarker, j))
  {
    match FindFrom(body, CsrfMarker, 0)
    case None =>
      SplitWhole(body, CsrfMarker);
    case Some(i) =>
      SplitHead(body, CsrfMarker, i);
      var rest := body[i + |CsrfMarker|..];
      var piece := Split(rest, CsrfMarker)[0];
      SplitFirstPiece(rest, CsrfMarker);
      FirstPieceShape(rest, CsrfMarker);
      FirstPieceShape(piece, "\"");
      QuoteFree(piece);
      var t := Split(piece, "\"")[0];
      assert ExtractCsrf(body) == Some(t);
      assert rest[..|t|] == piece[..|t|];
  }

  /** The first piece of a split is a prefix that stops at the end or at
      the separator's first occurrence. */
  lemma FirstPieceShape(s: string, sep: string)
    requires 0 < |sep|
    ensures var t := Split(s, sep)[0];
      && |t| <= |s| && s[..|t|] == t
      && (|t| == |s| || OccursAt(s, sep, |t|))
  {
    SplitFirstPiece(s, sep);
  }

  /** The text before the first `"` holds no `"`. */
  lemma QuoteFree(s: string)
    ensures var t := Split(s, "\"")[0];
      && '"' !in t
      && (|t| < |s| ==> s[|t|] == '"')
  {
    SplitFirstPiece(s, "\"");
    var k := FirstIndex(s, "\"");
    var t := s[..k];
    forall p | 0 <= p < k ensures t[p] != '"' {
      assert !OccursAt(s, "\"", p);
      assert s[p..p + 1] == [s[p]];
    }
    if k < |s| {
      assert OccursAt(s, "\"", k);
      assert s[k..k + 1] == [s[k]];
    }
  }

  /** `retrieveCsrfToken`: every failure on the way yields no token, and a
      page that is served is searched for one. */
  function RetrieveCsrfToken(reply: PageReply): (csrf: Option<string>)
    ensures csrf.Some? ==>
      && reply.Page? && !Contains(reply.finalUrl, SigninMarker)
      && csrf == ExtractCsrf(reply.body)
    ensures reply.Page? && !Contains(reply.finalUrl, SigninMarker) ==> csrf == ExtractCsrf(reply.body)
  {
    match AmazonResponse(reply)
    case None => None
    case Some(body) => ExtractCsrf(body)
  }

  // ---------------------------------------------------------------------
  // Metadata accessor
  // ---------------------------------------------------------------------

  datatype RequestParams = RequestParams(httpMethod: string, headers: seq<(string, string)>, includeCredentials: bool)

  /** `getCommonRequestParams`: refuses a missing or empty token, otherwise an
      authenticated GET that carries the token in `X-Csrf-Token`. */
  function CommonRequestParams(csrf: Option<string>): (r: Result<RequestParams>)
    ensures r.Threw? <==> !Truthy(csrf)
    ensures r.Threw? ==> r.fault == CsrfNotSet
    ensures r.Ok? ==>
      && r.value.httpMethod == "GET" && r.value.includeCredentials
      && ("X-Csrf-Token", csrf.value) in r.value.headers
  {
    if !Truthy(csrf) then Threw(CsrfNotSet)
    else Ok(RequestParams("GET", [
      ("Accept", "application/json, text/plain, */*"),
      ("Content-Type", "application/json"),
      ("X-Csrf-Token", csrf.value),
      ("X-Requested-With", "XMLHttpRequest")], true))
  }

  /** `getMetaData`: throws without a token; no value when the transport
      failed or the final URL mentions `signin` in any letter case; a body
      that is not JSON escapes as a rejected promise. */
  function GetMetaData(csrf: Option<string>, reply: MetaReply): (r: Result<Option<BooksMetadata>>)
    ensures !Truthy(csrf) ==> r == Threw(CsrfNotSet)
    ensures Truthy(csrf) && reply.MetaPage? && !Contains(ToLower(reply.finalUrl), SigninMarker) ==>
      r == (if reply.json.Malformed? then Threw(BadJson) else Ok(reply.json.metadata))
    ensures Truthy(csrf) && (reply.NoMeta? || Contains(ToLower(reply.finalUrl), SigninMarker)) ==> r == Ok(None)
  {
    if !Truthy(csrf) then Threw(CsrfNotSet)
    else match reply
      case NoMeta => Ok(None)
      case MetaPage(url, json) =>
        if Contains(ToLower(url), SigninMarker) then Ok(None)
        else match json
          case Malformed => Threw(BadJson)
          case Decoded(m) => Ok(m)
  }

  /** A redirect that `makeAmazonRequest` refuses is refused by `getMetaData` too. */
  lemma SigninCheckCaseInsensitive(url: string)
    requires Contains(url, SigninMarker)
    ensures Contains(ToLower(url), SigninMarker)
  {
    assert ToLower(SigninMarker) == SigninMarker;
    ContainsLower(url, SigninMarker);
  }

  function Asins(books: seq<Book>): (r: seq<string>)
    ensures |r| == |books| && forall i :: 0 <= i < |books| ==> r[i] == books[i].asin
  {
    seq(|books|, i requires 0 <= i < |books| => books[i].asin)
  }

  /** `getBookAsins`: the ASINs joined by commas, or `''` when the metadata
      or its book list is missing. */
  function GetBookAsins(csrf: Option<string>, reply: MetaReply): Result<string>
  {
    match GetMetaData(csrf, reply)
    case Threw(f) => Threw(f)
    case Ok(m) =>
      if m.None? || m.value.books.None? then Ok("")
      else Ok(Join(Asins(m.value.books.value), ","))
  }

  /** The comma-joined ASIN list splits back into the books' ASINs, in order,
      as long as there is a book and no ASIN holds a comma. */
  lemma BookAsinsRoundTrip(csrf: Option<string>, reply: MetaReply, books: seq<Book>)
    requires Truthy(csrf) && reply.MetaPage? && !Contains(ToLower(reply.finalUrl), SigninMarker)
    requires reply.json == Decoded(Some(BooksMetadata(Some(books))))
    requires 1 <= |books| && forall b :: b in books ==> ',' !in b.asin
    ensures GetBookAsins(csrf, reply).Ok?
    ensures Split(GetBookAsins(csrf, reply).value, ",") == Asins(books)
  {
    var asins := Asins(books);
    forall a | a in asins ensures ',' !in a {
      var i :| 0 <= i < |asins| && asins[i] == a;
      assert books[i] in books;
    }
    SplitJoin(asins, ',');
  }

  /** Without metadata, or with metadata that has no book list, the ASIN
      list is empty; an empty book list gives the empty string as well. */
  lemma GetBookAsinsEmpty(csrf: Option<string>, reply: MetaReply)
    requires Truthy(csrf)
    requires GetMetaData(csrf, reply).Ok?
    requires var m := GetMetaData(csrf, reply).value;
      m.None? || m.value.books.None? || m.value.books == Some([])
    ensures GetBookAsins(csrf, reply) == Ok("")
  {
    var m := GetMetaData(csrf, reply).value;
    if m.Some? && m.value.books == Some([]) {
      assert Asins([]) == [];
    }
  }

  /** The requests `makePageReady` sends: the metadata read and the prime
      GET, unless an exception cut it short (it swallows every exception). */
  function MakePageReady(w: Calendar.Window, csrf: Option<string>, books: MetaReply): (calls: seq<Call>)
    ensures Truthy(csrf) <==> GetBooksMetadata in calls
    ensures forall a :: PrimeReport(w.startDate, w.endDate, a) in calls <==> GetBookAsins(csrf, books) == Ok(a)
  {
    match GetBookAsins(csrf, books)
    case Threw(CsrfNotSet) => []
    case Threw(BadJson) => [GetBooksMetadata]
    case Ok(asins) => [GetBooksMetadata, PrimeReport(w.startDate, w.endDate, asins)]
  }

  /** `getReportUrl`: the `url` of the JSON reply, or "" (every falsy value)
      when the request failed, the session lapsed or the body had none. */
  function GetReportUrl(reply: ReportReply): (r: string)
    ensures r != "" <==>
      reply.ReportPage? && !Contains(reply.finalUrl, SigninMarker) && reply.url.Some? && reply.url.value != ""
    ensures r != "" ==> r == reply.url.value
  {
    match reply
    case NoReport => ""
    case ReportPage(finalUrl, url) =>
      if Contains(finalUrl, SigninMarker) || url.None? then "" else url.value
  }

  // ---------------------------------------------------------------------
  // Report resolver
  // ---------------------------------------------------------------------

  /** The resolved URL ("" for none), the number of materialize attempts and
      the requests sent. */
  datatype Resolution = Resolution(url: string, tries: nat, calls: seq<Call>)

  /** The attempts from the `k`-th on: prime, materialize, and go round again
      while there is no URL and fewer than `MaximumFailedRetryCount` retries
      were made. */
  function ResolveFrom(w: Calendar.Window, csrf: Option<string>, attempts: seq<Attempt>, k: nat): Resolution
    requires k < |attempts| == MaximumFailedRetryCount + 1
    decreases MaximumFailedRetryCount - k
  {
    var step := MakePageReady(w, csrf, attempts[k].books) + [GenerateReport(w.startDate, w.endDate)];
    var url := GetReportUrl(attempts[k].report);
    if url != "" || k == MaximumFailedRetryCount then Resolution(url, k + 1, step)
    else
      var rest := ResolveFrom(w, csrf, attempts, k + 1);
      Resolution(rest.url, rest.tries, step + rest.calls)
  }

  /** `getLatestReportUrl(period)`: probe for the token, derive the window
      (a date out of range throws, which yields ""), then resolve. */
  function ResolveReport(period: int, now: int, probe: PageReply, attempts: seq<Attempt>): Resolution
    requires |attempts| == MaximumFailedRetryCount + 1
  {
    var csrf := RetrieveCsrfToken(probe);
    match Calendar.TimeRange(period, now)
    case None => Resolution("", 0, [ProbeRoyalties])
    case Some(w) =>
      var r := ResolveFrom(w, csrf, attempts, 0);
      Resolution(r.url, r.tries, [ProbeRoyalties] + r.calls)
  }

  /** The number of materialize requests in a trace. */
  function Materializations(calls: seq<Call>): nat
  {
    if calls == [] then 0
    else (if calls[0].GenerateReport? then 1 else 0) + Materializations(calls[1..])
  }

  lemma {:induction false} MaterializationsAppend(a: seq<Call>, b: seq<Call>)
    ensures Materializations(a + b) == Materializations(a) + Materializations(b)
  {
    if a == [] {
      assert a + b == b;
    } else {
      assert (a + b)[1..] == a[1..] + b;
      MaterializationsAppend(a[1..], b);
    }
  }

  lemma PageReadyMaterializes(w: Calendar.Window, csrf: Option<string>, books: MetaReply)
    ensures Materializations(MakePageReady(w, csrf, books)) == 0
  {
    match GetBookAsins(csrf, books)
    case Threw(CsrfNotSet) =>
    case Threw(BadJson) =>
      assert MakePageReady(w, csrf, books) == [GetBooksMetadata];
    case Ok(asins) =>
      var p := PrimeReport(w.startDate, w.endDate, asins);
      assert MakePageReady(w, csrf, books) == [GetBooksMetadata, p];
      assert [GetBooksMetadata, p][1..] == [p];
      assert [p][1..] == [];
      assert Materializations([p]) == 0;
  }

  /** Attempts go on exactly while they yield no URL, never past
      `MaximumFailedRetryCount + 1`, and each sends one materialize request. */
  lemma {:induction false} ResolveFromBound(w: Calendar.Window, csrf: Option<string>, attempts: seq<Attempt>, k: nat)
    requires k < |attempts| == MaximumFailedRetryCount + 1
    ensures var r := ResolveFrom(w, csrf, attempts, k);
      && k < r.tries <= MaximumFailedRetryCount + 1
      && r.url == GetReportUrl(attempts[r.tries - 1].report)
      && (forall j :: k <= j < r.tries - 1 ==> GetReportUrl(attempts[j].report) == "")
      && (r.url == "" ==> r.tries == MaximumFailedRetryCount + 1)
      && Materializations(r.calls) == r.tries - k
    decreases MaximumFailedRetryCount - k
  {
    var step := MakePageReady(w, csrf, attempts[k].books) + [GenerateReport(w.startDate, w.endDate)];
    PageReadyMaterializes(w, csrf, attempts[k].books);
    MaterializationsAppend(MakePageReady(w, csrf, attempts[k].books), [GenerateReport(w.startDate, w.endDate)]);
    if GetReportUrl(attempts[k].report) == "" && k < MaximumFailedRetryCount {
      ResolveFromBound(w, csrf, attempts, k + 1);
      MaterializationsAppend(step, ResolveFrom(w, csrf, attempts, k + 1).calls);
    }
  }

  /** The resolver's properties from the first attempt: at most two
      materialize requests; it stops at the first attempt with a URL; with
      no URL from any attempt it makes exactly two and returns "". */
  lemma ResolveReportBound(period: int, now: int, probe: PageReply, attempts: seq<Attempt>)
    requires |attempts| == MaximumFailedRetryCount + 1
    ensures var r := ResolveReport(period, now, probe, attempts);
      && r.tries <= MaximumFailedRetryCount + 1
      && Materializations(r.calls) == r.tries
      && (r.url != "" ==>
            && r.url == GetReportUrl(attempts[r.tries - 1].report)
            && forall j :: 0 <= j < r.tries - 1 ==> GetReportUrl(attempts[j].report) == "")
  {
    match Calendar.TimeRange(period, now)
    case None =>
    case Some(w) =>
      var csrf := RetrieveCsrfToken(probe);
      ResolveFromBound(w, csrf, attempts, 0);
      MaterializationsAppend([ProbeRoyalties], ResolveFrom(w, csrf, attempts, 0).calls);
  }

  /** When no attempt yields a URL, the loop makes every attempt and
      returns the falsy URL. */
  lemma ResolveReportGivesUp(period: int, now: int, probe: PageReply, attempts: seq<Attempt>)
    requires |attempts| == MaximumFailedRetryCount + 1 && Calendar.TimeRange(period, now).Some?
    requires forall j :: 0 <= j < |attempts| ==> GetReportUrl(attempts[j].report) == ""
    ensures ResolveReport(period, now, probe, attempts).url == ""
    ensures ResolveReport(period, now, probe, attempts).tries == MaximumFailedRetryCount + 1
  {
    ResolveFromBound(Calendar.TimeRange(period, now).value, RetrieveCsrfToken(probe), attempts, 0);
  }

  /** A missing token changes only the prime requests: the URL, the number of
      attempts and the materialize requests are the same with any token. */
  lemma {:induction false} ResolveIgnoresToken(w: Calendar.Window, c1: Option<string>, c2: Option<string>, attempts: seq<Attempt>, k: nat)
    requires k < |attempts| == MaximumFailedRetryCount + 1
    ensures ResolveFrom(w, c1, attempts, k).url == ResolveFrom(w, c2, attempts, k).url
    ensures ResolveFrom(w, c1, attempts, k).tries == ResolveFrom(w, c2, attempts, k).tries
    decreases MaximumFailedRetryCount - k
  {
    if GetReportUrl(attempts[k].report) == "" && k < MaximumFailedRetryCount {
      ResolveIgnoresToken(w, c1, c2, attempts, k + 1);
    }
  }

  /** `getLatestReportUrl(period)`: the probe, the window, then the
      prime-and-materialize loop. */
  method LatestReportUrl(period: int, now: int, probe: PageReply, attempts: seq<Attempt>)
    returns (url: string, calls: seq<Call>)
    requires |attempts| == MaximumFailedRetryCount + 1
    ensures url == ResolveReport(period, now, probe, attempts).url
    ensures calls == ResolveReport(period, now, probe, attempts).calls
  {
    var csrf := RetrieveCsrfToken(probe);
    var range := Calendar.TimeRange(period, now);
    if range.None? {
      return "", [ProbeRoyalties];
    }
    var tail;
    url, tail := MaterializeWithRetry(range.value, csrf, attempts);
    calls := [ProbeRoyalties] + tail;
  }

  lemma {:induction false} NoTokenCalls(w: Calendar.Window, csrf: Option<string>, attempts: seq<Attempt>, k: nat)
    requires k < |attempts| == MaximumFailedRetryCount + 1 && !Truthy(csrf)
    ensures forall c :: c in ResolveFrom(w, csrf, attempts, k).calls ==> c == GenerateReport(w.startDate, w.endDate)
    ensures [GenerateReport(w.startDate, w.endDate)] <= ResolveFrom(w, csrf, attempts, k).calls
    decreases MaximumFailedRetryCount - k
  {
    if GetReportUrl(attempts[k].report) == "" && k < MaximumFailedRetryCount {
      NoTokenCalls(w, csrf, attempts, k + 1);
    }
  }

  lemma ResolveReportCalls(period: int, now: int, probe: PageReply, attempts: seq<Attempt>)
    requires |attempts| == MaximumFailedRetryCount + 1 && Calendar.TimeRange(period, now).Some?
    ensures ResolveReport(period, now, probe, attempts).calls
      == [ProbeRoyalties] + ResolveFrom(Calendar.TimeRange(period, now).value, RetrieveCsrfToken(probe), attempts, 0).calls
  {
  }

  /** Without a token the metadata read and the prime request are skipped
      (the thrown error is swallowed), yet every attempt still sends its
      materialize request: after the probe, the trace holds materialize
      requests only, and at least one. */
  lemma NoTokenStillMaterializes(period: int, now: int, probe: PageReply, attempts: seq<Attempt>)
    requires |attempts| == MaximumFailedRetryCount + 1
    requires Calendar.TimeRange(period, now).Some? && !Truthy(RetrieveCsrfToken(probe))
    ensures var calls := ResolveReport(period, now, probe, attempts).calls;
      var w := Calendar.TimeRange(period, now).value;
      && 2 <= |calls| && calls[0] == ProbeRoyalties
      && forall c :: c in calls[1..] ==> c == GenerateReport(w.startDate, w.endDate)
  {
    var w := Calendar.TimeRange(period, now).value;
    ResolveReportCalls(period, now, probe, attempts);
    NoTokenCalls(w, RetrieveCsrfToken(probe), attempts, 0);
    var calls := ResolveReport(period, now, probe, attempts).calls;
    assert calls[1..] == ResolveFrom(w, RetrieveCsrfToken(probe), attempts, 0).calls;
  }

  /** The do-while loop of `getLatestReportUrl`, with its post-incremented
      retry counter: `while (!reportUrl && retryCount++ < MAXIMUM_FAILED_RETRY_COUNT)`. */
  method MaterializeWithRetry(w: Calendar.Window, csrf: Option<string>, attempts: seq<Attempt>)
    returns (url: string, calls: seq<Call>)
    requires |attempts| == MaximumFailedRetryCount + 1
    ensures url == ResolveFrom(w, csrf, attempts, 0).url
    ensures calls == ResolveFrom(w, csrf, attempts, 0).calls
  {
    ghost var whole := ResolveFrom(w, csrf, attempts, 0);
    url := "";
    calls := [];
    var retryCount := 0;
    var again := true;
    while again
      invariant again ==> retryCount <= MaximumFailedRetryCount
      invariant again ==> calls + ResolveFrom(w, csrf, attempts, retryCount).calls == whole.calls
      invariant again ==> ResolveFrom(w, csrf, attempts, retryCount).url == whole.url
      invariant !again ==> calls == whole.calls && url == whole.url
      decreases if again then MaximumFailedRetryCount + 1 - retryCount else 0
    {
      ghost var before := calls;
      var step := MakePageReady(w, csrf, attempts[retryCount].books) + [GenerateReport(w.startDate, w.endDate)];
      calls := calls + step;
      url := GetReportUrl(attempts[retryCount].report);
      if url == "" {
        again := retryCount < MaximumFailedRetryCount;
        retryCount := retryCount + 1;
      } else {
        again := false;
      }
      if again {
        ResolveFromRetries(w, csrf, attempts, retryCount - 1);
        AppendAssoc(before, step, ResolveFrom(w, csrf, attempts, retryCount).calls);
      }
    }
  }

  /** An attempt without a URL, before the last one, is followed by the next. */
  lemma ResolveFromRetries(w: Calendar.Window, csrf: Option<string>, attempts: seq<Attempt>, k: nat)
    requires k < MaximumFailedRetryCount && |attempts| == MaximumFailedRetryCount + 1
    requires GetReportUrl(attempts[k].report) == ""
    ensures ResolveFrom(w, csrf, attempts, k).calls
      == MakePageReady(w, csrf, attempts[k].books) + [GenerateReport(w.startDate, w.endDate)] + ResolveFrom(w, csrf, attempts, k + 1).calls
    ensures ResolveFrom(w, csrf, attempts, k).url == ResolveFrom(w, csrf, attempts, k + 1).url
  {
  }

  // ---------------------------------------------------------------------
  // Transfer pipeline
  // ---------------------------------------------------------------------

  /** `uploadFile`: true only when an address is stored and the collector
      answered with a 2xx status; no address returns `undefined`, which is
      as falsy as `false`. */
  function UploadFile(email: string, reply: UploadReply): (ok: bool)
    ensures ok <==> email != "" && reply == UploadResponse(true)
  {
    if email == "" then false
    else match reply
      case UploadFailed => false
      case UploadResponse(ok) => ok
  }

  function UploadCalls(email: string): seq<Call>
  {
    if email == "" then [] else [UploadReport(email)]
  }

  /** The outcome tag of `fetchAndUploadReport`: the first stage that failed. */
  function SelectOutcome(url: string, file: Option<ReportFile>, uploaded: bool): (o: SyncOutcome)
    ensures o == FailedFetchUrl <==> url == ""
    ensures o == FailedDownload <==> url != "" && file.None?
    ensures o == FailedUpload <==> url != "" && file.Some? && !uploaded
    ensures o == Completed <==> url != "" && file.Some? && uploaded
  {
    if url == "" then FailedFetchUrl
    else if file.None? then FailedDownload
    else if !uploaded then FailedUpload
    else Completed
  }

  /** Everything the clock and the network answer during one run: the time
      when it starts, the replies of each stage, and the time when the
      pipeline has returned (the `updatedAt` stamp). */
  datatype Environment = Environment(
    now: int,
    probe: PageReply,
    attempts: seq<Attempt>,
    download: Option<ReportFile>,
    upload: UploadReply,
    finishedAt: int)

  predicate WellFormed(env: Environment) { |env.attempts| == MaximumFailedRetryCount + 1 }

  datatype Run = Run(outcome: SyncOutcome, calls: seq<Call>)

  /** One run of `fetchAndUploadReport(period)`: a later stage's request is
      sent only when every earlier stage succeeded. */
  function RunPipeline(period: int, env: Environment, email: string): Run
    requires WellFormed(env)
  {
    var r := ResolveReport(period, env.now, env.probe, env.attempts);
    var outcome := SelectOutcome(r.url, env.download, UploadFile(email, env.upload));
    if r.url == "" then Run(outcome, r.calls)
    else if env.download.None? then Run(outcome, r.calls + [DownloadReport(r.url)])
    else Run(outcome, r.calls + [DownloadReport(r.url)] + UploadCalls(email))
  }

  /** `fetchAndUploadReport`, stage by stage with early returns. */
  method FetchAndUploadReport(period: int, env: Environment, email: string) returns (run: Run)
    requires WellFormed(env)
    ensures run == RunPipeline(period, env, email)
  {
    var url, calls := LatestReportUrl(period, env.now, env.probe, env.attempts);
    if url == "" {
      return Run(FailedFetchUrl, calls);
    }
    calls := calls + [DownloadReport(url)];
    var file := env.download;
    if file.None? {
      return Run(FailedDownload, calls);
    }
    calls := calls + UploadCalls(email);
    var uploaded := UploadFile(email, env.upload);
    if !uploaded {
      return Run(FailedUpload, calls);
    }
    return Run(Completed, calls);
  }

  /** With every stub succeeding the run completes after one attempt, sending
      exactly one download and one upload. */
  lemma PipelineSucceeds(period: int, env: Environment, email: string)
    requires WellFormed(env) && Calendar.TimeRange(period, env.now).Some?
    requires GetReportUrl(env.attempts[0].report) != ""
    requires env.download.Some? && email != "" && env.upload == UploadResponse(true)
    ensures RunPipeline(period, env, email).outcome == Completed
    ensures Materializations(RunPipeline(period, env, email).calls) == 1
    ensures RunPipeline(period, env, email).calls[|RunPipeline(period, env, email).calls| - 1] == UploadReport(email)
  {
    ResolveReportBound(period, env.now, env.probe, env.attempts);
    var r := ResolveReport(period, env.now, env.probe, env.attempts);
    MaterializationsAppend(r.calls, [DownloadReport(r.url)]);
    MaterializationsAppend(r.calls + [DownloadReport(r.url)], [UploadReport(email)]);
  }

  predicate Uploads(calls: seq<Call>) { exists c :: c in calls && c.UploadReport? }

  /** The report is uploaded exactly when the run got as far as the upload
      stage and an address is stored. */
  lemma UploadOnlyAfterDownload(period: int, env: Environment, email: string)
    requires WellFormed(env)
    ensures var run := RunPipeline(period, env, email);
      Uploads(run.calls) <==> (run.outcome == Completed || run.outcome == FailedUpload) && email != ""
  {
    var r := ResolveReport(period, env.now, env.probe, env.attempts);
    var run := RunPipeline(period, env, email);
    NoUploadWhileResolving(period, env);
    if r.url == "" {
      assert run.calls == r.calls;
    } else if env.download.None? {
      assert run.calls == r.calls + [DownloadReport(r.url)];
      assert !Uploads(run.calls);
    } else if email == "" {
      assert run.calls == r.calls + [DownloadReport(r.url)] + [];
      assert !Uploads(run.calls);
    } else {
      assert UploadReport(email) in run.calls;
    }
  }

  lemma {:induction false} NoUploadFrom(w: Calendar.Window, csrf: Option<string>, attempts: seq<Attempt>, k: nat)
    requires k < |attempts| == MaximumFailedRetryCount + 1
    ensures forall c :: c in ResolveFrom(w, csrf, attempts, k).calls ==> !c.UploadReport?
    decreases MaximumFailedRetryCount - k
  {
    if GetReportUrl(attempts[k].report) == "" && k < MaximumFailedRetryCount {
      NoUploadFrom(w, csrf, attempts, k + 1);
    }
  }

  lemma NoUploadWhileResolving(period: int, env: Environment)
    requires WellFormed(env)
    ensures !Uploads(ResolveReport(period, env.now, env.probe, env.attempts).calls)
  {
    match Calendar.TimeRange(period, env.now)
    case None =>
    case Some(w) => NoUploadFrom(w, RetrieveCsrfToken(env.probe), env.attempts, 0);
  }
}
