/** `updateReportList` from the popup: the status table built from the two
    stored status blobs. The DOM is left out: the renderer returns the
    markup it would assign to `innerHTML`, or `None` when it returns
    without touching the page. */
module StatusTable {
  import opened Text
  import opened Records
  import opened Timestamp

  /** The ranges the popup shows when a record has none (`|| 90`, `|| 14`). */
  const DefaultInitialRange: nat := 90
  const DefaultDailyRange: nat := 14

  /** What the status table shows for one record. */
  datatype Row = Row(kind: string, range: nat, status: string, updatedAt: Option<int>)

  /** The status cell's class: success only for a completed record. */
  function StatusClass(status: string): (c: string)
    ensures c == "status-success" <==> status == CompletedTag
    ensures c == "status-failed" <==> status != CompletedTag
  {
    if status == CompletedTag then "status-success" else "status-failed"
  }

  /** The status cell's text. */
  function StatusText(status: string): (t: string)
    ensures t == "Completed" <==> status == CompletedTag
    ensures t == "Failed" <==> status != CompletedTag
  {
    if status == CompletedTag then "Completed" else "Failed"
  }

  /** The status cell's opening: its class and its text. */
  function StatusCell(status: string): string
  {
    "<td class=\"" + StatusClass(status) + "\">" + StatusText(status)
  }

  const RowOpen: string := "\n      <tr>\n        "
  const CellGap: string := "\n        "
  const RowEnd: string := "\n      </tr>\n    "

  /** `makeHTMLRow`: the four cells of one status row. */
  function MakeHtmlRow(row: Row): (html: string)
    ensures 0 < |html| && html[0] == '\n'
  {
    RowOpen + ("<td>" + row.kind + "</td>") + CellGap + ("<td>" + NatToString(row.range) + " days</td>") + CellGap
      + StatusCell(row.status) + "</td>" + CellGap + ("<td>" + ParseTimestamp(row.updatedAt) + "</td>") + RowEnd
  }

  /** The four cells of a row template each occur in the row. */
  lemma RowParts(o: string, k: string, g: string, r: string, c: string, t: string, st: string, e: string)
    ensures var html := o + k + g + r + g + c + t + g + st + e;
      Contains(html, k) && Contains(html, r) && Contains(html, c) && Contains(html, st)
  {
    var html := o + k + g + r + g + c + t + g + st + e;
    assert html == o + k + (g + r + g + c + t + g + st + e);
    assert html == (o + k + g) + r + (g + c + t + g + st + e);
    assert html == (o + k + g + r + g) + c + (t + g + st + e);
    assert html == (o + k + g + r + g + c + t + g) + st + e;
    InfixOccurs(o, k, g + r + g + c + t + g + st + e);
    InfixOccurs(o + k + g, r, g + c + t + g + st + e);
    InfixOccurs(o + k + g + r + g, c, t + g + st + e);
    InfixOccurs(o + k + g + r + g + c + t + g, st, e);
  }

  /** A row shows its kind, its range in days, the status cell matching
      the record's status, and the formatted timestamp. */
  lemma MakeHtmlRowCells(row: Row)
    ensures Contains(MakeHtmlRow(row), "<td>" + row.kind + "</td>")
    ensures Contains(MakeHtmlRow(row), "<td>" + NatToString(row.range) + " days</td>")
    ensures Contains(MakeHtmlRow(row), StatusCell(row.status))
    ensures Contains(MakeHtmlRow(row), "<td>" + ParseTimestamp(row.updatedAt) + "</td>")
  {
    RowParts(RowOpen, "<td>" + row.kind + "</td>", CellGap, "<td>" + NatToString(row.range) + " days</td>",
      StatusCell(row.status), "</td>", "<td>" + ParseTimestamp(row.updatedAt) + "</td>", RowEnd);
  }

  /** The rows in order, concatenated. */
  function RenderRows(rows: seq<Row>): string
  {
    ConcatMap(MakeHtmlRow, rows)
  }

  /** The markup is empty exactly when there is no row, and otherwise starts
      a new line. */
  lemma RenderRowsShape(rows: seq<Row>)
    ensures RenderRows(rows) == "" <==> rows == []
    ensures rows != [] ==> RenderRows(rows)[0] == '\n'
  {
    ConcatMapHead(MakeHtmlRow, rows);
  }

  /** The placeholder shown when there is no row. */
  const NoReportsRow: string := "<td colspan=\"4\" class=\"text-center\">" + "No books found" + "</td>"

  /** The two blobs as the popup reads them: both parses sit in one `try`,
      so an initial blob that does not parse leaves the daily map empty as
      well; a missing blob reads as `{}`. */
  function LoadReports(initialBlob: Stored<StatusRecord>, dailyBlob: Stored<map<string, StatusRecord>>): (StatusRecord, map<string, StatusRecord>)
  {
    if initialBlob.Unparseable? then (EmptyRecord, map[])
    else (InitialRecord(initialBlob), DailyRecords(dailyBlob))
  }

  /** The initial row, shown only when the record has a status. */
  function InitialRows(r: StatusRecord): seq<Row>
  {
    if r.status == "" then []
    else [Row("Initial", if r.range == 0 then DefaultInitialRange else r.range, r.status, r.updatedAt)]
  }

  /** A daily row; its range defaults to 14. */
  function DailyRow(r: StatusRecord): (row: Row)
    ensures row.kind == "Daily" && row.status == r.status && row.updatedAt == r.updatedAt
    ensures row.range == if r.range == 0 then 14 else r.range
  {
    Row("Daily", if r.range == 0 then DefaultDailyRange else r.range, r.status, r.updatedAt)
  }

  /** The daily rows for `keys` in order, or `None` when some record has no
      status (the loop then returns from the whole renderer). */
  function DailyRows(m: map<string, StatusRecord>, keys: seq<string>): Option<seq<Row>>
    requires forall k :: k in keys ==> k in m
  {
    if keys == [] then Some([])
    else
      var init := keys[..|keys| - 1];
      assert forall k :: k in init ==> k in keys;
      var last := keys[|keys| - 1];
      match DailyRows(m, init)
      case None => None
      case Some(rows) => if m[last].status == "" then None else Some(rows + [DailyRow(m[last])])
  }

  /** The walk gives up exactly when some key's record has no status;
      otherwise it yields one daily row per key, in key order. */
  lemma {:induction false} DailyRowsSpec(m: map<string, StatusRecord>, keys: seq<string>)
    requires forall k :: k in keys ==> k in m
    ensures DailyRows(m, keys).None? <==> exists i :: 0 <= i < |keys| && m[keys[i]].status == ""
    ensures DailyRows(m, keys).Some? ==>
      && |DailyRows(m, keys).value| == |keys|
      && forall i :: 0 <= i < |keys| ==> DailyRows(m, keys).value[i] == DailyRow(m[keys[i]])
  {
    if keys != [] {
      var init := keys[..|keys| - 1];
      assert forall k :: k in init ==> k in keys;
      DailyRowsSpec(m, init);
      if DailyRows(m, keys).None? && DailyRows(m, init).Some? {
        assert m[keys[|keys| - 1]].status == "";
      }
      if exists i :: 0 <= i < |keys| && m[keys[i]].status == "" {
        var i :| 0 <= i < |keys| && m[keys[i]].status == "";
        if i < |keys| - 1 {
          assert init[i] == keys[i];
        }
      }
    }
  }

  lemma SortedKeysMembers(s: set<string>)
    ensures forall k :: k in SortedKeys(s) ==> k in s
  {
    SortedKeysSpec(s);
  }

  lemma DailyRowsStep(m: map<string, StatusRecord>, keys: seq<string>, i: nat)
    requires i < |keys| && forall k :: k in keys ==> k in m
    requires DailyRows(m, keys[..i]).Some? && m[keys[i]].status != ""
    ensures DailyRows(m, keys[..i + 1]) == Some(DailyRows(m, keys[..i]).value + [DailyRow(m[keys[i]])])
  {
    assert keys[..i + 1][..i] == keys[..i];
  }

  lemma DailyRowsAbort(m: map<string, StatusRecord>, keys: seq<string>, i: nat)
    requires i < |keys| && forall k :: k in keys ==> k in m
    requires m[keys[i]].status == ""
    ensures DailyRows(m, keys).None?
  {
    DailyRowsSpec(m, keys);
  }

  /** The rows of the table for the loaded records: the initial row, then
      one daily row per key in ascending key order. */
  ghost function TableRows(initial: StatusRecord, daily: map<string, StatusRecord>): Option<seq<Row>>
  {
    SortedKeysSpec(daily.Keys);
    match DailyRows(daily, SortedKeys(daily.Keys))
    case None => None
    case Some(rows) => Some(InitialRows(initial) + rows)
  }

  /** The rows `updateReportList` would show. */
  ghost function ReportRows(initialBlob: Stored<StatusRecord>, dailyBlob: Stored<map<string, StatusRecord>>): Option<seq<Row>>
  {
    var (initial, daily) := LoadReports(initialBlob, dailyBlob);
    TableRows(initial, daily)
  }

  /** The markup `updateReportList` assigns, or `None` when it returns early. */
  ghost function ReportListView(initialBlob: Stored<StatusRecord>, dailyBlob: Stored<map<string, StatusRecord>>): Option<string>
  {
    match ReportRows(initialBlob, dailyBlob)
    case None => None
    case Some(rows) =>
      var html := RenderRows(rows);
      Some(if html == "" then NoReportsRow else html)
  }

  /** `updateReportList`: the initial row, the daily rows, the placeholder. */
  method ReportListHtml(initialBlob: Stored<StatusRecord>, dailyBlob: Stored<map<string, StatusRecord>>)
    returns (html: Option<string>)
    ensures html == ReportListView(initialBlob, dailyBlob)
  {
    var (initialReport, dailyReport) := LoadReports(initialBlob, dailyBlob);
    var reportHtml := "";
    if initialReport.status != "" {
      reportHtml := MakeHtmlRow(Row("Initial", if initialReport.range == 0 then DefaultInitialRange else initialReport.range,
        initialReport.status, initialReport.updatedAt));
    }
    InitialRowsRender(initialReport);
    var dailyKeys := SortKeys(dailyReport.Keys);
    SortedKeysMembers(dailyReport.Keys);
    html := AppendDailyRows(reportHtml, dailyReport, dailyKeys);
    ReportListViewSplit(initialBlob, dailyBlob, dailyKeys);
    if html == Some("") {
      html := Some(NoReportsRow);
    }
  }

  /** The initial row's markup, or nothing. */
  lemma InitialRowsRender(r: StatusRecord)
    ensures r.status == "" ==> RenderRows(InitialRows(r)) == ""
    ensures r.status != "" ==> RenderRows(InitialRows(r)) == MakeHtmlRow(InitialRows(r)[0])
  {
    if r.status != "" {
      ConcatMapSingle(MakeHtmlRow, InitialRows(r)[0]);
    }
  }

  /** The view's markup is the initial row's followed by the daily rows'. */
  lemma ReportListViewSplit(initialBlob: Stored<StatusRecord>, dailyBlob: Stored<map<string, StatusRecord>>, keys: seq<string>)
    requires keys == SortedKeys(LoadReports(initialBlob, dailyBlob).1.Keys)
    requires forall k :: k in keys ==> k in LoadReports(initialBlob, dailyBlob).1
    ensures var (initial, daily) := LoadReports(initialBlob, dailyBlob);
      var drs := DailyRows(daily, keys);
      && (drs.None? ==> ReportListView(initialBlob, dailyBlob).None?)
      && (drs.Some? ==>
            var html := RenderRows(InitialRows(initial)) + RenderRows(drs.value);
            ReportListView(initialBlob, dailyBlob) == Some(if html == "" then NoReportsRow else html))
  {
    var (initial, daily) := LoadReports(initialBlob, dailyBlob);
    var drs := DailyRows(daily, keys);
    if drs.Some? {
      ConcatMapAppend(MakeHtmlRow, InitialRows(initial), drs.value);
    }
  }

  /** The loop of `updateReportList` over the sorted daily keys, with its
      early return when a record has no status. */
  method AppendDailyRows(reportHtml: string, dailyReport: map<string, StatusRecord>, dailyKeys: seq<string>)
    returns (html: Option<string>)
    requires forall k :: k in dailyKeys ==> k in dailyReport
    ensures DailyRows(dailyReport, dailyKeys).None? ==> html.None?
    ensures DailyRows(dailyReport, dailyKeys).Some? ==> html == Some(reportHtml + RenderRows(DailyRows(dailyReport, dailyKeys).value))
  {
    var acc := reportHtml;
    ghost var rows: seq<Row> := [];
    var i := 0;
    while i < |dailyKeys|
      invariant 0 <= i <= |dailyKeys|
      invariant DailyRows(dailyReport, dailyKeys[..i]) == Some(rows)
      invariant acc == reportHtml + RenderRows(rows)
    {
      var report := dailyReport[dailyKeys[i]];
      if report.status == "" {
        DailyRowsAbort(dailyReport, dailyKeys, i);
        return None;
      }
      DailyRowsStep(dailyReport, dailyKeys, i);
      ConcatMapSnoc(MakeHtmlRow, rows, DailyRow(report));
      AppendAssoc(reportHtml, RenderRows(rows), MakeHtmlRow(DailyRow(report)));
      rows := rows + [DailyRow(report)];
      acc := acc + MakeHtmlRow(DailyRow(report));
      i := i + 1;
    }
    assert dailyKeys[..i] == dailyKeys;
    return Some(acc);
  }

  /** The placeholder is shown exactly when there is no row: the initial
      record has no status and there is no daily record (or the initial
      blob is corrupt, which hides the daily records too). */
  lemma ReportListPlaceholder(initialBlob: Stored<StatusRecord>, dailyBlob: Stored<map<string, StatusRecord>>)
    ensures ReportListView(initialBlob, dailyBlob) == Some(NoReportsRow) <==>
      var (initial, daily) := LoadReports(initialBlob, dailyBlob);
      initial.status == "" && daily == map[]
    ensures initialBlob.Unparseable? ==> ReportListView(initialBlob, dailyBlob) == Some(NoReportsRow)
  {
    var (initial, daily) := LoadReports(initialBlob, dailyBlob);
    var keys := SortedKeys(daily.Keys);
    SortedKeysSpec(daily.Keys);
    DailyRowsSpec(daily, keys);
    if TableRows(initial, daily).Some? {
      RenderRowsShape(TableRows(initial, daily).value);
      if daily != map[] {
        var k :| k in daily.Keys;
        assert k in keys;
      }
    }
    assert NoReportsRow[0] == '<';
  }

  /** The renderer gives up, leaving the table as it was, exactly when some
      daily record has no status. */
  lemma ReportListAborts(initialBlob: Stored<StatusRecord>, dailyBlob: Stored<map<string, StatusRecord>>)
    ensures ReportListView(initialBlob, dailyBlob).None? <==>
      var daily := LoadReports(initialBlob, dailyBlob).1;
      exists k :: k in daily && daily[k].status == ""
  {
    var loaded := LoadReports(initialBlob, dailyBlob);
    TableRowsAbort(loaded.0, loaded.1);
  }

  lemma TableRowsAbort(initial: StatusRecord, daily: map<string, StatusRecord>)
    ensures TableRows(initial, daily).None? <==> exists k :: k in daily && daily[k].status == ""
  {
    var keys := SortedKeys(daily.Keys);
    SortedKeysSpec(daily.Keys);
    DailyRowsSpec(daily, keys);
    if exists k :: k in daily && daily[k].status == "" {
      var k :| k in daily && daily[k].status == "";
      assert k in keys;
      var i :| 0 <= i < |keys| && keys[i] == k;
    }
  }

  /** When the table is drawn, the initial row (if any) comes first with its
      range defaulting to 90, then one row per daily record in strictly
      ascending date-key order with its range defaulting to 14. */
  lemma ReportRowsOrder(initialBlob: Stored<StatusRecord>, dailyBlob: Stored<map<string, StatusRecord>>)
    requires ReportRows(initialBlob, dailyBlob).Some?
    ensures var loaded := LoadReports(initialBlob, dailyBlob);
      var rows := ReportRows(initialBlob, dailyBlob).value;
      var keys := SortedKeys(loaded.1.Keys);
      var n := |InitialRows(loaded.0)|;
      && |rows| == n + |keys| && |keys| == |loaded.1|
      && (loaded.0.status != "" ==>
            && n == 1 && rows[0].kind == "Initial" && rows[0].status == loaded.0.status
            && rows[0].range == (if loaded.0.range == 0 then 90 else loaded.0.range))
      && (loaded.0.status == "" ==> n == 0)
      && StrictlyAscending(keys)
      && (forall i :: 0 <= i < |keys| ==> keys[i] in loaded.1 && rows[n + i] == DailyRow(loaded.1[keys[i]]))
  {
    var loaded := LoadReports(initialBlob, dailyBlob);
    InitialRowsShape(loaded.0);
    TableRowsOrder(loaded.0, loaded.1);
  }

  lemma InitialRowsShape(r: StatusRecord)
    ensures r.status == "" ==> InitialRows(r) == []
    ensures r.status != "" ==>
      && |InitialRows(r)| == 1 && InitialRows(r)[0].kind == "Initial" && InitialRows(r)[0].status == r.status
      && InitialRows(r)[0].range == (if r.range == 0 then 90 else r.range)
  {
  }

  /** The table's rows are the head rows followed by the daily rows in key order. */
  lemma TableRowsOrder(initial: StatusRecord, daily: map<string, StatusRecord>)
    requires TableRows(initial, daily).Some?
    ensures var keys := SortedKeys(daily.Keys);
      var rows := TableRows(initial, daily).value;
      var n := |InitialRows(initial)|;
      && |rows| == n + |keys| && |keys| == |daily|
      && StrictlyAscending(keys)
      && (forall i :: 0 <= i < |keys| ==> keys[i] in daily && rows[n + i] == DailyRow(daily[keys[i]]))
  {
    var keys := SortedKeys(daily.Keys);
    SortedKeysSpec(daily.Keys);
    DailyRowsAfter(InitialRows(initial), daily, keys);
  }

  /** The daily rows after any head rows sit at the head's length onwards. */
  lemma DailyRowsAfter(head: seq<Row>, m: map<string, StatusRecord>, keys: seq<string>)
    requires forall k :: k in keys ==> k in m
    requires DailyRows(m, keys).Some?
    ensures var rows := head + DailyRows(m, keys).value;
      && |rows| == |head| + |keys|
      && forall i :: 0 <= i < |keys| ==> rows[|head| + i] == DailyRow(m[keys[i]])
  {
    DailyRowsSpec(m, keys);
  }

  /** A daily blob that does not parse hides every daily record but keeps
      the initial row. */
  lemma CorruptDailyShowsInitialOnly(initialBlob: Stored<StatusRecord>)
    requires !initialBlob.Unparseable?
    ensures ReportRows(initialBlob, Unparseable) == Some(InitialRows(InitialRecord(initialBlob)))
  {
    var none: set<string> := {};
    assert SortedKeys(none) == [];
    assert InitialRows(InitialRecord(initialBlob)) + [] == InitialRows(InitialRecord(initialBlob));
  }
}
