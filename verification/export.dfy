/**
 * CSV and plain-text reports of attendance (`ExportService` of the newer
 * backend). The query selects attendance rows by meeting, Sonta Head and
 * period, newest first; each row becomes eight cells that are wrapped in
 * '"' and joined by ',', and the lines are joined by '\n'. The text
 * "PDF" is the same CSV with every ',' turned into " | " and every '"'
 * removed, between a title block and a footer.
 *
 * The clock, `Date.prototype.toLocaleString`, `Number.prototype.toFixed`
 * and the parsing of the query's ISO dates are parameters.
 */
module Export {
  import opened Wrappers
  import opened Strings
  import Seqs
  import Meetings
  import SontaHeads
  import Attendance
  import Analytics

  type Record = Attendance.Record

  // ---------------------------------------------------------------------
  // The query
  // ---------------------------------------------------------------------

  /** `ExportReportDto` without its `format`; the dates are the strings the client sent. */
  datatype ExportQuery = ExportQuery(meetingId: Option<string>, sontaHeadId: Option<string>,
                                     startDate: Option<string>, endDate: Option<string>)

  /** A query field is used when it is present and not empty. */
  predicate Given(v: Option<string>) {
    v.Some? && v.value != ""
  }

  /** The period filter is added only when both ends are given. */
  predicate Dated(q: ExportQuery) {
    Given(q.startDate) && Given(q.endDate)
  }

  /** The `where` clause: `Between` is inclusive at both ends. */
  predicate Selected(q: ExportQuery, instant: string -> int, r: Record) {
    (Given(q.meetingId) ==> r.meetingId == q.meetingId.value)
    && (Given(q.sontaHeadId) ==> r.sontaHeadId == q.sontaHeadId.value)
    && (Dated(q) ==> instant(q.startDate.value) <= r.at <= instant(q.endDate.value))
  }

  function Where(q: ExportQuery, instant: string -> int): Record -> bool {
    r => Selected(q, instant, r)
  }

  /** The rows `find` returns, ordered by check-in time, newest first. */
  function Fetch(records: seq<Record>, q: ExportQuery, instant: string -> int): (rows: seq<Record>)
    ensures Analytics.NewestFirst(rows)
    ensures multiset(rows) == multiset(Seqs.Keep(records, Where(q, instant)))
    ensures forall r :: r in rows <==> r in records && Selected(q, instant, r)
  {
    var kept := Seqs.Keep(records, Where(q, instant));
    var rows := Analytics.SortNewestFirst(kept);
    assert forall r :: r in rows <==> r in multiset(rows);
    assert forall r :: r in kept <==> r in multiset(kept);
    rows
  }

  /**
   * The overview and the export count the same check-ins: for the same
   * period and no meeting or head filter, the overview's total, late and
   * manual counts are the exported rows, their late rows and their
   * manual rows.
   */
  lemma OverviewCountsExportRows(meetings: seq<Meetings.Meeting>, records: seq<Record>, heads: seq<SontaHeads.SontaHead>,
                                 q: Analytics.Query, eq: ExportQuery, instant: string -> int)
    requires !Given(eq.meetingId) && !Given(eq.sontaHeadId)
    requires Dated(eq) <==> q.startDate.Some? && q.endDate.Some?
    requires Dated(eq) ==> q.startDate == Some(instant(eq.startDate.value)) && q.endDate == Some(instant(eq.endDate.value))
    ensures var o := Analytics.GetOverview(meetings, records, heads, q);
            var rows := Fetch(records, eq, instant);
            && o.totalAttendance == |rows|
            && o.lateArrivals == |Seqs.Keep(rows, Attendance.Late)|
            && o.manualCheckIns == |Seqs.Keep(rows, Attendance.Manual)|
  {
    var inPeriod := Seqs.Keep(records, Analytics.RecordInPeriod(q));
    var rows := Fetch(records, eq, instant);
    Seqs.KeepSame(records, Analytics.RecordInPeriod(q), Where(eq, instant));
    assert multiset(inPeriod) == multiset(rows);
    assert |multiset(inPeriod)| == |inPeriod| && |multiset(rows)| == |rows|;
    Seqs.KeepPermutation(inPeriod, rows, Attendance.Late);
    Seqs.KeepPermutation(inPeriod, rows, Attendance.Manual);
  }

  /** With no filter every attendance row is exported. */
  lemma EmptyQueryExportsAll(records: seq<Record>, instant: string -> int)
    ensures multiset(Fetch(records, ExportQuery(None, None, None, None), instant)) == multiset(records)
  {
    var q := ExportQuery(None, None, None, None);
    Seqs.KeepAll(records, Where(q, instant));
  }

  /** A single date bound, or an empty one, filters nothing. */
  lemma HalfPeriodIgnored(q: ExportQuery, instant: string -> int, r: Record)
    requires !Given(q.startDate) || !Given(q.endDate)
    ensures Selected(q, instant, r) <==> Selected(q.(startDate := None, endDate := None), instant, r)
  {
  }

  // ---------------------------------------------------------------------
  // Cells
  // ---------------------------------------------------------------------

  const Header: seq<string> := ["Name", "Phone", "Meeting", "Check-in Time", "Status", "Method", "Confidence Score", "Late"]

  /** The relations a row is loaded with exist (they are foreign keys). */
  predicate Linked(r: Record, heads: seq<SontaHeads.SontaHead>, meetings: seq<Meetings.Meeting>) {
    SontaHeads.IndexOf(heads, r.sontaHeadId).Some? && Analytics.FindMeeting(meetings, r.meetingId).Some?
  }

  /** The eight cells of one attendance row. */
  function Cells(r: Record, heads: seq<SontaHeads.SontaHead>, meetings: seq<Meetings.Meeting>,
                 localeTime: int -> string, fixed1: int -> string): (c: seq<string>)
    requires Linked(r, heads, meetings)
    ensures |c| == |Header|
    ensures c[0] == heads[SontaHeads.IndexOf(heads, r.sontaHeadId).value].name
    ensures c[1] == heads[SontaHeads.IndexOf(heads, r.sontaHeadId).value].phone
    ensures c[2] == meetings[Analytics.FindMeeting(meetings, r.meetingId).value].title
    ensures c[3] == localeTime(r.at)
    ensures c[4] == "Present"
    ensures c[5] == "Manual" <==> r.checkInMethod == Attendance.ManualAdmin
    ensures c[5] == "Manual" || c[5] == "Facial Recognition"
    ensures c[6] == "N/A" <==> !Meetings.Truthy(r.confidence)
    ensures Meetings.Truthy(r.confidence) ==> c[6] == fixed1(r.confidence.value) + "%"
    ensures c[7] == "Yes" <==> r.isLate
    ensures c[7] == "Yes" || c[7] == "No"
  {
    var h := heads[SontaHeads.IndexOf(heads, r.sontaHeadId).value];
    var m := meetings[Analytics.FindMeeting(meetings, r.meetingId).value];
    var score := if Meetings.Truthy(r.confidence) then fixed1(r.confidence.value) + "%" else "N/A";
    assert Meetings.Truthy(r.confidence) ==> score[|score| - 1] == '%';
    [h.name, h.phone, m.title, localeTime(r.at), "Present",
     if r.checkInMethod == Attendance.ManualAdmin then "Manual" else "Facial Recognition",
     score,
     if r.isLate then "Yes" else "No"]
  }

  /**
   * The score cell as the service runs it. PostgreSQL hands a
   * `decimal(5,2)` column back as text ("87.00", and "0.00" for a zero
   * score); a non-empty text is truthy and has no `toFixed`, so every
   * stored score throws a TypeError.
   */
  const NoToFixedMsg := "a.facialConfidenceScore.toFixed is not a function"

  function ScoreCellAsWritten(confidence: Option<int>): (c: Result<string, string>)
    ensures c.Ok? <==> confidence.None?
    ensures c.Ok? ==> c.value == "N/A"
    ensures c.Err? ==> c.error == NoToFixedMsg
  {
    match confidence
    case None => Ok("N/A")
    case Some(v) =>
      var text := Attendance.ScoreText(v);
      if text != "" then Err(NoToFixedMsg) else Ok("N/A")
  }

  /** A score of 0 is shown as missing (with the score read as a number). */
  lemma ZeroScoreIsNotAvailable(r: Record, heads: seq<SontaHeads.SontaHead>, meetings: seq<Meetings.Meeting>,
                                localeTime: int -> string, fixed1: int -> string)
    requires Linked(r, heads, meetings) && r.confidence == Some(0)
    ensures Cells(r, heads, meetings, localeTime, fixed1)[6] == "N/A"
  {
  }

  /** The cells of every fetched row. */
  function Body(rows: seq<Record>, heads: seq<SontaHeads.SontaHead>, meetings: seq<Meetings.Meeting>,
                localeTime: int -> string, fixed1: int -> string): (g: seq<seq<string>>)
    requires forall r :: r in rows ==> Linked(r, heads, meetings)
    ensures |g| == |rows|
    ensures forall i :: 0 <= i < |rows| ==> g[i] == Cells(rows[i], heads, meetings, localeTime, fixed1)
  {
    seq(|rows|, i requires 0 <= i < |rows| => Cells(rows[i], heads, meetings, localeTime, fixed1))
  }

  // ---------------------------------------------------------------------
  // Rendering
  // ---------------------------------------------------------------------

  function Quote(cell: string): string {
    "\"" + cell + "\""
  }

  function Quoted(cells: seq<string>): (q: seq<string>)
    ensures |q| == |cells|
    ensures forall i :: 0 <= i < |cells| ==> q[i] == Quote(cells[i])
  {
    seq(|cells|, i requires 0 <= i < |cells| => Quote(cells[i]))
  }

  /** One CSV line: quoted cells joined by ','. */
  function Line(cells: seq<string>): string
    requires |cells| >= 1
  {
    Join(Quoted(cells), ',')
  }

  lemma LineOne(cell: string)
    ensures Line([cell]) == Quote(cell)
  {
    assert Quoted([cell]) == [Quote(cell)];
  }

  /** A line is its first quoted cell, a ',' and the line of the others. */
  lemma LineCons(cells: seq<string>)
    requires |cells| > 1
    ensures Line(cells) == Quote(cells[0]) + [','] + Line(cells[1..])
  {
    assert Quoted(cells)[1..] == Quoted(cells[1..]);
  }

  predicate Rectangular(grid: seq<seq<string>>) {
    forall i :: 0 <= i < |grid| ==> |grid[i]| >= 1
  }

  function Lines(grid: seq<seq<string>>): (ls: seq<string>)
    requires Rectangular(grid)
    ensures |ls| == |grid|
    ensures forall i :: 0 <= i < |grid| ==> ls[i] == Line(grid[i])
  {
    seq(|grid|, i requires 0 <= i < |grid| => Line(grid[i]))
  }

  /** The CSV text of a non-empty grid: lines joined by '\n'. */
  function Render(grid: seq<seq<string>>): string
    requires |grid| >= 1 && Rectangular(grid)
  {
    Join(Lines(grid), '\n')
  }

  /** No cell of the grid holds `x`. */
  predicate Avoids(grid: seq<seq<string>>, x: char) {
    forall i, j :: 0 <= i < |grid| && 0 <= j < |grid[i]| ==> x !in grid[i][j]
  }

  /**
   * `exportToCSV`: the header line, then one line per selected row, newest
   * first; with nothing selected the file is the header line alone.
   */
  function Csv(records: seq<Record>, heads: seq<SontaHeads.SontaHead>, meetings: seq<Meetings.Meeting>,
               q: ExportQuery, instant: string -> int, localeTime: int -> string, fixed1: int -> string): (csv: string)
    requires forall r :: r in records ==> Linked(r, heads, meetings)
    ensures StartsWith(csv, Line(Header))
    ensures |Fetch(records, q, instant)| == 0 ==> csv == Line(Header)
    ensures var rows := Fetch(records, q, instant);
            |rows| > 0 ==> StartsWith(csv, Line(Header) + "\n" + Line(Cells(rows[0], heads, meetings, localeTime, fixed1)))
  {
    var rows := Fetch(records, q, instant);
    var grid := [Header] + Body(rows, heads, meetings, localeTime, fixed1);
    RenderOpens(grid);
    Render(grid)
  }

  /** A rendered grid opens with its first line, then '\n' and its second line if there is one. */
  lemma RenderOpens(grid: seq<seq<string>>)
    requires |grid| >= 1 && Rectangular(grid)
    ensures StartsWith(Render(grid), Line(grid[0]))
    ensures |grid| == 1 ==> Render(grid) == Line(grid[0])
    ensures |grid| >= 2 ==> StartsWith(Render(grid), Line(grid[0]) + "\n" + Line(grid[1]))
  {
    var ls := Lines(grid);
    var csv := Render(grid);
    if |grid| >= 2 {
      var tail := Join(ls[1..], '\n');
      assert csv == ls[0] + ['\n'] + tail;
      assert tail[..|ls[1]|] == ls[1];
      var opening := ls[0] + "\n" + ls[1];
      assert csv[..|opening|] == opening;
    }
  }

  /**
   * `exportToCSV` as written: the rows are mapped in order, and a row with
   * a stored score throws; when no fetched row has one, the text is the
   * one `Csv` gives.
   */
  function CsvAsWritten(records: seq<Record>, heads: seq<SontaHeads.SontaHead>, meetings: seq<Meetings.Meeting>,
                        q: ExportQuery, instant: string -> int, localeTime: int -> string, fixed1: int -> string)
    : (r: Result<string, HttpError>)
    requires forall r :: r in records ==> Linked(r, heads, meetings)
    ensures r.Err? <==> exists x :: x in Fetch(records, q, instant) && x.confidence.Some?
    ensures r.Err? ==> r.error == ServerError(NoToFixedMsg)
    ensures r.Ok? ==> r.value == Csv(records, heads, meetings, q, instant, localeTime, fixed1)
  {
    var rows := Fetch(records, q, instant);
    if exists i :: 0 <= i < |rows| && ScoreCellAsWritten(rows[i].confidence).Err? then
      Err(ServerError(NoToFixedMsg))
    else
      assert forall x :: x in rows ==> x.confidence.None? by {
        forall x | x in rows ensures x.confidence.None? {
          var i :| 0 <= i < |rows| && rows[i] == x;
        }
      }
      Ok(Csv(records, heads, meetings, q, instant, localeTime, fixed1))
  }

  /**
   * The discrepancy: a selected row with a stored score, even 0, makes the
   * whole export fail, where the numeric reading prints the score or 'N/A'.
   */
  lemma ScoredRowBreaksExport(records: seq<Record>, heads: seq<SontaHeads.SontaHead>, meetings: seq<Meetings.Meeting>,
                              q: ExportQuery, instant: string -> int, localeTime: int -> string, fixed1: int -> string,
                              r: Record)
    requires forall x :: x in records ==> Linked(x, heads, meetings)
    requires r in records && Selected(q, instant, r) && r.confidence == Some(0)
    ensures CsvAsWritten(records, heads, meetings, q, instant, localeTime, fixed1) == Err(ServerError(NoToFixedMsg))
    ensures Cells(r, heads, meetings, localeTime, fixed1)[6] == "N/A"
  {
    assert r in Fetch(records, q, instant);
  }

  lemma QuoteAvoids(cell: string, x: char)
    requires x != '"' && x !in cell
    ensures x !in Quote(cell)
  {
  }

  lemma LineAvoids(cells: seq<string>, x: char)
    requires |cells| >= 1 && x != '"' && x != ','
    requires forall j :: 0 <= j < |cells| ==> x !in cells[j]
    ensures x !in Line(cells)
  {
    forall j | 0 <= j < |cells| ensures x !in Quoted(cells)[j] {
      QuoteAvoids(cells[j], x);
    }
    JoinAvoids(Quoted(cells), ',', x);
  }

  /** Without line breaks in the cells, splitting the CSV on '\n' gives back one line per grid row. */
  lemma RenderSplits(grid: seq<seq<string>>)
    requires |grid| >= 1 && Rectangular(grid) && Avoids(grid, '\n')
    ensures Split(Render(grid), '\n') == Lines(grid)
  {
    var ls := Lines(grid);
    forall i | 0 <= i < |grid| ensures '\n' !in ls[i] {
      LineAvoids(grid[i], '\n');
    }
    SplitJoin(ls, '\n');
  }

  /** No cell of the row holds `x`. */
  predicate Plain(cells: seq<string>, x: char) {
    forall j :: 0 <= j < |cells| ==> x !in cells[j]
  }

  /** The grid of a CSV export avoids `x` when the header and every selected row do. */
  lemma ExportAvoids(records: seq<Record>, heads: seq<SontaHeads.SontaHead>, meetings: seq<Meetings.Meeting>,
                     rows: seq<Record>, localeTime: int -> string, fixed1: int -> string, x: char)
    requires forall r :: r in records ==> Linked(r, heads, meetings)
    requires forall r :: r in records ==> Plain(Cells(r, heads, meetings, localeTime, fixed1), x)
    requires forall r :: r in rows ==> r in records
    requires Plain(Header, x)
    ensures Avoids([Header] + Body(rows, heads, meetings, localeTime, fixed1), x)
  {
    var body := Body(rows, heads, meetings, localeTime, fixed1);
    forall k | 0 <= k < |body| ensures Plain(body[k], x) {
      assert rows[k] in records;
    }
    GridAvoids(Header, body, x);
  }

  /** A grid avoids `x` when its header and each body row do. */
  lemma GridAvoids(header: seq<string>, body: seq<seq<string>>, x: char)
    requires Plain(header, x)
    requires forall k :: 0 <= k < |body| ==> Plain(body[k], x)
    ensures Avoids([header] + body, x)
  {
    var grid := [header] + body;
    forall i | 0 <= i < |grid| ensures Plain(grid[i], x) {
      if i > 0 {
        assert grid[i] == body[i - 1];
      }
    }
  }

  /** Letters, spaces and '-' only. */
  predicate Wordy(s: string) {
    forall k :: 0 <= k < |s| ==> ('A' <= s[k] <= 'Z') || ('a' <= s[k] <= 'z') || s[k] == ' ' || s[k] == '-'
  }

  lemma WordyAvoids(s: string)
    requires Wordy(s)
    ensures '\n' !in s && ',' !in s && '"' !in s
  {
  }

  /** Every header cell is made of letters, spaces and '-'. */
  lemma HeaderWordy()
    ensures forall j :: 0 <= j < |Header| ==> Wordy(Header[j])
  {
    assert Wordy("Name") && Wordy("Phone") && Wordy("Meeting") && Wordy("Check-in Time");
    assert Wordy("Status") && Wordy("Method") && Wordy("Confidence Score") && Wordy("Late");
  }

  lemma HeaderAvoids()
    ensures Plain(Header, '\n') && Plain(Header, ',') && Plain(Header, '"')
  {
    HeaderWordy();
    forall j | 0 <= j < |Header|
      ensures '\n' !in Header[j] && ',' !in Header[j] && '"' !in Header[j]
    {
      WordyAvoids(Header[j]);
    }
  }

  /** Splitting a rendered grid on '\n' gives the header line, then one line per body row. */
  lemma RenderRows(header: seq<string>, body: seq<seq<string>>)
    requires |header| >= 1 && Rectangular(body) && Avoids([header] + body, '\n')
    ensures var lines := Split(Render([header] + body), '\n');
            && |lines| == |body| + 1
            && lines[0] == Line(header)
            && forall i :: 0 <= i < |body| ==> lines[i + 1] == Line(body[i])
  {
    var grid := [header] + body;
    RenderSplits(grid);
    var ls := Lines(grid);
    forall i | 0 <= i < |body| ensures ls[i + 1] == Line(body[i]) {
      assert grid[i + 1] == body[i];
    }
  }

  /**
   * The first CSV line is the header, and line `i + 1` is the `i`-th
   * selected row, as long as no cell holds a line break.
   */
  lemma CsvLines(records: seq<Record>, heads: seq<SontaHeads.SontaHead>, meetings: seq<Meetings.Meeting>,
                 q: ExportQuery, instant: string -> int, localeTime: int -> string, fixed1: int -> string)
    requires forall r :: r in records ==> Linked(r, heads, meetings)
    requires forall r :: r in records ==> Plain(Cells(r, heads, meetings, localeTime, fixed1), '\n')
    ensures var lines := Split(Csv(records, heads, meetings, q, instant, localeTime, fixed1), '\n');
            var rows := Fetch(records, q, instant);
            && |lines| == |rows| + 1
            && lines[0] == Line(Header)
            && forall i :: 0 <= i < |rows| ==> lines[i + 1] == Line(Cells(rows[i], heads, meetings, localeTime, fixed1))
  {
    var rows := Fetch(records, q, instant);
    var body := Body(rows, heads, meetings, localeTime, fixed1);
    HeaderAvoids();
    ExportAvoids(records, heads, meetings, rows, localeTime, fixed1, '\n');
    RenderRows(Header, body);
  }

  // ---------------------------------------------------------------------
  // Reading a line back
  // ---------------------------------------------------------------------

  /** The position of the first '"' in `s`, or `|s|`. */
  function QuoteAt(s: string): (k: nat)
    ensures k <= |s|
    ensures forall i :: 0 <= i < k ==> s[i] != '"'
    ensures k < |s| ==> s[k] == '"'
    decreases |s|
  {
    if |s| == 0 || s[0] == '"' then 0 else 1 + QuoteAt(s[1..])
  }

  /**
   * A reader for lines of quoted cells: '"', the cell up to the next '"',
   * '"', then ',' and the next cell or the end of the line.
   */
  function Unquote(line: string): Option<seq<string>>
    decreases |line|
  {
    if |line| == 0 || line[0] != '"' then None
    else
      var body := line[1..];
      var k := QuoteAt(body);
      if k == |body| then None
      else
        var rest := body[k + 1..];
        if |rest| == 0 then Some([body[..k]])
        else if rest[0] != ',' then None
        else
          match Unquote(rest[1..])
          case None => None
          case Some(cells) => Some([body[..k]] + cells)
  }

  lemma UnquoteHead(cell: string, tail: string)
    requires '"' !in cell
    ensures var body := (Quote(cell) + tail)[1..];
            && QuoteAt(body) == |cell|
            && body[..|cell|] == cell
            && body[|cell| + 1..] == tail
  {
    var body := (Quote(cell) + tail)[1..];
    assert body == cell + "\"" + tail;
    assert body[|cell|] == '"';
    assert forall i :: 0 <= i < |cell| ==> body[i] == cell[i];
    assert QuoteAt(body) == |cell|;
  }

  lemma UnquoteLast(cell: string)
    requires '"' !in cell
    ensures Unquote(Quote(cell)) == Some([cell])
  {
    UnquoteHead(cell, "");
    assert Quote(cell) + "" == Quote(cell);
  }

  lemma UnquoteStep(cell: string, tail: string)
    requires '"' !in cell
    ensures Unquote(Quote(cell) + [','] + tail) ==
            match Unquote(tail)
            case None => None
            case Some(cells) => Some([cell] + cells)
  {
    UnquoteHead(cell, [','] + tail);
    assert Quote(cell) + [','] + tail == Quote(cell) + ([','] + tail);
    assert ([','] + tail)[1..] == tail;
  }

  /** Cells without '"' are read back exactly, commas included. */
  lemma {:induction false} UnquoteLine(cells: seq<string>)
    requires |cells| >= 1
    requires forall j :: 0 <= j < |cells| ==> '"' !in cells[j]
    ensures Unquote(Line(cells)) == Some(cells)
    decreases |cells|
  {
    if |cells| == 1 {
      LineOne(cells[0]);
      UnquoteLast(cells[0]);
      assert cells == [cells[0]];
    } else {
      LineCons(cells);
      UnquoteStep(cells[0], Line(cells[1..]));
      UnquoteLine(cells[1..]);
      assert [cells[0]] + cells[1..] == cells;
    }
  }

  /**
   * Quotes inside a cell are not doubled (section 2, rule 7, of RFC 4180),
   * so the one cell `a","b` and the two cells `a` and `b` give the same line.
   */
  lemma EmbeddedQuoteIsAmbiguous()
    ensures Line(["a\",\"b"]) == Line(["a", "b"])
  {
    LineOne("a\",\"b");
    LineCons(["a", "b"]);
    LineOne("b");
    assert ["a", "b"][1..] == ["b"];
  }

  // ---------------------------------------------------------------------
  // The text report
  // ---------------------------------------------------------------------

  /** `csv.replace(/,/g, ' | ').replace(/"/g, '')`. */
  function Table(csv: string): (t: string)
    ensures '"' !in t
    ensures ',' !in t
  {
    DropChar(ReplaceChar(csv, ',', " | "), '"')
  }

  /** The cells of one row separated by " | ". */
  function Spaced(cells: seq<string>): string
    requires |cells| >= 1
  {
    if |cells| == 1 then cells[0] else cells[0] + " | " + Spaced(cells[1..])
  }

  lemma TableConcat(a: string, b: string)
    ensures Table(a + b) == Table(a) + Table(b)
  {
    ReplaceCharConcat(a, b, ',', " | ");
    DropCharConcat(ReplaceChar(a, ',', " | "), ReplaceChar(b, ',', " | "), '"');
  }

  lemma TableQuote(cell: string)
    requires ',' !in cell && '"' !in cell
    ensures Table(Quote(cell)) == cell
  {
    TableConcat("\"", cell);
    TableConcat("\"" + cell, "\"");
    assert Table("\"") == "";
  }

  /** A line of cells without ',' or '"' turns into the cells separated by " | ". */
  lemma {:induction false} TableLine(cells: seq<string>)
    requires |cells| >= 1
    requires forall j :: 0 <= j < |cells| ==> ',' !in cells[j] && '"' !in cells[j]
    ensures Table(Line(cells)) == Spaced(cells)
    decreases |cells|
  {
    TableQuote(cells[0]);
    if |cells| == 1 {
      LineOne(cells[0]);
    } else {
      var tail := Line(cells[1..]);
      LineCons(cells);
      TableConcat(Quote(cells[0]) + [','], tail);
      TableConcat(Quote(cells[0]), [',']);
      assert Table([',']) == " | ";
      TableLine(cells[1..]);
    }
  }

  function SpacedLines(grid: seq<seq<string>>): (ls: seq<string>)
    requires Rectangular(grid)
    ensures |ls| == |grid|
    ensures forall i :: 0 <= i < |grid| ==> ls[i] == Spaced(grid[i])
  {
    seq(|grid|, i requires 0 <= i < |grid| => Spaced(grid[i]))
  }

  /** The table of a rendered grid is its rows, each spaced, joined by '\n'. */
  lemma {:induction false} TableRender(grid: seq<seq<string>>)
    requires |grid| >= 1 && Rectangular(grid) && Avoids(grid, ',') && Avoids(grid, '"')
    ensures Table(Render(grid)) == Join(SpacedLines(grid), '\n')
    decreases |grid|
  {
    TableLine(grid[0]);
    if |grid| > 1 {
      var rest := grid[1..];
      assert Lines(grid)[1..] == Lines(rest);
      assert SpacedLines(grid)[1..] == SpacedLines(rest);
      TableConcat(Line(grid[0]) + ['\n'], Render(rest));
      TableConcat(Line(grid[0]), ['\n']);
      assert Table(['\n']) == ['\n'];
      TableRender(rest);
    }
  }

  /** The "Period" line, present only when both dates are given. */
  function Period(q: ExportQuery): (p: string)
    ensures p == "All Time" <==> !Dated(q)
    ensures Dated(q) ==> StartsWith(p, "Period: " + q.startDate.value + " to ")
  {
    if Dated(q) then "Period: " + q.startDate.value + " to " + q.endDate.value else "All Time"
  }

  /** `exportToPDF`'s text: title, generation time, period, table, footer. */
  function Report(csv: string, generated: string, q: ExportQuery): (text: string)
    ensures StartsWith(text, "\nATTENDANCE REPORT\nGenerated: " + generated + "\n\n" + Period(q) + "\n\n")
    ensures |text| >= |Footer| && text[|text| - |Footer|..] == Footer
  {
    "\nATTENDANCE REPORT\nGenerated: " + generated + "\n\n" + Period(q) + "\n\n" + Table(csv) + Footer
  }

  /** The closing lines of the report. */
  const Footer := "\n\n---\nEnd of Report\n    "

  /**
   * When no cell holds ',', '"' or '\n', the report's table is the header
   * and then one " | "-separated line per selected row.
   */
  lemma ReportTable(records: seq<Record>, heads: seq<SontaHeads.SontaHead>, meetings: seq<Meetings.Meeting>,
                    q: ExportQuery, instant: string -> int, localeTime: int -> string, fixed1: int -> string)
    requires forall r :: r in records ==> Linked(r, heads, meetings)
    requires forall r :: r in records ==> Plain(Cells(r, heads, meetings, localeTime, fixed1), '\n')
    requires forall r :: r in records ==> Plain(Cells(r, heads, meetings, localeTime, fixed1), ',')
    requires forall r :: r in records ==> Plain(Cells(r, heads, meetings, localeTime, fixed1), '"')
    ensures var lines := Split(Table(Csv(records, heads, meetings, q, instant, localeTime, fixed1)), '\n');
            var rows := Fetch(records, q, instant);
            && |lines| == |rows| + 1
            && lines[0] == Spaced(Header)
            && forall i :: 0 <= i < |rows| ==> lines[i + 1] == Spaced(Cells(rows[i], heads, meetings, localeTime, fixed1))
  {
    var rows := Fetch(records, q, instant);
    var body := Body(rows, heads, meetings, localeTime, fixed1);
    HeaderAvoids();
    ExportAvoids(records, heads, meetings, rows, localeTime, fixed1, '\n');
    ExportAvoids(records, heads, meetings, rows, localeTime, fixed1, ',');
    ExportAvoids(records, heads, meetings, rows, localeTime, fixed1, '"');
    TableRows(Header, body);
  }

  /** The table of a plain rendered grid splits into the separated header, then one line per body row. */
  lemma TableRows(header: seq<string>, body: seq<seq<string>>)
    requires |header| >= 1 && Rectangular(body)
    requires var grid := [header] + body; Avoids(grid, '\n') && Avoids(grid, ',') && Avoids(grid, '"')
    ensures var lines := Split(Table(Render([header] + body)), '\n');
            && |lines| == |body| + 1
            && lines[0] == Spaced(header)
            && forall i :: 0 <= i < |body| ==> lines[i + 1] == Spaced(body[i])
  {
    var grid := [header] + body;
    TableSplits(grid);
    var ls := SpacedLines(grid);
    forall i | 0 <= i < |body| ensures ls[i + 1] == Spaced(body[i]) {
      assert grid[i + 1] == body[i];
    }
  }

  /** Splitting the table of a plain grid on '\n' gives its spaced rows. */
  lemma TableSplits(grid: seq<seq<string>>)
    requires |grid| >= 1 && Rectangular(grid)
    requires Avoids(grid, '\n') && Avoids(grid, ',') && Avoids(grid, '"')
    ensures Split(Table(Render(grid)), '\n') == SpacedLines(grid)
  {
    TableRender(grid);
    var ls := SpacedLines(grid);
    forall i | 0 <= i < |ls| ensures '\n' !in ls[i] {
      SpacedAvoids(grid[i], '\n');
    }
    SplitJoin(ls, '\n');
  }

  lemma {:induction false} SpacedAvoids(cells: seq<string>, x: char)
    requires |cells| >= 1 && x !in " | "
    requires forall j :: 0 <= j < |cells| ==> x !in cells[j]
    ensures x !in Spaced(cells)
    decreases |cells|
  {
    if |cells| > 1 {
      SpacedAvoids(cells[1..], x);
    }
  }
}
