/**
 * The report for one cleaned table (app.py, generate_attendance_pdf and the
 * title/subtitle formatting before it), as data: headings, the header row,
 * one row of rendered cells per record, column widths, the background
 * overrides of the check-in column and the legend.
 */
module Report {
  import opened Wrappers
  import opened Text
  import opened FileNames
  import opened Dates
  import opened Normalize
  import opened Classify

  // ---------------------------------------------------------------------------
  // Title and subtitle
  // ---------------------------------------------------------------------------

  const TitleSuffix: string := " DAILY STAFF ATTENDANCE"
  const SubtitleBase: string := "LATE COMMERS AND ABSENTEEISM"

  /** The branch name (the saved file name without its extension), upper-cased,
      followed by " DAILY STAFF ATTENDANCE". */
  function Title(savedName: string): string {
    Upper(SplitExtRoot(savedName)) + TitleSuffix
  }

  /**
   * "LATE COMMERS AND ABSENTEEISM", followed, when a report date was posted,
   * by that date as "DD Month YYYY" if `strptime` reads it, or by the posted
   * text itself if it does not.
   */
  function Subtitle(reportDate: string): string {
    if reportDate == "" then SubtitleBase
    else match ParseIsoDate(reportDate) {
      case Some(d) => SubtitleBase + " " + FormatLong(d)
      case None => SubtitleBase + " " + reportDate
    }
  }

  /** The title of an upload "stem.ext" is the upper-cased stem and the fixed
      suffix; it is upper-case throughout and names the same branch as the PDF. */
  lemma TitleOfUpload(stem: string, ext: string)
    requires '/' !in stem && '.' !in ext && '/' !in ext && !AllDots(stem)
    ensures Title(stem + "." + ext) == Upper(stem) + " DAILY STAFF ATTENDANCE"
    ensures Upper(Title(stem + "." + ext)) == Title(stem + "." + ext)
    ensures Title(PdfName(stem + "." + ext)) == Title(stem + "." + ext)
  {
    assert SplitExtRoot(stem + "." + ext) == stem by {
      SplitExtRootDecompose(stem, ext);
    }
    assert SplitExtRoot(PdfName(stem + "." + ext)) == stem by {
      PdfNameRoundTrip(stem, ext);
    }
    assert Upper(Upper(stem) + TitleSuffix) == Upper(stem) + TitleSuffix by {
      UpperIdempotent(stem);
      SuffixIsUpperCase();
      UpperAppend(Upper(stem), TitleSuffix);
    }
  }

  lemma SuffixIsUpperCase()
    ensures Upper(TitleSuffix) == TitleSuffix
  {
  }

  /** Every subtitle starts with the fixed text; without a date it is just that. */
  lemma SubtitleStartsWithBase(reportDate: string)
    ensures StartsWith(Subtitle(reportDate), SubtitleBase)
    ensures reportDate == "" ==> Subtitle(reportDate) == SubtitleBase
  {
  }

  /** A date posted as YYYY-MM-DD is spelled out as "DD Month YYYY". */
  lemma SubtitleOfIsoDate(d: Date)
    requires ValidDate(d)
    ensures Subtitle(IsoString(d)) == SubtitleBase + " " + FormatLong(d)
  {
    var s := IsoString(d);
    assert ParseIsoDate(s) == Some(d) by {
      ParseIsoString(d);
    }
    assert s != "" by {
      ZeroPadExact(d.year, 4);
    }
  }

  /** Any other non-empty text is appended as it was posted. */
  lemma SubtitleOfOtherText(reportDate: string)
    requires reportDate != "" && ParseIsoDate(reportDate).None?
    ensures Subtitle(reportDate) == SubtitleBase + " " + reportDate
  {
  }

  // ---------------------------------------------------------------------------
  // Display columns
  // ---------------------------------------------------------------------------

  /** The columns shown when the table has them, in the order shown. */
  const Preferred: seq<string> :=
    ["EmployeeName", "DepartmentName", "AttendanceDate", "ActualCheckIn", "ActualCheckOut", "DayOff"]

  lemma {:induction false} SubsequenceSnoc<T>(a: seq<T>, b: seq<T>, x: T)
    requires IsSubsequence(a, b)
    ensures IsSubsequence(a + [x], b + [x])
    decreases |b|
  {
    if |b| > 0 {
      assert (b + [x])[1..] == b[1..] + [x];
      if |a| > 0 && a[0] == b[0] && IsSubsequence(a[1..], b[1..]) {
        SubsequenceSnoc(a[1..], b[1..], x);
        assert (a + [x])[1..] == a[1..] + [x];
      } else {
        SubsequenceSnoc(a, b[1..], x);
      }
    } else {
      assert a == [];
      assert IsSubsequence<T>([], []);
    }
  }

  lemma {:induction false} SubsequenceExtend<T>(a: seq<T>, b: seq<T>, x: T)
    requires IsSubsequence(a, b)
    ensures IsSubsequence(a, b + [x])
    decreases |b|
  {
    if |a| > 0 {
      assert (b + [x])[1..] == b[1..] + [x];
      if a[0] == b[0] && IsSubsequence(a[1..], b[1..]) {
        SubsequenceExtend(a[1..], b[1..], x);
      } else {
        SubsequenceExtend(a, b[1..], x);
      }
    }
  }

  /** The names of `prefs` that are columns of the table, in the order of `prefs`. */
  function PresentPreferred(prefs: seq<string>, columns: seq<string>): (present: seq<string>)
    ensures IsSubsequence(present, prefs)
    ensures forall c :: c in present <==> c in prefs && c in columns
    decreases |prefs|
  {
    if |prefs| == 0 then []
    else
      var init, last := prefs[..|prefs| - 1], prefs[|prefs| - 1];
      var present := PresentPreferred(init, columns);
      assert prefs == init + [last];
      if last in columns then
        SubsequenceSnoc(present, init, last);
        present + [last]
      else
        SubsequenceExtend(present, init, last);
        present
  }

  function Min(a: int, b: int): int {
    if a <= b then a else b
  }

  /** The preferred columns present in the table, or, when there is none, the
      first six columns (fewer if the table has fewer). */
  function DisplayColumns(columns: seq<string>): (display: seq<string>)
    ensures forall k :: 0 <= k < |display| ==> display[k] in columns
    ensures |display| <= 6
  {
    var present := PresentPreferred(Preferred, columns);
    if present == [] then columns[..Min(6, |columns|)]
    else
      assert |present| <= 6 by {
        SubsequenceLength(present, Preferred);
      }
      assert forall k :: 0 <= k < |present| ==> present[k] in columns by {
        forall k | 0 <= k < |present| ensures present[k] in columns {
          assert present[k] in present;
        }
      }
      present
  }

  /** The selection loop of app.py: append each preferred name the table has;
      fall back to the first six columns if none was appended. */
  method SelectDisplayColumns(columns: seq<string>) returns (display: seq<string>)
    ensures display == DisplayColumns(columns)
  {
    display := [];
    for i := 0 to |Preferred|
      invariant display == PresentPreferred(Preferred[..i], columns)
    {
      assert Preferred[..i + 1][..i] == Preferred[..i];
      if Preferred[i] in columns {
        display := display + [Preferred[i]];
      }
    }
    assert Preferred[..|Preferred|] == Preferred;
    if display == [] {
      display := columns[..Min(6, |columns|)];
    }
  }

  /**
   * When the table has one of the six preferred columns, exactly the
   * preferred columns it has are shown, in the preferred order; otherwise its
   * first min(6, n) columns are shown.
   */
  lemma DisplayColumnsChoice(columns: seq<string>)
    ensures (exists c :: c in Preferred && c in columns) ==>
              IsSubsequence(DisplayColumns(columns), Preferred)
              && forall c :: c in DisplayColumns(columns) <==> c in Preferred && c in columns
    ensures (forall c :: c in Preferred ==> c !in columns) ==>
              DisplayColumns(columns) == columns[..Min(6, |columns|)]
  {
    var present := PresentPreferred(Preferred, columns);
    if exists c :: c in Preferred && c in columns {
      var c :| c in Preferred && c in columns;
      assert c in present;
    }
  }

  /** The check-in column is shown exactly when the table has one (the
      fallback only applies when it has none). */
  lemma CheckInShownIffPresent(columns: seq<string>)
    ensures CheckInColumn in DisplayColumns(columns) <==> CheckInColumn in columns
  {
    assert Preferred[3] == CheckInColumn;
    DisplayColumnsChoice(columns);
  }

  // ---------------------------------------------------------------------------
  // Table data
  // ---------------------------------------------------------------------------

  /** `xs.index(x)`: the position of the first `x`. */
  function IndexOf(xs: seq<string>, x: string): (i: nat)
    requires x in xs
    ensures i < |xs| && xs[i] == x
    ensures forall j :: 0 <= j < i ==> xs[j] != x
    decreases |xs|
  {
    if xs[0] == x then 0 else 1 + IndexOf(xs[1..], x)
  }

  /** One cell of the PDF table: its text, its colours and whether it is bold. */
  datatype RenderedCell = RenderedCell(text: string, colours: CellColours, bold: bool)

  /** The cell for the value `cell` of column `column`: NaN shows as "", the
      colours come from the check-in rule, bold when the text is not black. */
  function RenderCell(column: string, cell: Cell): RenderedCell {
    var colours := ColoursFor(column, cell);
    RenderedCell(if cell.Some? then cell.value else "", colours, IsBold(colours))
  }

  /** The displayed cells of one record, `row[col]` for each displayed column. */
  function RenderRow(columns: seq<string>, display: seq<string>, row: Row): (cells: seq<RenderedCell>)
    requires |row| == |columns|
    requires forall k :: 0 <= k < |display| ==> display[k] in columns
    ensures |cells| == |display|
  {
    seq(|display|, k requires 0 <= k < |display| => RenderCell(display[k], row[IndexOf(columns, display[k])]))
  }

  /** All data rows of the table, one per record. */
  function Body(t: Frame, display: seq<string>): (body: seq<seq<RenderedCell>>)
    requires forall k :: 0 <= k < |display| ==> display[k] in t.columns
    ensures |body| == |t.rows|
  {
    seq(|t.rows|, i requires 0 <= i < |t.rows| => RenderRow(t.columns, display, t.rows[i]))
  }

  /** The nested loops of app.py that build the data rows. */
  method BuildBody(t: Frame, display: seq<string>) returns (body: seq<seq<RenderedCell>>)
    requires forall k :: 0 <= k < |display| ==> display[k] in t.columns
    ensures body == Body(t, display)
  {
    body := [];
    for i := 0 to |t.rows|
      invariant |body| == i
      invariant forall j :: 0 <= j < i ==> body[j] == RenderRow(t.columns, display, t.rows[j])
    {
      var row := t.rows[i];
      var rowData := [];
      for k := 0 to |display|
        invariant |rowData| == k
        invariant forall l :: 0 <= l < k ==> rowData[l] == RenderCell(display[l], row[IndexOf(t.columns, display[l])])
      {
        var col := display[k];
        var cell := row[IndexOf(t.columns, col)];
        var value := if cell.Some? then cell.value else "";
        var colours := ColoursFor(col, cell);
        rowData := rowData + [RenderedCell(value, colours, colours.text != Black)];
      }
      body := body + [rowData];
    }
  }

  // ---------------------------------------------------------------------------
  // Column widths, in hundredths of an inch
  // ---------------------------------------------------------------------------

  /** The width of a column, chosen by its name alone. */
  function ColumnWidth(name: string): nat {
    if name == "EmployeeName" then 180
    else if name == "DepartmentName" then 220
    else if name == "AttendanceDate" then 115
    else if name == "ActualCheckIn" then 115
    else if name == "ActualCheckOut" then 115
    else 85
  }

  function Widths(display: seq<string>): (widths: seq<nat>)
    ensures |widths| == |display|
  {
    seq(|display|, k requires 0 <= k < |display| => ColumnWidth(display[k]))
  }

  /** The width loop of app.py. */
  method ColumnWidths(display: seq<string>) returns (widths: seq<nat>)
    ensures widths == Widths(display)
  {
    widths := [];
    for k := 0 to |display|
      invariant |widths| == k
      invariant forall l :: 0 <= l < k ==> widths[l] == ColumnWidth(display[l])
    {
      widths := widths + [ColumnWidth(display[k])];
    }
  }

  /** The total width of some columns. */
  function TotalWidth(names: seq<string>): nat
    decreases |names|
  {
    if |names| == 0 then 0 else ColumnWidth(names[0]) + TotalWidth(names[1..])
  }

  lemma {:induction false} TotalWidthSubsequence(a: seq<string>, b: seq<string>)
    requires IsSubsequence(a, b)
    ensures TotalWidth(a) <= TotalWidth(b)
    decreases |b|
  {
    if |a| > 0 {
      if a[0] == b[0] && IsSubsequence(a[1..], b[1..]) {
        TotalWidthSubsequence(a[1..], b[1..]);
      } else {
        TotalWidthSubsequence(a, b[1..]);
      }
    } else if |b| > 0 {
      TotalWidthSubsequence(a, b[1..]);
    }
  }

  /** Names outside the five sized columns all get the default width. */
  lemma {:induction false} TotalWidthDefault(names: seq<string>)
    requires forall k :: 0 <= k < |names| ==> names[k] !in Preferred
    ensures TotalWidth(names) == 85 * |names|
    decreases |names|
  {
    if |names| > 0 {
      assert names[0] !in Preferred;
      TotalWidthDefault(names[1..]);
    }
  }

  /**
   * The shown columns are at most 8.30 inches wide in all: the preferred
   * columns take 8.30 inches when all six are present, fewer otherwise, and
   * the fallback columns take 0.85 inch each.
   */
  lemma DisplayWidthBound(columns: seq<string>)
    ensures TotalWidth(DisplayColumns(columns)) <= 830
  {
    var display := DisplayColumns(columns);
    DisplayColumnsChoice(columns);
    if exists c :: c in Preferred && c in columns {
      TotalWidthSubsequence(display, Preferred);
      assert TotalWidth(Preferred) == 830;
    } else {
      forall k | 0 <= k < |display| ensures display[k] !in Preferred {
        assert display[k] in columns;
      }
      TotalWidthDefault(display);
    }
  }

  // ---------------------------------------------------------------------------
  // Check-in background overrides
  // ---------------------------------------------------------------------------

  /** A ("BACKGROUND", (column, row), (column, row), colour) table style entry;
      row 0 is the header row. */
  datatype BackgroundOverride = BackgroundOverride(column: nat, row: nat, colour: Colour)

  /** The overrides for column `col` of the data rows `rows`, numbered from 1:
      one per cell whose background is not white. */
  function OverridesAt(col: nat, rows: seq<seq<RenderedCell>>): seq<BackgroundOverride>
    requires forall i :: 0 <= i < |rows| ==> col < |rows[i]|
    decreases |rows|
  {
    if |rows| == 0 then []
    else
      var n := |rows|;
      var bg := rows[n - 1][col].colours.background;
      OverridesAt(col, rows[..n - 1]) + (if bg != White then [BackgroundOverride(col, n, bg)] else [])
  }

  /** The overrides of the check-in column, none when it is not shown. */
  function CheckInOverrides(display: seq<string>, body: seq<seq<RenderedCell>>): seq<BackgroundOverride>
    requires forall i :: 0 <= i < |body| ==> |body[i]| == |display|
  {
    if CheckInColumn in display then OverridesAt(IndexOf(display, CheckInColumn), body) else []
  }

  /** The override loop of app.py. */
  method CollectOverrides(display: seq<string>, body: seq<seq<RenderedCell>>) returns (overrides: seq<BackgroundOverride>)
    requires forall i :: 0 <= i < |body| ==> |body[i]| == |display|
    ensures overrides == CheckInOverrides(display, body)
  {
    overrides := [];
    if CheckInColumn in display {
      var col := IndexOf(display, CheckInColumn);
      for rowIdx := 0 to |body|
        invariant overrides == OverridesAt(col, body[..rowIdx])
      {
        assert body[..rowIdx + 1][..rowIdx] == body[..rowIdx];
        var background := body[rowIdx][col].colours.background;
        if background != White {
          overrides := overrides + [BackgroundOverride(col, rowIdx + 1, background)];
        }
      }
      assert body[..|body|] == body;
    }
  }

  /**
   * An override is emitted for exactly the cells of column `col` whose
   * background is not white, at that column and at the cell's table row
   * (data row i is table row i + 1), with the cell's own colour.
   */
  lemma {:induction false} OverridesAtExact(col: nat, rows: seq<seq<RenderedCell>>, o: BackgroundOverride)
    requires forall i :: 0 <= i < |rows| ==> col < |rows[i]|
    ensures o in OverridesAt(col, rows) <==>
              o.column == col && 1 <= o.row <= |rows|
              && o.colour == rows[o.row - 1][col].colours.background && o.colour != White
    decreases |rows|
  {
    if |rows| > 0 {
      var n := |rows|;
      OverridesAtExact(col, rows[..n - 1], o);
    }
  }

  // ---------------------------------------------------------------------------
  // The whole report
  // ---------------------------------------------------------------------------

  const NoDataRows: string := "Excel file has no data rows"

  /** The note under the table. */
  const Legend: seq<string> :=
    ["NOTE:", "THE YELLOW COLOR INDICATE ABSENTEEISM", "THE RED COLOR INDICATE LATE COMMERS"]

  /** What the PDF shows, in reading order. */
  datatype Layout = Layout(
    headings: seq<string>,
    header: seq<string>,
    body: seq<seq<RenderedCell>>,
    widths: seq<nat>,
    overrides: seq<BackgroundOverride>,
    legend: seq<string>)

  /** The title, then the subtitle when it is not empty. */
  function Headings(title: string, subtitle: string): seq<string> {
    [title] + (if subtitle == "" then [] else [subtitle])
  }

  /** The report for a cleaned table, or the error raised for a table without records. */
  function Generate(t: Frame, title: string, subtitle: string): Result<Layout, string> {
    var display := DisplayColumns(t.columns);
    var body := Body(t, display);
    if |body| == 0 then Err(NoDataRows)
    else Ok(Layout(Headings(title, subtitle), display, body, Widths(display),
                   CheckInOverrides(display, body), Legend))
  }

  /** `generate_attendance_pdf`, step by step as app.py builds it. */
  method GenerateAttendancePdf(t: Frame, title: string, subtitle: string) returns (r: Result<Layout, string>)
    ensures r == Generate(t, title, subtitle)
  {
    var display := SelectDisplayColumns(t.columns);
    var body := BuildBody(t, display);
    if |body| == 0 {
      return Err(NoDataRows);
    }
    var widths := ColumnWidths(display);
    var overrides := CollectOverrides(display, body);
    r := Ok(Layout(Headings(title, subtitle), display, body, widths, overrides, Legend));
  }

  /** Generation fails exactly when the table has no records, with the message
      "Excel file has no data rows". */
  lemma GenerateFailsIffNoRecords(t: Frame, title: string, subtitle: string)
    ensures Generate(t, title, subtitle).Err? <==> |t.rows| == 0
    ensures Generate(t, title, subtitle).Err? ==> Generate(t, title, subtitle).error == "Excel file has no data rows"
  {
  }

  /**
   * The table has the header row plus one row per record, every row as wide
   * as the header, and one width per column, chosen by the column's name.
   */
  lemma GenerateShape(t: Frame, title: string, subtitle: string)
    requires |t.rows| > 0
    ensures Generate(t, title, subtitle).Ok?
    ensures var l := Generate(t, title, subtitle).value;
            l.header == DisplayColumns(t.columns)
            && |l.body| == |t.rows|
            && (forall i :: 0 <= i < |l.body| ==> |l.body[i]| == |l.header|)
            && |l.widths| == |l.header|
            && (forall k :: 0 <= k < |l.widths| ==> l.widths[k] == ColumnWidth(l.header[k]))
  {
  }

  /**
   * Each data cell shows its record's value for its column, "" for NaN; only
   * check-in cells are coloured, by the check-in rule; and a cell is bold
   * exactly when its text is not black, which is exactly a late check-in.
   */
  lemma GenerateCell(t: Frame, title: string, subtitle: string, i: nat, k: nat)
    requires i < |t.rows| && k < |DisplayColumns(t.columns)|
    ensures var l := Generate(t, title, subtitle).value;
            var v := t.rows[i][IndexOf(t.columns, l.header[k])];
            var cell := l.body[i][k];
            cell.text == (if v.Some? then v.value else "")
            && (l.header[k] != CheckInColumn ==> cell.colours == CellColours(White, Black) && !cell.bold)
            && (l.header[k] == CheckInColumn ==> cell.colours == CheckInColours(v))
            && (cell.bold <==> cell.colours.text != Black)
            && (cell.bold <==> l.header[k] == CheckInColumn && CheckInColours(v).text == Red)
  {
    var l := Generate(t, title, subtitle).value;
    BoldIffLate(l.header[k], t.rows[i][IndexOf(t.columns, l.header[k])]);
  }

  /** The check-in overrides are the non-white cells of the check-in column. */
  lemma CheckInOverridesExact(display: seq<string>, body: seq<seq<RenderedCell>>, o: BackgroundOverride)
    requires forall i :: 0 <= i < |body| ==> |body[i]| == |display|
    ensures o in CheckInOverrides(display, body) <==>
              CheckInColumn in display && o.column == IndexOf(display, CheckInColumn)
              && 1 <= o.row <= |body|
              && o.colour == body[o.row - 1][o.column].colours.background && o.colour != White
  {
    if CheckInColumn in display {
      OverridesAtExact(IndexOf(display, CheckInColumn), body, o);
    }
  }

  /** A data cell's background is white or yellow. */
  lemma BodyBackground(t: Frame, display: seq<string>, i: nat, k: nat)
    requires forall j :: 0 <= j < |display| ==> display[j] in t.columns
    requires i < |t.rows| && k < |display|
    ensures |Body(t, display)[i]| == |display|
    ensures var b := Body(t, display)[i][k].colours.background; b == White || b == Yellow
  {
    BackgroundWhiteOrYellow(display[k], t.rows[i][IndexOf(t.columns, display[k])]);
  }

  /**
   * The background overrides are exactly the absent check-ins: one for each
   * check-in cell whose background is not white, at the check-in column and
   * that record's table row, in yellow.
   */
  lemma GenerateOverrides(t: Frame, title: string, subtitle: string, l: Layout, o: BackgroundOverride)
    requires Generate(t, title, subtitle) == Ok(l)
    ensures forall i :: 0 <= i < |l.body| ==> |l.body[i]| == |l.header|
    ensures o in l.overrides <==>
              CheckInColumn in l.header && o.column == IndexOf(l.header, CheckInColumn)
              && 1 <= o.row <= |l.body|
              && o.colour == l.body[o.row - 1][o.column].colours.background && o.colour != White
    ensures o in l.overrides ==> o.colour == Yellow
  {
    assert l.overrides == CheckInOverrides(l.header, l.body);
    CheckInOverridesExact(l.header, l.body, o);
    if o in l.overrides {
      BodyBackground(t, l.header, o.row - 1, o.column);
    }
  }
}
