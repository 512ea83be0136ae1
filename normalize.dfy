/**
 * Ingestion: finding the header row of an Excel sheet read without a header,
 * and cleaning the DataFrame read with that header (app.py, lines 55-83).
 */
module Normalize {
  import opened Wrappers
  import opened Text

  /** One spreadsheet cell as pandas holds it: `None` is NaN, `Some(s)` is `str(value)`. */
  type Cell = Option<string>

  type Row = seq<Cell>

  /** `a` is `b` with some elements left out, the rest in the same order. */
  predicate IsSubsequence<T(==)>(a: seq<T>, b: seq<T>)
    decreases |b|
  {
    |a| == 0 || (|b| > 0 && ((a[0] == b[0] && IsSubsequence(a[1..], b[1..])) || IsSubsequence(a, b[1..])))
  }

  lemma {:induction false} SubsequenceRefl<T>(a: seq<T>)
    ensures IsSubsequence(a, a)
    decreases |a|
  {
    if |a| > 0 {
      SubsequenceRefl(a[1..]);
    }
  }

  lemma {:induction false} SubsequenceTrans<T>(a: seq<T>, b: seq<T>, c: seq<T>)
    requires IsSubsequence(a, b) && IsSubsequence(b, c)
    ensures IsSubsequence(a, c)
    decreases |c|
  {
    if |a| > 0 {
      if b[0] == c[0] && IsSubsequence(b[1..], c[1..]) {
        if a[0] == b[0] && IsSubsequence(a[1..], b[1..]) {
          SubsequenceTrans(a[1..], b[1..], c[1..]);
        } else {
          SubsequenceTrans(a, b[1..], c[1..]);
        }
      } else {
        SubsequenceTrans(a, b, c[1..]);
      }
    }
  }

  lemma {:induction false} SubsequenceLength<T>(a: seq<T>, b: seq<T>)
    requires IsSubsequence(a, b)
    ensures |a| <= |b|
    decreases |b|
  {
    if |a| > 0 {
      if a[0] == b[0] && IsSubsequence(a[1..], b[1..]) {
        SubsequenceLength(a[1..], b[1..]);
      } else {
        SubsequenceLength(a, b[1..]);
      }
    }
  }

  // ---------------------------------------------------------------------------
  // Header detection (Excel only)
  // ---------------------------------------------------------------------------

  /** The cells of `row` that are not NaN, in order: `v for v in row if pd.notna(v)`. */
  function PresentValues(row: Row): seq<string>
    decreases |row|
  {
    if |row| == 0 then []
    else (if row[0].Some? then [row[0].value] else []) + PresentValues(row[1..])
  }

  /** `" ".join(str(v) for v in row if pd.notna(v))`. */
  function RowText(row: Row): string {
    Join(PresentValues(row), " ")
  }

  /** The header test applied to each raw row. */
  predicate IsHeaderRow(row: Row) {
    var text := RowText(row);
    Contains(text, "EmployeeName") || Contains(Lower(text), "employee")
  }

  /** The position of the first row that passes the header test, if any. */
  function FirstHeaderRow(raw: seq<Row>): (r: Option<nat>)
    ensures r.Some? ==> r.value < |raw| && IsHeaderRow(raw[r.value])
    ensures r.Some? ==> forall j :: 0 <= j < r.value ==> !IsHeaderRow(raw[j])
    ensures r.None? <==> forall j :: 0 <= j < |raw| ==> !IsHeaderRow(raw[j])
    decreases |raw|
  {
    if |raw| == 0 then None
    else if IsHeaderRow(raw[0]) then Some(0)
    else match FirstHeaderRow(raw[1..]) {
      case None => None
      case Some(i) => Some(i + 1)
    }
  }

  /** The header row pandas is told to use: the first match, or 0 when no row matches. */
  function HeaderRow(raw: seq<Row>): nat {
    match FirstHeaderRow(raw) {
      case None => 0
      case Some(i) => i
    }
  }

  /**
   * The scan of app.py: walk the rows top to bottom, stop at the first one
   * whose joined non-empty cells contain "EmployeeName" or, lower-cased,
   * "employee"; keep 0 when none does.
   */
  method FindHeaderRow(raw: seq<Row>) returns (headerRow: nat)
    ensures headerRow == HeaderRow(raw)
    ensures (exists j :: 0 <= j < |raw| && IsHeaderRow(raw[j])) ==>
              headerRow < |raw| && IsHeaderRow(raw[headerRow])
              && forall j :: 0 <= j < headerRow ==> !IsHeaderRow(raw[j])
    ensures (forall j :: 0 <= j < |raw| ==> !IsHeaderRow(raw[j])) ==> headerRow == 0
  {
    headerRow := 0;
    var idx := 0;
    while idx < |raw|
      invariant 0 <= idx <= |raw|
      invariant headerRow == 0
      invariant forall j :: 0 <= j < idx ==> !IsHeaderRow(raw[j])
    {
      var rowText := RowText(raw[idx]);
      if Contains(rowText, "EmployeeName") || Contains(Lower(rowText), "employee") {
        headerRow := idx;
        break;
      }
      idx := idx + 1;
    }
  }

  /** A containing string contains whatever its part contains. */
  lemma ContainsTrans(s: string, v: string, w: string)
    requires Contains(s, v) && Contains(v, w)
    ensures Contains(s, w)
  {
    var i := ContainsWitness(s, v);
    var j := ContainsWitness(v, w);
    forall k | 0 <= k < |w| ensures s[i + j + k] == w[k] {
      assert s[i + j + k] == s[i..i + |v|][j + k];
      assert v[j + k] == v[j..j + |w|][k];
    }
    assert s[i + j..i + j + |w|] == w;
    ContainsAt(s, w, i + j);
  }

  /** A cell that is present shows up in the row's joined text. */
  lemma {:induction false} PresentValueInRowText(row: Row, k: nat)
    requires k < |row| && row[k].Some?
    ensures Contains(RowText(row), row[k].value)
  {
    var vs := PresentValues(row);
    var p := PresentIndex(row, k);
    JoinContainsPart(vs, " ", p);
  }

  lemma {:induction false} PresentIndex(row: Row, k: nat) returns (p: nat)
    requires k < |row| && row[k].Some?
    ensures p < |PresentValues(row)| && PresentValues(row)[p] == row[k].value
    decreases |row|
  {
    var head := if row[0].Some? then [row[0].value] else [];
    if k == 0 {
      p := 0;
    } else {
      var q := PresentIndex(row[1..], k - 1);
      p := |head| + q;
    }
  }

  /**
   * The first test is subsumed by the second: a text that contains
   * "EmployeeName" contains "employee" once lower-cased, so the header test is
   * just a case-insensitive search for "employee".
   */
  lemma HeaderTestIsCaseInsensitive(row: Row)
    ensures IsHeaderRow(row) <==> Contains(Lower(RowText(row)), "employee")
  {
    var text := RowText(row);
    if Contains(text, "EmployeeName") {
      var i := ContainsWitness(text, "EmployeeName");
      LowerSlice(text, i, i + 8);
      assert text[i..i + 8] == "EmployeeName"[..8];
      assert Lower("Employee") == "employee";
      ContainsAt(Lower(text), "employee", i);
    }
  }

  /**
   * A row with a cell mentioning "EmployeeName" is never skipped: the chosen
   * header row is that row or an earlier row that also passes the test.
   */
  lemma HeaderRowNotAfterEmployeeNameCell(raw: seq<Row>, r: nat, k: nat)
    requires r < |raw| && k < |raw[r]| && raw[r][k].Some?
    requires Contains(raw[r][k].value, "EmployeeName")
    ensures HeaderRow(raw) <= r && IsHeaderRow(raw[HeaderRow(raw)])
  {
    PresentValueInRowText(raw[r], k);
    ContainsTrans(RowText(raw[r]), raw[r][k].value, "EmployeeName");
    assert IsHeaderRow(raw[r]);
  }

  // ---------------------------------------------------------------------------
  // Cleaning
  // ---------------------------------------------------------------------------

  /** A DataFrame: column labels and rows of cells. */
  datatype Table = Table(columns: seq<string>, rows: seq<Row>) {
    /** Every row has one cell per column. */
    predicate Rectangular() {
      forall i :: 0 <= i < |rows| ==> |rows[i]| == |columns|
    }
  }

  /** The tables pandas produces: rectangular by construction. */
  type Frame = t: Table | t.Rectangular() witness Table([], [])

  /** Every cell is NaN: `dropna(how="all")` drops such a row. */
  predicate IsEmptyRow(row: Row) {
    forall k :: 0 <= k < |row| ==> row[k].None?
  }

  /** `df.dropna(how="all")`: the rows that have at least one value, in order. */
  function DropEmptyRows(rows: seq<Row>): (kept: seq<Row>)
    ensures forall i :: 0 <= i < |kept| ==> !IsEmptyRow(kept[i]) && kept[i] in rows
    ensures IsSubsequence(kept, rows)
    ensures forall r :: !IsEmptyRow(r) ==> multiset(kept)[r] == multiset(rows)[r]
    decreases |rows|
  {
    if |rows| == 0 then []
    else
      var rest := DropEmptyRows(rows[1..]);
      assert rows == [rows[0]] + rows[1..];
      if IsEmptyRow(rows[0]) then
        rest
      else
        var kept := [rows[0]] + rest;
        assert kept[1..] == rest;
        kept
  }

  /** Dropping empty rows from rows that have none changes nothing. */
  lemma {:induction false} DropEmptyRowsUnchanged(rows: seq<Row>)
    requires forall i :: 0 <= i < |rows| ==> !IsEmptyRow(rows[i])
    ensures DropEmptyRows(rows) == rows
    decreases |rows|
  {
    if |rows| > 0 {
      DropEmptyRowsUnchanged(rows[1..]);
      assert [rows[0]] + rows[1..] == rows;
    }
  }

  /** `df.columns.str.contains("Unnamed", case=False)`. */
  predicate IsUnnamed(heading: string) {
    Contains(Lower(heading), UnnamedMarker)
  }

  /** What pandas calls a column read without a heading ("Unnamed: 3"), lower-cased. */
  const UnnamedMarker: string := "unnamed"

  /** For each column, whether its label mentions "unnamed" in any case. */
  function UnnamedMask(columns: seq<string>): (mask: seq<bool>)
    ensures |mask| == |columns|
    ensures forall j :: 0 <= j < |columns| ==> mask[j] == IsUnnamed(columns[j])
  {
    seq(|columns|, j requires 0 <= j < |columns| => IsUnnamed(columns[j]))
  }

  /** The positions, from `from` on, where the mask is false. */
  function Unmarked(mask: seq<bool>, from: nat): (idx: seq<nat>)
    requires from <= |mask|
    ensures forall k :: 0 <= k < |idx| ==> from <= idx[k] < |mask| && !mask[idx[k]]
    ensures forall k, l :: 0 <= k < l < |idx| ==> idx[k] < idx[l]
    decreases |mask| - from
  {
    if from == |mask| then []
    else (if mask[from] then [] else [from]) + Unmarked(mask, from + 1)
  }

  /** Every unmarked position from `from` on is listed. */
  lemma {:induction false} UnmarkedComplete(mask: seq<bool>, from: nat, j: nat)
    requires from <= j < |mask| && !mask[j]
    ensures j in Unmarked(mask, from)
    decreases |mask| - from
  {
    if j > from {
      UnmarkedComplete(mask, from + 1, j);
      assert Unmarked(mask, from) == (if mask[from] then [] else [from]) + Unmarked(mask, from + 1);
    } else {
      assert Unmarked(mask, from)[0] == j;
    }
  }

  /** With no position marked, every position from `from` on is listed, in order. */
  lemma {:induction false} UnmarkedAll(mask: seq<bool>, from: nat)
    requires from <= |mask|
    requires forall j :: 0 <= j < |mask| ==> !mask[j]
    ensures |Unmarked(mask, from)| == |mask| - from
    ensures forall k :: 0 <= k < |mask| - from ==> Unmarked(mask, from)[k] == from + k
    decreases |mask| - from
  {
    if from < |mask| {
      UnmarkedAll(mask, from + 1);
      var rest := Unmarked(mask, from + 1);
      var all := Unmarked(mask, from);
      assert all == [from] + rest;
      forall k | 0 <= k < |mask| - from ensures all[k] == from + k {
        if k > 0 {
          assert all[k] == rest[k - 1];
        }
      }
    }
  }

  /** The positions, from `from` on, of the columns whose label does not mention "unnamed". */
  function KeptColumns(columns: seq<string>, from: nat): (idx: seq<nat>)
    requires from <= |columns|
    ensures forall k :: 0 <= k < |idx| ==> from <= idx[k] < |columns| && !IsUnnamed(columns[idx[k]])
    ensures forall k, l :: 0 <= k < l < |idx| ==> idx[k] < idx[l]
  {
    Unmarked(UnnamedMask(columns), from)
  }

  /** No column with a proper heading is dropped. */
  lemma KeptColumnsComplete(columns: seq<string>, from: nat, j: nat)
    requires from <= j < |columns| && !IsUnnamed(columns[j])
    ensures j in KeptColumns(columns, from)
  {
    UnmarkedComplete(UnnamedMask(columns), from, j);
  }

  /** Every column from `from` on is kept when none is "unnamed". */
  lemma KeptColumnsAll(columns: seq<string>, from: nat)
    requires from <= |columns|
    requires forall j :: 0 <= j < |columns| ==> !IsUnnamed(columns[j])
    ensures |KeptColumns(columns, from)| == |columns| - from
    ensures forall k :: 0 <= k < |columns| - from ==> KeptColumns(columns, from)[k] == from + k
  {
    UnmarkedAll(UnnamedMask(columns), from);
  }

  /** The elements of `xs` at the positions `idx`, in the order of `idx`. */
  function Project<T>(xs: seq<T>, idx: seq<nat>): (ys: seq<T>)
    requires forall k :: 0 <= k < |idx| ==> idx[k] < |xs|
    ensures |ys| == |idx|
  {
    seq(|idx|, k requires 0 <= k < |idx| => xs[idx[k]])
  }

  /** The same column selection applied to every row. */
  function ProjectRows(rows: seq<Row>, idx: seq<nat>, width: nat): (ps: seq<Row>)
    requires forall i :: 0 <= i < |rows| ==> |rows[i]| == width
    requires forall k :: 0 <= k < |idx| ==> idx[k] < width
    ensures |ps| == |rows|
  {
    seq(|rows|, i requires 0 <= i < |rows| => Project(rows[i], idx))
  }

  /** `df.loc[:, ~df.columns.str.contains("Unnamed", case=False, na=False)]`. */
  function DropUnnamedColumns(t: Frame): (r: Frame)
    ensures forall j :: 0 <= j < |r.columns| ==> !IsUnnamed(r.columns[j])
  {
    var idx := KeptColumns(t.columns, 0);
    Table(Project(t.columns, idx), ProjectRows(t.rows, idx, |t.columns|))
  }

  /** The cleaning of app.py: drop empty rows, drop "unnamed" columns,
      renumber, drop the rows left empty. */
  function Clean(t: Frame): Frame {
    var t1: Frame := Table(t.columns, DropEmptyRows(t.rows));
    var t2 := DropUnnamedColumns(t1);
    Table(t2.columns, DropEmptyRows(t2.rows))
  }

  /** No empty row and no "unnamed" column. */
  predicate IsClean(t: Table) {
    (forall i :: 0 <= i < |t.rows| ==> !IsEmptyRow(t.rows[i]))
    && (forall j :: 0 <= j < |t.columns| ==> !IsUnnamed(t.columns[j]))
  }

  /** After cleaning, no row is entirely empty and no column label mentions
      "unnamed" in any letter case. */
  lemma CleanIsClean(t: Frame)
    ensures IsClean(Clean(t))
  {
  }

  /** One step of `DropEmptyRows`. */
  lemma DropEmptyRowsCons(rows: seq<Row>)
    requires |rows| > 0
    ensures DropEmptyRows(rows)
            == (if IsEmptyRow(rows[0]) then [] else [rows[0]]) + DropEmptyRows(rows[1..])
  {
  }

  /** One step of `ProjectRows`. */
  lemma ProjectRowsCons(rows: seq<Row>, idx: seq<nat>, width: nat)
    requires |rows| > 0
    requires forall i :: 0 <= i < |rows| ==> |rows[i]| == width
    requires forall k :: 0 <= k < |idx| ==> idx[k] < width
    ensures ProjectRows(rows, idx, width) == [Project(rows[0], idx)] + ProjectRows(rows[1..], idx, width)
  {
    assert ProjectRows(rows, idx, width)[1..] == ProjectRows(rows[1..], idx, width);
  }

  /** The rows `DropEmptyRows` keeps are as wide as the rows it was given. */
  lemma DropEmptyRowsWidth(rows: seq<Row>, width: nat)
    requires forall i :: 0 <= i < |rows| ==> |rows[i]| == width
    ensures forall i :: 0 <= i < |DropEmptyRows(rows)| ==> |DropEmptyRows(rows)[i]| == width
  {
    var kept := DropEmptyRows(rows);
    forall i | 0 <= i < |kept| ensures |kept[i]| == width {
      assert kept[i] in rows;
    }
  }

  /** A row that is empty stays empty under any column selection. */
  lemma EmptyRowProject(row: Row, idx: seq<nat>)
    requires IsEmptyRow(row)
    requires forall k :: 0 <= k < |idx| ==> idx[k] < |row|
    ensures IsEmptyRow(Project(row, idx))
  {
  }

  /** Dropping the empty rows before selecting columns changes nothing once
      the empty rows are dropped again afterwards. */
  lemma {:induction false} DropProjectDrop(rows: seq<Row>, idx: seq<nat>, width: nat)
    requires forall i :: 0 <= i < |rows| ==> |rows[i]| == width
    requires forall k :: 0 <= k < |idx| ==> idx[k] < width
    ensures forall i :: 0 <= i < |DropEmptyRows(rows)| ==> |DropEmptyRows(rows)[i]| == width
    ensures DropEmptyRows(ProjectRows(DropEmptyRows(rows), idx, width))
            == DropEmptyRows(ProjectRows(rows, idx, width))
    decreases |rows|
  {
    DropEmptyRowsWidth(rows, width);
    if |rows| > 0 {
      var tail := rows[1..];
      DropProjectDrop(tail, idx, width);
      DropEmptyRowsWidth(tail, width);
      var p0 := Project(rows[0], idx);
      ProjectRowsCons(rows, idx, width);
      DropEmptyRowsCons(ProjectRows(rows, idx, width));
      DropEmptyRowsCons(rows);
      if IsEmptyRow(rows[0]) {
        EmptyRowProject(rows[0], idx);
      } else {
        var kept := DropEmptyRows(rows);
        assert kept == [rows[0]] + DropEmptyRows(tail);
        assert kept[1..] == DropEmptyRows(tail);
        ProjectRowsCons(kept, idx, width);
        DropEmptyRowsCons(ProjectRows(kept, idx, width));
      }
    }
  }

  /**
   * What cleaning computes, in one pass: keep the named columns in their
   * order, then keep, in their order, exactly the rows that still have a
   * value in one of those columns. (The first `dropna` never changes the
   * outcome.)
   */
  lemma CleanSinglePass(t: Frame)
    ensures var idx := KeptColumns(t.columns, 0);
            Clean(t).columns == Project(t.columns, idx)
            && Clean(t).rows == DropEmptyRows(ProjectRows(t.rows, idx, |t.columns|))
  {
    DropProjectDrop(t.rows, KeptColumns(t.columns, 0), |t.columns|);
  }

  /** Selecting the same columns keeps a row subsequence a subsequence. */
  lemma {:induction false} ProjectRowsSubsequence(a: seq<Row>, b: seq<Row>, idx: seq<nat>, width: nat)
    requires IsSubsequence(a, b)
    requires forall i :: 0 <= i < |b| ==> |b[i]| == width
    requires forall i :: 0 <= i < |a| ==> |a[i]| == width
    requires forall k :: 0 <= k < |idx| ==> idx[k] < width
    ensures IsSubsequence(ProjectRows(a, idx, width), ProjectRows(b, idx, width))
    decreases |b|
  {
    var pa, pb := ProjectRows(a, idx, width), ProjectRows(b, idx, width);
    if |a| > 0 {
      assert pb[1..] == ProjectRows(b[1..], idx, width);
      if a[0] == b[0] && IsSubsequence(a[1..], b[1..]) {
        ProjectRowsSubsequence(a[1..], b[1..], idx, width);
        assert pa[1..] == ProjectRows(a[1..], idx, width);
      } else {
        ProjectRowsSubsequence(a, b[1..], idx, width);
      }
    }
  }

  /**
   * Cleaning keeps order: the surviving columns are the original ones at
   * increasing positions, and the surviving rows are, in their original
   * order, original rows restricted to those columns.
   */
  lemma CleanKeepsOrder(t: Frame)
    ensures var idx := KeptColumns(t.columns, 0);
            (forall k, l :: 0 <= k < l < |idx| ==> idx[k] < idx[l])
            && Clean(t).columns == Project(t.columns, idx)
            && IsSubsequence(Clean(t).rows, ProjectRows(t.rows, idx, |t.columns|))
  {
    CleanSinglePass(t);
  }

  /** Selecting every position in order gives the sequence back. */
  lemma ProjectAll<T>(xs: seq<T>, idx: seq<nat>)
    requires |idx| == |xs|
    requires forall k :: 0 <= k < |idx| ==> idx[k] == k
    ensures Project(xs, idx) == xs
  {
  }

  /** Cleaning a table that is already clean returns it unchanged. */
  lemma CleanUnchanged(t: Frame)
    requires IsClean(t)
    ensures Clean(t) == t
  {
    var idx := KeptColumns(t.columns, 0);
    assert Project(t.columns, idx) == t.columns && ProjectRows(t.rows, idx, |t.columns|) == t.rows by {
      KeptColumnsAll(t.columns, 0);
      ProjectAll(t.columns, idx);
      var projected := ProjectRows(t.rows, idx, |t.columns|);
      forall i | 0 <= i < |t.rows| ensures projected[i] == t.rows[i] {
        ProjectAll(t.rows[i], idx);
      }
    }
    assert DropEmptyRows(t.rows) == t.rows by {
      DropEmptyRowsUnchanged(t.rows);
    }
    CleanSinglePass(t);
  }

  /** Cleaning twice is cleaning once. */
  lemma CleanIdempotent(t: Frame)
    ensures Clean(Clean(t)) == Clean(t)
  {
    CleanIsClean(t);
    CleanUnchanged(Clean(t));
  }
}
