/**
 * Colour coding of the check-in column (app.py, generate_attendance_pdf):
 * an empty check-in is an absence (yellow background), a check-in at or
 * after 08:34 is late (red text), anything else is left plain.
 */
module Classify {
  import opened Wrappers
  import opened Text

  /** The four colours the table uses for cells. */
  datatype Colour = White | Black | Yellow | Red

  /** The background and the text colour chosen for one cell. */
  datatype CellColours = CellColours(background: Colour, text: Colour)

  /** The only column whose cells are colour-coded. */
  const CheckInColumn: string := "ActualCheckIn"

  /** 08:34, in minutes after midnight: the first minute that counts as late. */
  const LateThresholdMinutes: int := 8 * 60 + 34

  /** The colours every cell starts with. */
  const Plain := CellColours(White, Black)

  /**
   * The minutes after midnight of a check-in time: the text is cut at its
   * colons, the first piece read as the hour and the second (or 0 when there
   * is none) as the minute, both with `int()`. `None` is the exception that
   * `int()` raises on a piece that is not an integer.
   */
  function ClockMinutes(time: string): Option<int> {
    FieldsMinutes(Split(time, ':'))
  }

  /** The clock reading of the colon-separated fields of a check-in time. */
  function FieldsMinutes(parts: seq<string>): Option<int>
    requires |parts| >= 1
  {
    var hour := ParseInt(parts[0]);
    var minute := if |parts| > 1 then ParseInt(parts[1]) else Some(0);
    if hour.Some? && minute.Some? then Some(hour.value * 60 + minute.value) else None
  }

  /**
   * The colours of a check-in cell: yellow background when the cell is NaN or
   * only whitespace; otherwise the colours of its stripped text.
   */
  function CheckInColours(cell: Option<string>): CellColours
  {
    if cell.None? || Strip(cell.value) == "" then CellColours(Yellow, Black)
    else TimeColours(Strip(cell.value))
  }

  /**
   * The colours of a present check-in time: red text when it has a colon and
   * its clock reading is at or after 08:34; plain otherwise, including when
   * the reading raises (the exception is swallowed).
   */
  function TimeColours(time: string): CellColours
  {
    if ':' in time then
      match ClockMinutes(time) {
        case Some(minutes) =>
          if minutes >= LateThresholdMinutes then CellColours(White, Red) else Plain
        case None => Plain
      }
    else Plain
  }

  /** The colours of the cell of `column` holding `cell`: only the check-in
      column is coded. */
  function ColoursFor(column: string, cell: Option<string>): CellColours {
    if column == CheckInColumn then CheckInColours(cell) else Plain
  }

  /** A cell is set in the bold font exactly when its text is not black. */
  predicate IsBold(c: CellColours) {
    c.text != Black
  }

  /**
   * Absence: the background turns yellow exactly when the check-in is
   * missing or blank, and an absent employee is never marked late.
   */
  lemma AbsentIffYellow(cell: Option<string>)
    ensures CheckInColours(cell).background == Yellow <==> (cell.None? || IsBlank(cell.value))
    ensures CheckInColours(cell).background == Yellow ==> CheckInColours(cell).text == Black
  {
    if cell.Some? {
      StripEmptyIffBlank(cell.value);
    }
  }

  /** Late and absent exclude each other: red text only on a white background. */
  lemma LateIsPresent(cell: Option<string>)
    ensures CheckInColours(cell).text == Red ==> CheckInColours(cell).background == White
  {
  }

  /** A check-in without a colon is never late, whatever else it says. */
  lemma NoColonNotLate(v: string)
    requires ':' !in v
    ensures CheckInColours(Some(v)).text == Black
  {
    if !IsBlank(v) {
      PresentColours(v);
      StripAddsNothing(v, ':');
    }
  }

  /** A non-empty string of digits has no whitespace at either end and no colon. */
  lemma DigitsShape(s: string)
    requires |s| > 0 && AllDigits(s)
    ensures !IsSpace(s[0]) && !IsSpace(s[|s| - 1]) && ':' !in s
  {
    DigitIsNotSpace(s[0]);
    DigitIsNotSpace(s[|s| - 1]);
  }

  /** Cutting "h:m" followed by nothing or by a colon and more: the first two
      pieces are h and m. */
  lemma SplitClock(h: string, m: string, rest: string)
    requires ':' !in h && ':' !in m
    requires rest == [] || rest[0] == ':'
    ensures |Split(h + ":" + m + rest, ':')| >= 2
    ensures Split(h + ":" + m + rest, ':')[0] == h && Split(h + ":" + m + rest, ':')[1] == m
  {
    assert h + ":" + m + rest == h + [':'] + (m + rest);
    SplitAtFirstSeparator(h, ':', m + rest);
    if rest == [] {
      assert m + rest == m;
      SplitWithoutSeparator(m, ':');
    } else {
      assert m + rest == m + [':'] + rest[1..];
      SplitAtFirstSeparator(m, ':', rest[1..]);
    }
  }

  /** A text t spelling "h:m" (and whatever follows a further colon) has a
      colon and reads as h * 60 + m minutes. */
  lemma ClockOfDigits(t: string, h: string, m: string, rest: string)
    requires |h| > 0 && AllDigits(h) && |m| > 0 && AllDigits(m)
    requires rest == [] || rest[0] == ':'
    requires t == h + ":" + m + rest
    ensures ':' in t
    ensures ClockMinutes(t) == Some(DigitsValue(h) * 60 + DigitsValue(m))
  {
    assert t[|h|] == ':';
    var parts := Split(t, ':');
    assert |parts| > 1 && parts[0] == h && parts[1] == m by {
      DigitsShape(h);
      DigitsShape(m);
      SplitClock(h, m, rest);
    }
    FieldsOfDigits(h, m, parts);
  }

  /** Digit fields read as their decimal values. */
  lemma FieldsOfDigits(h: string, m: string, parts: seq<string>)
    requires |h| > 0 && AllDigits(h) && |m| > 0 && AllDigits(m)
    requires |parts| > 1 && parts[0] == h && parts[1] == m
    ensures FieldsMinutes(parts) == Some(DigitsValue(h) * 60 + DigitsValue(m))
  {
    ParseDigits(h);
    ParseDigits(m);
  }

  /** A check-in that is not blank is coloured by its stripped text alone. */
  lemma PresentColours(v: string)
    requires !IsBlank(v)
    ensures CheckInColours(Some(v)) == TimeColours(Strip(v))
  {
    StripEmptyIffBlank(v);
  }

  /**
   * Lateness: a time written as digits, a colon and digits, optionally
   * followed by a colon and anything (seconds, say), is red exactly when
   * hour * 60 + minute reaches 08:34; whatever follows the minutes is ignored
   * and the minutes are not checked against 59.
   */
  lemma LateIffAtOrAfterThreshold(h: string, m: string, rest: string)
    requires |h| > 0 && AllDigits(h) && |m| > 0 && AllDigits(m)
    requires rest == [] || rest[0] == ':'
    ensures TimeColours(h + ":" + m + rest)
            == if DigitsValue(h) * 60 + DigitsValue(m) >= LateThresholdMinutes then CellColours(White, Red) else Plain
  {
    ClockOfDigits(h + ":" + m + rest, h, m, rest);
  }

  /** A check-in that neither starts nor ends with whitespace is coloured by
      its text as it stands. */
  lemma StrippedColours(v: string)
    requires v != [] && !IsSpace(v[0]) && !IsSpace(v[|v| - 1])
    ensures CheckInColours(Some(v)) == TimeColours(v)
  {
    StripUnchanged(v);
  }

  /** The same for a whole check-in cell: such a cell is never absent, and it
      is red exactly when hour * 60 + minute reaches 08:34. */
  lemma LateCheckIn(h: string, m: string, rest: string)
    requires |h| > 0 && AllDigits(h) && |m| > 0 && AllDigits(m)
    requires rest == [] || (rest[0] == ':' && !IsSpace(rest[|rest| - 1]))
    ensures CheckInColours(Some(h + ":" + m + rest))
            == if DigitsValue(h) * 60 + DigitsValue(m) >= LateThresholdMinutes then CellColours(White, Red) else Plain
  {
    var v := h + ":" + m + rest;
    DigitsShape(h);
    DigitsShape(m);
    assert v[0] == h[0];
    assert v[|v| - 1] == if rest == [] then m[|m| - 1] else rest[|rest| - 1];
    StrippedColours(v);
    LateIffAtOrAfterThreshold(h, m, rest);
  }

  /** 08:34:00 is the first late check-in. */
  lemma LateAtThreshold()
    ensures CheckInColours(Some("08:34:00")).text == Red
  {
    var h, m, rest := "08", "34", ":00";
    assert AllDigits(h) && AllDigits(m);
    assert DigitsValue(h) == 8 by { assert h == ['0'] + "8"; DigitsValueLeadingZero("8"); }
    assert DigitsValue(m) == 34;
    LateCheckIn(h, m, rest);
    assert h + ":" + m + rest == "08:34:00";
  }

  /** 08:33:59 is on time: the seconds do not count. */
  lemma OnTimeJustBefore()
    ensures CheckInColours(Some("08:33:59")).text == Black
  {
    var h, m, rest := "08", "33", ":59";
    assert AllDigits(h) && AllDigits(m);
    assert DigitsValue(h) == 8 by { assert h == ['0'] + "8"; DigitsValueLeadingZero("8"); }
    assert DigitsValue(m) == 33;
    LateCheckIn(h, m, rest);
    assert h + ":" + m + rest == "08:33:59";
  }

  /** The minutes are not range-checked: 07:99 reads as 519 minutes, so it is late. */
  lemma LateWithOutOfRangeMinutes()
    ensures CheckInColours(Some("07:99")).text == Red
  {
    var h, m, rest := "07", "99", "";
    assert AllDigits(h) && AllDigits(m);
    assert DigitsValue(h) == 7 by { assert h == ['0'] + "7"; DigitsValueLeadingZero("7"); }
    assert DigitsValue(m) == 99;
    LateCheckIn(h, m, rest);
    assert h + ":" + m + rest == "07:99";
  }

  /** Every cell's background is white or yellow: only absence changes it. */
  lemma BackgroundWhiteOrYellow(column: string, cell: Option<string>)
    ensures ColoursFor(column, cell).background == White || ColoursFor(column, cell).background == Yellow
  {
  }

  /** Bold cells are exactly the late check-ins. */
  lemma BoldIffLate(column: string, cell: Option<string>)
    ensures IsBold(ColoursFor(column, cell)) <==> column == CheckInColumn && CheckInColours(cell).text == Red
  {
  }
}
