# Attendance report conversion, modelled in Dafny

This project models the conversion core of a small Flask service, `app.py`.
The service turns staff-attendance spreadsheets (Excel or CSV) into PDF
reports. An upload is accepted or refused by its extension. The spreadsheet
is read, with its header row located in Excel sheets, and cleaned of empty
rows and "Unnamed" columns. It is then laid out as a titled table. An empty
check-in is marked as an absence (yellow background), and a check-in at or
after 08:34 is marked late (bold red text). A single upload becomes one PDF
download. A batch becomes a list of PDF paths plus a list of per-file error
messages, and it fails when no PDF was produced.

Modules, following the program's structure:

- `Wrappers`: `Option` and `Result`.
- `Text`: the Python string operations the code relies on: `strip`,
  `lower`/`upper`, `in`, `" ".join`, `split`, `int()` and the decimal
  digits of a number.
- `FileNames`: `allowed_file`, `os.path.splitext`, the PDF name and the
  choice between the CSV reader and the Excel reader.
- `Dates`: `strptime("%Y-%m-%d")` and `strftime("%d %B %Y")`.
- `Normalize`: the header-row scan and the cleaning of the table.
- `Classify`: the colour coding of check-in cells.
- `Report`: titles, display columns, table body, column widths, background
  overrides and the whole report layout.
- `Batch`: the `/convert` and `/batch-convert` requests.

Everything the outside world answers is a parameter of the model. This
covers pandas' reading of the file, saving the upload, writing the PDF, and
the batch folder name, which comes from the clock. Each of these is a value
or a failure message given with the upload (`Batch.Upload`). The model
computes the report as a value (`Report.Layout`): headings, column
headings, cell texts with colours and bold flags, column widths in
hundredths of an inch, and the yellow background overrides. A NaN cell is
`None`. A present cell is the text `str()` gives for it.

Three behaviours of `app.py` are easy to miss, and the model follows the
code in each. The PDF is named after the upload's base name, with no date
in it (app.py:91, 215). The header-row scan runs only for Excel files, and
CSV files are read with their first line as the header (app.py:55-70). The
title and subtitle posted with a request are ignored in favour of the
formatted ones (app.py:39-40, 93-104).

## Model

| member | source | states |
|---|---|---|
| FileNames.LastIndex | app.py:26 | the position `rsplit(".", 1)` cuts at: the last occurrence of the character, or -1 when it does not occur |
| FileNames.Extension | app.py:26 | the text after the last dot contains no dot |
| FileNames.AllowedFileDecompose | app.py:22-26 | for a name "stem.ext" with a dot-free ext, the extension is ext, and the name is accepted exactly when ext, lower-cased, is xlsx, xls or csv |
| FileNames.AllowedFileNeedsDot | app.py:26 | a name without a dot is refused |
| FileNames.AllowedFileLastDotOnly | app.py:26 | only the last extension counts: "a.csv.txt" is refused |
| FileNames.SplitExtRootDecompose | app.py:91 | `splitext` removes exactly the extension the filter checked: the root of "stem.ext" is stem |
| FileNames.PdfNameRoundTrip | app.py:91 | the PDF name of "stem.ext" has root stem and extension "pdf" |
| FileNames.SplitExtRootLeadingDot | app.py:91 | a leading-dot name such as ".csv" has no extension for `splitext`, so its PDF is ".csv.pdf" |
| FileNames.ReaderAsWrittenMisreadsUpperCaseCsv | app.py:55-59 | "ROSTER.CSV" passes the filter as a CSV file but is sent to the Excel reader; "ROSTER.csv" goes to the CSV reader |
| FileNames.ReaderForIgnoresCase | app.py:55-59 | the corrected reader choice depends only on the lower-cased extension |
| FileNames.EndsWithCsv | app.py:55 | on "stem.ext" with a dot-free ext, `endswith(".csv")` holds exactly when ext is "csv" in lower case |
| FileNames.ReaderForAgreesOnLowerCase | app.py:55-59 | the corrected reader choice is the code's `endswith(".csv")` test whenever the extension is lower case |
| Dates.ParseIsoDate | app.py:99 | a parsed date is a real calendar date: year 1-9999, month 1-12, day within its month, with Gregorian leap years |
| Dates.ParseIsoParts | app.py:99 | the same for the hyphen-separated fields |
| Dates.ParseIsoString | app.py:99 | round trip: the zero-padded "YYYY-MM-DD" spelling of a date parses back to that date exactly when the date is valid, and fails otherwise (February 30th, month 13) |
| Dates.ParseIsoUnpadded | app.py:99 | month and day written without leading zeros are read as well |
| Dates.FormatLongFields | app.py:101 | the long spelling `strftime("%d %B %Y")` splits at its spaces into a two-digit day that reads as the day, the English month name, and a four-digit year that reads as the year |
| Dates.ZeroPadExact | app.py:101 | a number below 10^k is written with exactly k digits |
| Text.StripEmptyIffBlank | app.py:380 | `strip()` gives "" exactly when the text is only whitespace |
| Text.StripAddsNothing | app.py:385-386 | stripping adds no character, so a colon in the stripped text was in the cell |
| Text.StripUnchanged | app.py:385 | text with no whitespace at either end is unchanged by `strip()` |
| Text.JoinSplit | app.py:388 | joining the pieces of `split(":")` with ":" gives back the text |
| Text.SplitJoin | app.py:388 | splitting a join of colon-free pieces gives back the pieces |
| Text.SplitManyIffSeparator | app.py:386-390 | `split(":")` gives more than one piece exactly when the text has a colon |
| Text.SplitAtFirstSeparator | app.py:388 | the first piece of `split` is the text before the first separator |
| Text.JoinContainsPart | app.py:229-232 | each part occurs in the joined text |
| Text.ParseDigits | app.py:389-390 | `int()` reads a string of decimal digits as its value |
| Text.ParseIntToString | app.py:389-390 | `int(str(i)) == i` for every integer |
| Normalize.FirstHeaderRow | app.py:61-67 | the first row passing the header test; `None` exactly when no row passes |
| Normalize.FindHeaderRow | app.py:61-67 | the loop returns the first row passing the header test, every earlier row fails it, and 0 is returned when none passes |
| Normalize.HeaderTestIsCaseInsensitive | app.py:64-65 | the "EmployeeName" test adds nothing: a row is a header row exactly when its lower-cased text contains "employee" |
| Normalize.PresentValueInRowText | app.py:64 | every non-NaN cell occurs in the row's joined text |
| Normalize.HeaderRowNotAfterEmployeeNameCell | app.py:61-67 | a cell containing "EmployeeName" in row r makes the header row r or an earlier row that passes the test |
| Normalize.DropEmptyRows | app.py:74 | keeps exactly the rows that are not all NaN, in their order, with their multiplicities |
| Normalize.DropEmptyRowsUnchanged | app.py:74 | a table without empty rows is unchanged |
| Normalize.KeptColumns | app.py:77 | the kept columns are in increasing order and none of them contains "unnamed" in any case |
| Normalize.KeptColumnsComplete | app.py:77 | every column whose name does not contain "unnamed" is kept |
| Normalize.DropUnnamedColumns | app.py:77 | no remaining column name contains "unnamed" in any case |
| Normalize.CleanIsClean | app.py:72-83 | after cleaning, no row is all NaN and no column is "Unnamed" |
| Normalize.DropProjectDrop | app.py:74-83 | dropping empty rows before removing columns does not change the outcome of dropping them afterwards |
| Normalize.CleanSinglePass | app.py:72-83 | cleaning is one column removal followed by one empty-row removal: the first `dropna` is redundant |
| Normalize.CleanKeepsOrder | app.py:72-83 | the kept columns keep their relative order, and the kept rows are, in their original order, original rows restricted to those columns |
| Normalize.CleanUnchanged | app.py:72-83 | a table that is already clean is unchanged |
| Normalize.CleanIdempotent | app.py:72-83 | cleaning twice is cleaning once |
| Classify.AbsentIffYellow | app.py:378-381 | the background is yellow exactly when the check-in is NaN or blank, and such a cell keeps black text |
| Classify.LateIsPresent | app.py:375-399 | red text only ever sits on a white background |
| Classify.NoColonNotLate | app.py:386 | a check-in without a colon is never late |
| Classify.PresentColours | app.py:380-385 | a check-in that is not blank is coloured by its stripped text |
| Classify.ClockOfDigits | app.py:386-393 | "h:m", optionally followed by a colon and more, has a colon and reads as h * 60 + m minutes |
| Classify.LateIffAtOrAfterThreshold | app.py:384-399 | a time "h:m", optionally with seconds, is red exactly when h * 60 + m reaches 08:34 and plain otherwise |
| Classify.StrippedColours | app.py:380-385 | a check-in without whitespace at either end is coloured by its text as it stands |
| Classify.LateCheckIn | app.py:378-399 | the same for a whole check-in cell: never absent, red exactly when h * 60 + m reaches 08:34 |
| Classify.LateAtThreshold | app.py:394-399 | "08:34:00" is late |
| Classify.OnTimeJustBefore | app.py:394-399 | "08:33:59" is on time: seconds do not count |
| Classify.LateWithOutOfRangeMinutes | app.py:389-396 | minutes are not range-checked: "07:99" is 519 minutes and therefore late |
| Classify.BackgroundWhiteOrYellow | app.py:375-381 | a cell's background is always white or the absent yellow |
| Classify.BoldIffLate | app.py:410 | a cell is bold exactly when it is a check-in with red text |
| Report.TitleOfUpload | app.py:94-95 | the title of "stem.ext" is the upper-cased stem followed by " DAILY STAFF ATTENDANCE"; it is all upper case and the same as the title of the PDF's name |
| Report.SuffixIsUpperCase | app.py:95 | the fixed title suffix is already upper case |
| Report.SubtitleStartsWithBase | app.py:96-104 | the subtitle always starts with "LATE COMMERS AND ABSENTEEISM", and is exactly that when no date is given |
| Report.SubtitleOfIsoDate | app.py:97-102 | a valid "YYYY-MM-DD" date is appended as "DD Month YYYY" |
| Report.SubtitleOfOtherText | app.py:103-104 | a given date that does not parse is appended as typed |
| Report.PresentPreferred | app.py:327-330 | the preferred columns present in the table, in preferred order: a name is listed exactly when it is preferred and present |
| Report.DisplayColumns | app.py:317-334 | at most six columns are shown, all of them columns of the table |
| Report.SelectDisplayColumns | app.py:325-334 | the loop computes `DisplayColumns` |
| Report.DisplayColumnsChoice | app.py:327-334 | when any preferred column is present, exactly those are shown; otherwise the first six columns are shown |
| Report.CheckInShownIffPresent | app.py:317-334 | "ActualCheckIn" is shown exactly when the table has it |
| Report.IndexOf | app.py:477-481 | the first position of a name in a list |
| Report.RenderRow | app.py:371-418 | one rendered cell per displayed column |
| Report.Body | app.py:367-421 | one rendered row per record |
| Report.BuildBody | app.py:358-421 | the loop over the records computes `Body` |
| Report.Widths | app.py:427-450 | one width per displayed column |
| Report.ColumnWidths | app.py:427-450 | the loop computes `Widths` |
| Report.TotalWidthSubsequence | app.py:427-450 | dropping columns never widens the table |
| Report.TotalWidthDefault | app.py:449-450 | columns that are not preferred are 0.85 inch each |
| Report.DisplayWidthBound | app.py:317-450 | the shown columns never total more than 8.30 inches |
| Report.CollectOverrides | app.py:476-495 | the loop computes `CheckInOverrides` |
| Report.OverridesAtExact | app.py:483-495 | an override is listed exactly for a row whose cell in the given column has a non-white background, at that cell, in that colour |
| Report.CheckInOverridesExact | app.py:476-495 | the overrides are exactly the non-white check-in cells, and there are none without a check-in column |
| Report.GenerateAttendancePdf | app.py:259-498 | the method computes `Generate` |
| Report.GenerateFailsIffNoRecords | app.py:423-425 | generation fails exactly when the table has no record, with "Excel file has no data rows" |
| Report.GenerateShape | app.py:317-452 | a report has the display columns as header, one row per record, rows as wide as the header, and each column's width chosen by its name |
| Report.GenerateCell | app.py:367-418 | a cell shows its record's value ("" for NaN); only check-in cells are coloured, by the check-in rule; bold exactly when its text is not black, which is exactly a late check-in |
| Report.GenerateOverrides | app.py:476-495 | the background overrides are exactly the absent check-ins, at their column and table row, in yellow |
| Batch.ConvertUpload | app.py:48-122 | the steps of one conversion compute `Process`: save, read, clean, generate and write, stopping at the first failure |
| Batch.ProcessAgreesOnLowerCase | app.py:55-70 | on a saved name whose extension is lower case, the conversion as written and the corrected conversion give the same outcome |
| Batch.UpperCaseCsvReadAsSheet | app.py:55-86 | an accepted "ROSTER.CSV" is opened with the Excel reader, so the conversion fails at reading with the sheet reader's error, while the corrected reader would read it as CSV |
| Batch.ProcessAfterRead | app.py:72-122 | once read, a conversion fails at generation with "Excel file has no data rows" exactly when cleaning leaves no record; otherwise the report is titled after the file, has one row per cleaned record and is saved under the PDF name |
| Batch.ConvertExcelToPdf | app.py:34-125 | `/convert`: a missing or refused file is a 400 error, a read failure a 400 "Error reading file: ...", any later failure a 500 "Error: ...", success a PDF download |
| Batch.ProcessWrittenName | app.py:91-121 | a written report carries the upload's PDF name |
| Batch.ConvertSingleSucceedsOnlyForAccepted | app.py:43-122 | a PDF is returned only for an accepted upload, and it is named after the upload |
| Batch.ConvertBatchFile | app.py:149-227 | one batch file yields its PDF path in the batch folder or one error naming the file |
| Batch.RefusedFileEntry | app.py:151-153 | a refused file yields "name: Invalid file format" |
| Batch.Entries | app.py:149-227 | one entry per uploaded file |
| Batch.BatchConvert | app.py:137-232 | the loop collects the PDF paths and the errors in file order, and answers 400 "No files uploaded", the ZIP, or 400 with every error |
| Batch.BatchAccountsForEveryFile | app.py:146-227 | every file contributes exactly one PDF path or exactly one error |
| Batch.BatchEntryListed | app.py:149-227 | each file's PDF path is in the PDF list, and each file's error is in the error list |
| Batch.BatchFailsIffNoPdf | app.py:229-232 | the batch answers with an error exactly when no file produced a PDF |
| Batch.BatchErrorNamesEveryFailure | app.py:229-232 | a failed batch's message contains every file's error |

## Left out

- Flask request handling, `render_template`, `send_file` and JSON encoding are not modelled; a response is a value.
- `secure_filename` and `os.path.basename` are not modelled; the saved name is given with each upload.
- Saving the upload and writing the PDF are given as possible failure messages; files are not modelled.
- The ZIP archive (its name, its timestamp and its member names) is not modelled; a batch answers with the list of PDF paths.
- The batch folder name comes from the clock and is a parameter; `os.path.join` is concatenation with "/".
- reportlab's page layout is not modelled. This covers fonts and the Calibri fallback, the static table style, paddings, the grey header and alternating row shading, spacers, and the legend table's layout and colour swatches; the legend's three lines of text are modelled (`Report.Legend`).
- pandas' reading of Excel and CSV files is given with each upload. Column names are text; duplicate column names and pandas' renaming of them are not modelled.
- Normalize.DropUnnamedColumns: column labels are always text, so the `AttributeError` that `df.columns.str.contains` raises when no label is a string is not modelled. This happens, for example, with an Excel sheet that has no "employee" row and whose first row holds only numbers or dates (app.py:77, 188-190).
- Normalize.Clean: total for the same reason. The code instead fails at reading in that case: `/convert` answers 400 "Error reading file: ..." (app.py:85-86), and a batch records "name: ..." for the file (app.py:223-224).
- The title and subtitle posted with `/convert` and `/batch-convert` are not modelled, because the code replaces them by the formatted ones; the unused batch `title` is left out too.
- The department-length computation (`max_dept_length`) is left out, because its value is never used.
- Text.Lower: lower-cases ASCII letters only; Python's `lower()` and `upper()` also map other Unicode letters.
- Text.ParseInt: reads an optional sign and ASCII decimal digits surrounded by whitespace; Python's `int()` also accepts underscores between digits and non-ASCII digits.
- Dates.ParseIsoDate: takes exactly four year digits and one or two month and day digits; other spellings `strptime` may accept are refused.
- Dates.FormatLong: writes years below 1000 with four digits and English month names; the platform's `strftime` may differ on both.
- Batch.ConvertExcelToPdf: an unexpected exception outside reading becomes a 500 answer only through a saving, generation or writing failure; other exceptions are not modelled.
- Batch.Process: a failure of reportlab while building the document is folded into the writing failure.

## Findings

| source | as written | input that shows it | evidently intended | confidence | as-written member | corrected member |
|---|---|---|---|---|---|---|
| app.py:55, 166 | the reader is chosen by `filepath.endswith(".csv")`, which is case-sensitive, while `allowed_file` accepts the extension in any case | an upload named "ROSTER.CSV" is accepted as CSV and then opened with the Excel reader, which fails | choose the CSV reader whenever the lower-cased extension is "csv" | not executed | FileNames.ReaderAsWrittenMisreadsUpperCaseCsv | FileNames.ReaderForIgnoresCase |

The conversion pipeline follows the code: `Batch.Process` reads with `FileNames.ReaderAsWritten`. `Batch.CorrectedProcess` is the same pipeline with the corrected choice. `Batch.ProcessAgreesOnLowerCase` proves the two agree whenever the saved extension is lower case. `Batch.UpperCaseCsvReadAsSheet` shows the discrepancy at the level of a whole conversion.
