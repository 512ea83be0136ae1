/**
 * The two conversion requests (app.py, convert_excel_to_pdf and
 * batch_convert_excel_to_pdf): one upload becomes one report, a batch of
 * uploads becomes a list of PDF paths and a list of error messages.
 */
module Batch {
  import opened Wrappers
  import opened Text
  import opened FileNames
  import opened Normalize
  import opened Report

  /**
   * One uploaded file together with everything the outside world answers
   * about it: the name the browser sent, the name `secure_filename` makes of
   * it, whether saving it raises, what pandas reads from it (as CSV, as a
   * sheet without header, as a sheet with the header at a given row), and
   * whether building or writing the PDF raises.
   */
  datatype Upload = Upload(
    filename: string,
    savedName: string,
    saveError: Option<string>,
    csvTable: Result<Frame, string>,
    rawSheet: Result<seq<Row>, string>,
    sheetWithHeader: nat -> Result<Frame, string>,
    outputError: Option<string>)

  /** Where a conversion stopped. */
  datatype Stage = Saving | Reading | Generating | Writing

  /** The result of converting one accepted upload. */
  datatype Outcome = Written(pdfName: string, report: Layout) | Failed(stage: Stage, message: string)

  /** The table pandas reads from the saved file with the given reader: the
      CSV reader, or the sheet read again with its header at the first row
      that looks like one. */
  function ReadWith(u: Upload, reader: Reader): Result<Frame, string> {
    match reader {
      case CsvReader => u.csvTable
      case ExcelReader =>
        match u.rawSheet {
          case Err(e) => Err(e)
          case Ok(raw) => u.sheetWithHeader(HeaderRow(raw))
        }
    }
  }

  /** The table as the code reads it: the reader is chosen by the
      case-sensitive `endswith(".csv")` test on the saved name. */
  function ReadTable(u: Upload): Result<Frame, string> {
    ReadWith(u, ReaderAsWritten(u.savedName))
  }

  /** Save, read with `reader`, clean, generate, write: the steps both
      requests take for an accepted upload, stopping at the first that raises. */
  function ProcessWith(u: Upload, reportDate: string, reader: Reader): Outcome {
    if u.saveError.Some? then Failed(Saving, u.saveError.value)
    else match ReadWith(u, reader) {
      case Err(e) => Failed(Reading, e)
      case Ok(df) =>
        match Generate(Clean(df), Title(u.savedName), Subtitle(reportDate)) {
          case Err(e) => Failed(Generating, e)
          case Ok(layout) =>
            if u.outputError.Some? then Failed(Writing, u.outputError.value)
            else Written(PdfName(u.savedName), layout)
        }
    }
  }

  /** One conversion as the code runs it, with its case-sensitive reader choice. */
  function Process(u: Upload, reportDate: string): Outcome {
    ProcessWith(u, reportDate, ReaderAsWritten(u.savedName))
  }

  /** One conversion with the reader chosen by the lower-cased extension, as
      the upload filter reads it. */
  function CorrectedProcess(u: Upload, reportDate: string): Outcome {
    ProcessWith(u, reportDate, ReaderFor(u.savedName))
  }

  /** On a saved name with a lower-case extension the code and the corrected
      conversion do the same. */
  lemma ProcessAgreesOnLowerCase(u: Upload, reportDate: string, stem: string, ext: string)
    requires u.savedName == stem + "." + ext && '.' !in ext && Lower(ext) == ext
    ensures Process(u, reportDate) == CorrectedProcess(u, reportDate)
  {
    ReaderForAgreesOnLowerCase(stem, ext);
  }

  /** The code opens an accepted "ROSTER.CSV" with the Excel reader: when the
      file cannot be read as a sheet, the conversion fails at reading, whatever
      the CSV reader would have given, while the corrected conversion reads it
      as CSV. */
  lemma UpperCaseCsvReadAsSheet(u: Upload, reportDate: string)
    requires u.savedName == "ROSTER.CSV" && u.saveError.None? && u.rawSheet.Err?
    ensures Process(u, reportDate) == Failed(Reading, u.rawSheet.error)
    ensures ReadWith(u, ReaderFor(u.savedName)) == u.csvTable
  {
    ReaderAsWrittenMisreadsUpperCaseCsv();
  }

  /** The steps of `Process` as app.py runs them, with the header scan loop
      and the report built by `GenerateAttendancePdf`. */
  method ConvertUpload(u: Upload, reportDate: string) returns (outcome: Outcome)
    ensures outcome == Process(u, reportDate)
  {
    if u.saveError.Some? {
      return Failed(Saving, u.saveError.value);
    }
    var df: Frame;
    if ReaderAsWritten(u.savedName) == CsvReader {
      if u.csvTable.Err? {
        return Failed(Reading, u.csvTable.error);
      }
      df := u.csvTable.value;
    } else {
      if u.rawSheet.Err? {
        return Failed(Reading, u.rawSheet.error);
      }
      var headerRow := FindHeaderRow(u.rawSheet.value);
      var sheet := u.sheetWithHeader(headerRow);
      if sheet.Err? {
        return Failed(Reading, sheet.error);
      }
      df := sheet.value;
    }
    df := Clean(df);
    var report := GenerateAttendancePdf(df, Title(u.savedName), Subtitle(reportDate));
    if report.Err? {
      return Failed(Generating, report.error);
    }
    if u.outputError.Some? {
      return Failed(Writing, u.outputError.value);
    }
    outcome := Written(PdfName(u.savedName), report.value);
  }

  /**
   * Once the file is saved and read, the conversion fails at generation
   * exactly when cleaning leaves no record, with "Excel file has no data
   * rows"; otherwise the report is titled after the file, has one row per
   * cleaned record and is saved under the file's base name with ".pdf".
   */
  lemma ProcessAfterRead(u: Upload, reportDate: string, df: Frame)
    requires u.saveError.None? && ReadTable(u) == Ok(df)
    ensures Process(u, reportDate) == Failed(Generating, "Excel file has no data rows")
            <==> |Clean(df).rows| == 0
    ensures |Clean(df).rows| > 0 && u.outputError.None? ==>
              Process(u, reportDate).Written?
              && Process(u, reportDate).pdfName == PdfName(u.savedName)
              && Process(u, reportDate).report.headings[0] == Title(u.savedName)
              && |Process(u, reportDate).report.body| == |Clean(df).rows|
  {
    GenerateFailsIffNoRecords(Clean(df), Title(u.savedName), Subtitle(reportDate));
    if |Clean(df).rows| > 0 {
      GenerateShape(Clean(df), Title(u.savedName), Subtitle(reportDate));
    }
  }

  // ---------------------------------------------------------------------------
  // Responses
  // ---------------------------------------------------------------------------

  /** What a request answers: a PDF download, a ZIP of the batch's PDFs, or a
      JSON error with its HTTP status. */
  datatype Response =
    | PdfResponse(downloadName: string, report: Layout)
    | ZipResponse(pdfPaths: seq<string>)
    | ErrorResponse(status: nat, message: string)

  const InvalidFormat: string := "Invalid file format. Please upload Excel or CSV files."

  /** `/convert`: a missing or refused file is a 400 error, a read failure a
      400 "Error reading file: ...", any later failure a 500 "Error: ...". */
  function ConvertSingle(file: Option<Upload>, reportDate: string): Response {
    if file.None? || !AllowedFile(file.value.filename) then ErrorResponse(400, InvalidFormat)
    else match Process(file.value, reportDate) {
      case Written(name, layout) => PdfResponse(name, layout)
      case Failed(stage, e) =>
        if stage == Reading then ErrorResponse(400, "Error reading file: " + e)
        else ErrorResponse(500, "Error: " + e)
    }
  }

  /** The handler of `/convert`: the request-level checks and answers of
      `ConvertSingle` around a call of the step-by-step `ConvertUpload`. */
  method ConvertExcelToPdf(file: Option<Upload>, reportDate: string) returns (response: Response)
    ensures response == ConvertSingle(file, reportDate)
  {
    if file.None? || !AllowedFile(file.value.filename) {
      return ErrorResponse(400, InvalidFormat);
    }
    var outcome := ConvertUpload(file.value, reportDate);
    match outcome {
      case Written(name, layout) =>
        response := PdfResponse(name, layout);
      case Failed(stage, e) =>
        if stage == Reading {
          response := ErrorResponse(400, "Error reading file: " + e);
        } else {
          response := ErrorResponse(500, "Error: " + e);
        }
    }
  }

  /** A conversion that gets to the end names the PDF after the upload. */
  lemma ProcessWrittenName(u: Upload, reportDate: string)
    ensures Process(u, reportDate).Written? ==> Process(u, reportDate).pdfName == PdfName(u.savedName)
  {
  }

  /** A single upload succeeds only for an accepted name, and then yields the
      PDF named after the upload. */
  lemma ConvertSingleSucceedsOnlyForAccepted(file: Option<Upload>, reportDate: string)
    ensures ConvertSingle(file, reportDate).PdfResponse? ==>
              file.Some? && AllowedFile(file.value.filename)
              && ConvertSingle(file, reportDate).downloadName == PdfName(file.value.savedName)
  {
    if file.Some? && AllowedFile(file.value.filename) {
      ProcessWrittenName(file.value, reportDate);
    }
  }

  // ---------------------------------------------------------------------------
  // Batch
  // ---------------------------------------------------------------------------

  /** What one file of a batch contributes: the path of its PDF in the batch
      folder, or one error message naming the file. */
  function BatchEntry(u: Upload, reportDate: string, batchFolder: string): Result<string, string> {
    if !AllowedFile(u.filename) then Err(u.filename + ": Invalid file format")
    else match Process(u, reportDate) {
      case Written(name, _) => Ok(batchFolder + "/" + name)
      case Failed(stage, e) =>
        if stage == Saving then Err(u.filename + ": " + e) else Err(u.savedName + ": " + e)
    }
  }

  /** One iteration of the batch loop: the inner and outer `try` of app.py
      turned into the entry the file contributes, around a call of the
      step-by-step `ConvertUpload`; `BatchEntry` is what it computes. */
  method ConvertBatchFile(file: Upload, reportDate: string, batchFolder: string) returns (entry: Result<string, string>)
    ensures entry == BatchEntry(file, reportDate, batchFolder)
  {
    if !AllowedFile(file.filename) {
      return Err(file.filename + ": Invalid file format");
    }
    var outcome := ConvertUpload(file, reportDate);
    match outcome {
      case Written(name, _) =>
        entry := Ok(batchFolder + "/" + name);
      case Failed(stage, e) =>
        if stage == Saving {
          entry := Err(file.filename + ": " + e);
        } else {
          entry := Err(file.savedName + ": " + e);
        }
    }
  }

  /** The entries of a batch, one per file, in upload order. */
  function Entries(files: seq<Upload>, reportDate: string, batchFolder: string): (entries: seq<Result<string, string>>)
    ensures |entries| == |files|
  {
    seq(|files|, i requires 0 <= i < |files| => BatchEntry(files[i], reportDate, batchFolder))
  }

  /** The successful entries' values, in order. */
  function OkValues(entries: seq<Result<string, string>>): seq<string>
    decreases |entries|
  {
    if |entries| == 0 then []
    else
      var n := |entries|;
      OkValues(entries[..n - 1]) + (if entries[n - 1].Ok? then [entries[n - 1].value] else [])
  }

  /** The failed entries' messages, in order. */
  function ErrValues(entries: seq<Result<string, string>>): seq<string>
    decreases |entries|
  {
    if |entries| == 0 then []
    else
      var n := |entries|;
      ErrValues(entries[..n - 1]) + (if entries[n - 1].Err? then [entries[n - 1].error] else [])
  }

  /** The PDF paths of a batch, in upload order. */
  function PdfPaths(files: seq<Upload>, reportDate: string, batchFolder: string): seq<string> {
    OkValues(Entries(files, reportDate, batchFolder))
  }

  /** The error messages of a batch, in upload order. */
  function ErrorMessages(files: seq<Upload>, reportDate: string, batchFolder: string): seq<string> {
    ErrValues(Entries(files, reportDate, batchFolder))
  }

  /** The messages of the batch endpoint's two errors, and the separator
      between the failures it lists. */
  const NoFilesUploaded := "No files uploaded"
  const NoPdfsGenerated := "No PDFs were generated. "
  const ErrorSeparator := "; "

  /** `/batch-convert`: no files is a 400 error; a batch without a single PDF
      is a 400 error listing every failure, separated by "; "; otherwise the
      ZIP of the PDFs. */
  function BatchResponse(files: seq<Upload>, reportDate: string, batchFolder: string): Response {
    if |files| == 0 then ErrorResponse(400, NoFilesUploaded)
    else
      var paths := PdfPaths(files, reportDate, batchFolder);
      if paths == [] then
        ErrorResponse(400, NoPdfsGenerated + Join(ErrorMessages(files, reportDate, batchFolder), ErrorSeparator))
      else ZipResponse(paths)
  }

  /** The handler of `/batch-convert`: one pass over the files, appending to
      the PDF list or to the error list. */
  method BatchConvert(files: seq<Upload>, reportDate: string, batchFolder: string)
    returns (response: Response, pdfFiles: seq<string>, errors: seq<string>)
    ensures pdfFiles == PdfPaths(files, reportDate, batchFolder)
    ensures errors == ErrorMessages(files, reportDate, batchFolder)
    ensures response == BatchResponse(files, reportDate, batchFolder)
  {
    pdfFiles, errors := [], [];
    if |files| == 0 {
      return ErrorResponse(400, NoFilesUploaded), pdfFiles, errors;
    }
    ghost var entries := Entries(files, reportDate, batchFolder);
    for i := 0 to |files|
      invariant pdfFiles == OkValues(entries[..i])
      invariant errors == ErrValues(entries[..i])
    {
      var entry := ConvertBatchFile(files[i], reportDate, batchFolder);
      assert entry == entries[i];
      ValuesSnoc(entries, i);
      match entry {
        case Ok(path) => pdfFiles := pdfFiles + [path];
        case Err(message) => errors := errors + [message];
      }
    }
    assert entries[..|files|] == entries;
    if pdfFiles == [] {
      response := ErrorResponse(400, NoPdfsGenerated + Join(errors, ErrorSeparator));
    } else {
      response := ZipResponse(pdfFiles);
    }
  }

  /** Taking one more entry adds its value or its message at the end. */
  lemma ValuesSnoc(entries: seq<Result<string, string>>, i: nat)
    requires i < |entries|
    ensures OkValues(entries[..i + 1]) == OkValues(entries[..i]) + (if entries[i].Ok? then [entries[i].value] else [])
    ensures ErrValues(entries[..i + 1]) == ErrValues(entries[..i]) + (if entries[i].Err? then [entries[i].error] else [])
  {
    assert entries[..i + 1][..i] == entries[..i];
  }

  /** Every entry is counted once: as a value or as a message. */
  lemma {:induction false} EntriesAccounted(entries: seq<Result<string, string>>)
    ensures |OkValues(entries)| + |ErrValues(entries)| == |entries|
    decreases |entries|
  {
    if |entries| > 0 {
      EntriesAccounted(entries[..|entries| - 1]);
    }
  }

  /** Each entry lands in the list it belongs to. */
  lemma {:induction false} EntryListed(entries: seq<Result<string, string>>, i: nat)
    requires i < |entries|
    ensures entries[i].Ok? ==> entries[i].value in OkValues(entries)
    ensures entries[i].Err? ==> entries[i].error in ErrValues(entries)
    decreases |entries|
  {
    var n := |entries|;
    if i < n - 1 {
      EntryListed(entries[..n - 1], i);
    }
  }

  /** A value comes from a successful entry. */
  lemma {:induction false} OkWitness(entries: seq<Result<string, string>>) returns (i: nat)
    requires OkValues(entries) != []
    ensures i < |entries| && entries[i].Ok?
    decreases |entries|
  {
    var n := |entries|;
    if entries[n - 1].Ok? {
      i := n - 1;
    } else {
      i := OkWitness(entries[..n - 1]);
    }
  }

  /** Every file contributes exactly one entry: a PDF path or an error. */
  lemma BatchAccountsForEveryFile(files: seq<Upload>, reportDate: string, batchFolder: string)
    ensures |PdfPaths(files, reportDate, batchFolder)| + |ErrorMessages(files, reportDate, batchFolder)| == |files|
  {
    EntriesAccounted(Entries(files, reportDate, batchFolder));
  }

  /** The entry of file i is in the PDF list when it is a path and in the
      error list when it is a message. */
  lemma BatchEntryListed(files: seq<Upload>, reportDate: string, batchFolder: string, i: nat)
    requires i < |files|
    ensures var entry := Entries(files, reportDate, batchFolder)[i];
            (entry.Ok? ==> entry.value in PdfPaths(files, reportDate, batchFolder))
            && (entry.Err? ==> entry.error in ErrorMessages(files, reportDate, batchFolder))
  {
    EntryListed(Entries(files, reportDate, batchFolder), i);
  }

  /** A file the filter refuses is reported as "<name>: Invalid file format". */
  lemma RefusedFileEntry(u: Upload, reportDate: string, batchFolder: string)
    requires !AllowedFile(u.filename)
    ensures BatchEntry(u, reportDate, batchFolder) == Err(u.filename + ": Invalid file format")
  {
  }

  /** The batch request fails exactly when no file produced a PDF. */
  lemma BatchFailsIffNoPdf(files: seq<Upload>, reportDate: string, batchFolder: string)
    ensures BatchResponse(files, reportDate, batchFolder).ErrorResponse?
            <==> forall i :: 0 <= i < |files| ==> Entries(files, reportDate, batchFolder)[i].Err?
  {
    var entries := Entries(files, reportDate, batchFolder);
    if OkValues(entries) != [] {
      var w := OkWitness(entries);
    } else {
      forall i | 0 <= i < |files| ensures entries[i].Err? {
        EntryListed(entries, i);
      }
    }
  }

  /** A failed batch's message names every file's failure. */
  lemma BatchErrorNamesEveryFailure(files: seq<Upload>, reportDate: string, batchFolder: string, i: nat)
    requires i < |files| && BatchResponse(files, reportDate, batchFolder).ErrorResponse?
    ensures Entries(files, reportDate, batchFolder)[i].Err?
    ensures Contains(BatchResponse(files, reportDate, batchFolder).message,
                     Entries(files, reportDate, batchFolder)[i].error)
  {
    var entries := Entries(files, reportDate, batchFolder);
    var errors := ErrValues(entries);
    BatchFailsIffNoPdf(files, reportDate, batchFolder);
    EntryListed(entries, i);
    var k :| 0 <= k < |errors| && errors[k] == entries[i].error;
    JoinContainsPart(errors, ErrorSeparator, k);
    ContainsInfix(NoPdfsGenerated, Join(errors, ErrorSeparator), "", entries[i].error);
    assert NoPdfsGenerated + Join(errors, ErrorSeparator) + ""
           == BatchResponse(files, reportDate, batchFolder).message;
  }
}
