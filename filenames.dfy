/**
 * Upload file names: the extension filter, the base name that becomes the
 * report title and the PDF name, and the choice between the CSV and the Excel
 * reader.
 */
module FileNames {
  import opened Text

  /** The extensions the upload form accepts, compared in lower case. */
  const AllowedExtensions: set<string> := {"xlsx", "xls", "csv"}

  /** Python's `s.rfind(c)`: the index of the last `c` in `s`, or -1. */
  function LastIndex(s: string, c: char): (r: int)
    ensures -1 <= r < |s|
    ensures r >= 0 ==> s[r] == c
    ensures forall j :: r < j < |s| ==> s[j] != c
    decreases |s|
  {
    if |s| == 0 then -1
    else if s[|s| - 1] == c then |s| - 1
    else LastIndex(s[..|s| - 1], c)
  }

  /** The last `c` of `a + [c] + b`, when `b` has none, is the one between them. */
  lemma {:induction false} LastIndexAt(a: string, c: char, b: string)
    requires c !in b
    ensures LastIndex(a + [c] + b, c) == |a|
    decreases |b|
  {
    var s := a + [c] + b;
    if |b| > 0 {
      assert s[|s| - 1] == b[|b| - 1];
      assert s[..|s| - 1] == a + [c] + b[..|b| - 1];
      LastIndexAt(a, c, b[..|b| - 1]);
    }
  }

  /** A string without `c` has no last `c`. */
  lemma {:induction false} LastIndexAbsent(s: string, c: char)
    requires c !in s
    ensures LastIndex(s, c) == -1
    decreases |s|
  {
    if |s| > 0 {
      LastIndexAbsent(s[..|s| - 1], c);
    }
  }

  /** `name.rsplit(".", 1)[1]`: the text after the last dot. */
  function Extension(name: string): (ext: string)
    requires '.' in name
    ensures '.' !in ext
  {
    var i := LastIndex(name, '.');
    var ext := name[i + 1..];
    assert forall j :: 0 <= j < |ext| ==> ext[j] == name[i + 1 + j];
    ext
  }

  /** `allowed_file(name)` (app.py): the name has a dot and the text after the
      last dot is xlsx, xls or csv in any letter case. */
  predicate AllowedFile(name: string) {
    '.' in name && Lower(Extension(name)) in AllowedExtensions
  }

  /** Splitting a dotted name at its last dot: its extension is the part after
      that dot, so the filter accepts it exactly when that part, lower-cased,
      is one of the three allowed extensions. */
  lemma AllowedFileDecompose(stem: string, ext: string)
    requires '.' !in ext
    ensures Extension(stem + "." + ext) == ext
    ensures AllowedFile(stem + "." + ext) <==> Lower(ext) in AllowedExtensions
  {
    var name := stem + "." + ext;
    LastIndexAt(stem, '.', ext);
    assert name[|stem| + 1..] == ext;
  }

  /** A name without a dot, in particular the empty name of a missing upload,
      is refused. */
  lemma AllowedFileNeedsDot(name: string)
    requires '.' !in name
    ensures !AllowedFile(name)
  {
  }

  /** Only the text after the last dot counts: "a.csv.txt" is refused. */
  lemma AllowedFileLastDotOnly()
    ensures !AllowedFile("a.csv.txt")
  {
    AllowedFileDecompose("a.csv", "txt");
    assert "a.csv" + "." + "txt" == "a.csv.txt";
    assert Lower("txt") == "txt";
  }

  // ---------------------------------------------------------------------------
  // os.path.splitext
  // ---------------------------------------------------------------------------

  /** Every character of `s` is a dot. */
  predicate AllDots(s: string) {
    forall k :: 0 <= k < |s| ==> s[k] == '.'
  }

  /**
   * `os.path.splitext(p)[0]` on POSIX: `p` without its extension. The
   * extension starts at the last dot of the last path component, and only if
   * some character before that dot in the component is not a dot (so
   * ".profile" has no extension).
   */
  function SplitExtRoot(p: string): string {
    var sep := LastIndex(p, '/');
    var dot := LastIndex(p, '.');
    if dot > sep && !AllDots(p[sep + 1..dot]) then p[..dot] else p
  }

  /** `os.path.splitext(name)[0] + ".pdf"`: the name of the generated report. */
  function PdfName(savedName: string): string {
    SplitExtRoot(savedName) + ".pdf"
  }

  /** The extension that splitext removes is exactly the one the filter looked at. */
  lemma SplitExtRootDecompose(stem: string, ext: string)
    requires '/' !in stem && '.' !in ext && '/' !in ext && !AllDots(stem)
    ensures SplitExtRoot(stem + "." + ext) == stem
  {
    var p := stem + "." + ext;
    LastIndexAt(stem, '.', ext);
    LastIndexAbsent(p, '/');
    assert p[0..|stem|] == stem;
    assert p[..|stem|] == stem;
  }

  /** The PDF keeps the upload's base name: splitting its extension off again
      gives back the same root, and that extension is "pdf". */
  lemma PdfNameRoundTrip(stem: string, ext: string)
    requires '/' !in stem && '.' !in ext && '/' !in ext && !AllDots(stem)
    ensures SplitExtRoot(PdfName(stem + "." + ext)) == stem
    ensures Extension(PdfName(stem + "." + ext)) == "pdf"
  {
    SplitExtRootDecompose(stem, ext);
    assert PdfName(stem + "." + ext) == stem + "." + "pdf";
    SplitExtRootDecompose(stem, "pdf");
    AllowedFileDecompose(stem, "pdf");
  }

  /** A leading dot does not start an extension: ".csv" is its own root. */
  lemma SplitExtRootLeadingDot()
    ensures SplitExtRoot(".csv") == ".csv"
  {
    var p := ".csv";
    LastIndexAt("", '.', "csv");
    assert "" + "." + "csv" == p;
    LastIndexAbsent(p, '/');
    assert p[0..0] == [];
  }

  // ---------------------------------------------------------------------------
  // Reader dispatch
  // ---------------------------------------------------------------------------

  datatype Reader = CsvReader | ExcelReader

  /** The reader as the code chooses it: `filepath.endswith(".csv")`, a
      case-sensitive test on the saved name. */
  function ReaderAsWritten(savedName: string): Reader {
    if EndsWith(savedName, ".csv") then CsvReader else ExcelReader
  }

  /** `ReaderAsWritten` sends an upload the filter accepted as CSV ("ROSTER.CSV")
      to the Excel reader, unlike the same file named "ROSTER.csv". */
  lemma ReaderAsWrittenMisreadsUpperCaseCsv()
    ensures AllowedFile("ROSTER.CSV") && Lower(Extension("ROSTER.CSV")) == "csv"
    ensures ReaderAsWritten("ROSTER.CSV") == ExcelReader
    ensures ReaderAsWritten("ROSTER.csv") == CsvReader
  {
    AllowedFileDecompose("ROSTER", "CSV");
    assert Lower("CSV") == "csv";
    assert "ROSTER.CSV"[6..] == ".CSV";
    assert "ROSTER.csv"[6..] == ".csv";
  }

  /** The reader the filter's case-insensitive reading of the extension calls
      for: CSV exactly when the extension, lower-cased, is "csv". */
  function ReaderFor(savedName: string): Reader {
    if '.' in savedName && Lower(Extension(savedName)) == "csv" then CsvReader else ExcelReader
  }

  /** The corrected choice ignores the letter case of the extension. */
  lemma ReaderForIgnoresCase(stem: string, ext: string)
    requires '.' !in ext
    ensures ReaderFor(stem + "." + ext) == ReaderFor(stem + "." + Lower(ext))
  {
    AllowedFileDecompose(stem, ext);
    assert '.' !in Lower(ext) by {
      forall j | 0 <= j < |ext| ensures Lower(ext)[j] != '.' { assert ext[j] != '.'; }
    }
    AllowedFileDecompose(stem, Lower(ext));
    LowerIdempotent(ext);
  }

  /** `endswith(".csv")` on "stem.ext" with a dot-free ext holds exactly when
      ext is "csv", spelled in lower case. */
  lemma EndsWithCsv(stem: string, ext: string)
    requires '.' !in ext
    ensures EndsWith(stem + "." + ext, ".csv") <==> ext == "csv"
  {
    var name := stem + "." + ext;
    var n := |name|;
    assert name[|stem|] == '.';
    assert name[|stem| + 1..] == ext;
    if EndsWith(name, ".csv") {
      assert name[n - 4..] == ".csv";
      assert name[n - 4] == '.';
      assert forall j :: |stem| < j < n ==> name[j] == ext[j - |stem| - 1];
      assert forall j :: n - 3 <= j < n ==> name[j] == ".csv"[j - n + 4];
      assert n - 4 == |stem|;
    }
    if ext == "csv" {
      assert name[n - 4..] == "." + ext;
    }
  }

  /** On a lower-case extension the corrected choice agrees with the code. */
  lemma ReaderForAgreesOnLowerCase(stem: string, ext: string)
    requires '.' !in ext && Lower(ext) == ext
    ensures ReaderFor(stem + "." + ext) == ReaderAsWritten(stem + "." + ext)
  {
    AllowedFileDecompose(stem, ext);
    EndsWithCsv(stem, ext);
  }
}
