/** The fifteen conversions of `FileConverter` and the extension checks each
    one runs before its `try` block (File_convertor.py). Every operation checks
    its input path; all but the two folder-output exports also check the
    destination path, in that order, so an invalid input is reported ahead of
    an invalid destination. */
module Operations {
  import opened Common
  import opened Extensions

  datatype Operation =
    | CsvToExcel | ExcelToCsv | TextToJson | JsonToText | TextToCsv
    | HtmlToPdf | PdfToHtml | PdfToPpt | PptToPdf | PdfToJpg
    | JpgToPdf | PngToPdf | PdfToPng | GifToPdf | PdfToGif

  /** One call of `_validate_extension`: the accepted list and the role label. */
  datatype Rule = Rule(exts: seq<string>, role: string)

  function InputRule(op: Operation): Rule {
    match op
    case CsvToExcel => Rule([".csv"], "CSV input")
    case ExcelToCsv => Rule([".xls", ".xlsx"], "Excel input")
    case TextToJson => Rule([".txt", ".text"], "Text input")
    case JsonToText => Rule([".json"], "JSON input")
    case TextToCsv => Rule([".txt"], "Text input")
    case HtmlToPdf => Rule([".html", ".htm"], "HTML input")
    case PdfToHtml => Rule([".pdf"], "PDF input")
    case PdfToPpt => Rule([".pdf"], "PDF input")
    case PptToPdf => Rule([".ppt", ".pptx"], "PPT input")
    case PdfToJpg => Rule([".pdf"], "PDF input")
    case JpgToPdf => Rule([".jpg", ".jpeg"], "JPG input")
    case PngToPdf => Rule([".png"], "PNG input")
    case PdfToPng => Rule([".pdf"], "PDF input")
    case GifToPdf => Rule([".gif"], "GIF input")
    case PdfToGif => Rule([".pdf"], "PDF input")
  }

  /** The destination check; `None` for the exports that write into a folder
      and validate nothing about it. */
  function OutputRule(op: Operation): Option<Rule> {
    match op
    case CsvToExcel => Some(Rule([".xls", ".xlsx"], "Excel output"))
    case ExcelToCsv => Some(Rule([".csv"], "CSV output"))
    case TextToJson => Some(Rule([".json"], "JSON output"))
    case JsonToText => Some(Rule([".txt"], "Text output"))
    case TextToCsv => Some(Rule([".csv"], "CSV output"))
    case HtmlToPdf => Some(Rule([".pdf"], "PDF output"))
    case PdfToHtml => Some(Rule([".html"], "HTML output"))
    case PdfToPpt => Some(Rule([".pptx"], "PPTX output"))
    case PptToPdf => Some(Rule([".pdf"], "PDF output"))
    case PdfToJpg => None
    case JpgToPdf => Some(Rule([".pdf"], "PDF output"))
    case PngToPdf => Some(Rule([".pdf"], "PDF output"))
    case PdfToPng => None
    case GifToPdf => Some(Rule([".pdf"], "PDF output"))
    case PdfToGif => Some(Rule([".gif"], "GIF output"))
  }

  predicate WritesToFolder(op: Operation) {
    OutputRule(op).None?
  }

  /** The validation phase of an operation: the first `_validate_extension`
      call that raises, if any. */
  function Precheck(op: Operation, source: string, target: string): (r: Option<ExtensionError>)
    ensures r.None? <==>
              (Lower(PosixPath.Extension(source)) in InputRule(op).exts
               && (WritesToFolder(op) || Lower(PosixPath.Extension(target)) in OutputRule(op).value.exts))
    ensures Validate(source, InputRule(op).exts, InputRule(op).role).Some? ==>
              r == Validate(source, InputRule(op).exts, InputRule(op).role)
    ensures r.Some? && r.value.role != InputRule(op).role ==> !WritesToFolder(op)
    ensures Validate(source, InputRule(op).exts, InputRule(op).role).None? && !WritesToFolder(op) ==>
              r == Validate(target, OutputRule(op).value.exts, OutputRule(op).value.role)
  {
    var inRule := InputRule(op);
    match Validate(source, inRule.exts, inRule.role)
    case Some(err) => Some(err)
    case None =>
      match OutputRule(op)
      case None => None
      case Some(outRule) => Validate(target, outRule.exts, outRule.role)
  }

  /** Every table entry is a dot followed by a plain suffix. */
  lemma TablesWellFormed(op: Operation)
    ensures forall e :: e in InputRule(op).exts ==> WellFormedExt(e)
    ensures OutputRule(op).Some? ==> forall e :: e in OutputRule(op).value.exts ==> WellFormedExt(e)
  {
    InputTableWellFormed(op);
    OutputTableWellFormed(op);
  }

  lemma InputTableWellFormed(op: Operation)
    ensures forall e :: e in InputRule(op).exts ==> WellFormedExt(e)
  {
  }

  lemma OutputTableWellFormed(op: Operation)
    ensures OutputRule(op).Some? ==> forall e :: e in OutputRule(op).value.exts ==> WellFormedExt(e)
  {
  }

  /** The validation phase passes exactly when the lower-cased source path ends
      with an accepted input extension and, unless the operation writes into a
      folder, the lower-cased destination ends with an accepted output one. */
  lemma PrecheckIffEndsWithListed(op: Operation, source: string, target: string)
    ensures Precheck(op, source, target).None? <==>
              ((exists e :: e in InputRule(op).exts && EndsWithExtension(Lower(source), e))
               && (WritesToFolder(op)
                   || exists e :: e in OutputRule(op).value.exts && EndsWithExtension(Lower(target), e)))
  {
    TablesWellFormed(op);
    AcceptedIffEndsWithListed(source, InputRule(op).exts, InputRule(op).role);
    if !WritesToFolder(op) {
      AcceptedIffEndsWithListed(target, OutputRule(op).value.exts, OutputRule(op).value.role);
    }
  }

  /** The tables are not symmetric: `.text` is accepted as the input of Text to
      JSON, but rejected as the input of Text to CSV and as the output of JSON
      to Text. */
  lemma TextSuffixAcceptedOnlyByTextToJson()
    ensures Precheck(TextToJson, "notes.text", "notes.json") == None
    ensures Precheck(TextToCsv, "notes.text", "notes.csv")
            == Some(InvalidExtension(".text", "Text input", [".txt"]))
    ensures Precheck(JsonToText, "notes.json", "notes.text")
            == Some(InvalidExtension(".text", "Text output", [".txt"]))
  {
    NoteExtensions();
    assert Validate("notes.text", [".txt", ".text"], "Text input") == None;
    assert Validate("notes.json", [".json"], "JSON output") == None;
    assert Validate("notes.text", [".txt"], "Text input")
        == Some(InvalidExtension(".text", "Text input", [".txt"]));
    assert Validate("notes.json", [".json"], "JSON input") == None;
    assert Validate("notes.text", [".txt"], "Text output")
        == Some(InvalidExtension(".text", "Text output", [".txt"]));
  }

  /** The lower-cased extensions of the sample names. */
  lemma NoteExtensions()
    ensures Lower(PosixPath.Extension("notes.text")) == ".text"
    ensures Lower(PosixPath.Extension("notes.json")) == ".json"
  {
    assert PosixPath.HasNonDot("notes") by { assert "notes"[0] != PosixPath.ExtSep; }
    assert "notes.text" == "notes" + ".text";
    LowerExtensionOfPlainName("notes", ".text");
    assert "notes.json" == "notes" + ".json";
    LowerExtensionOfPlainName("notes", ".json");
  }

  lemma LowerExtensionOfPlainName(name: string, e: string)
    requires WellFormedExt(e) && Lower(e) == e
    requires PosixPath.Sep !in name && PosixPath.HasNonDot(name)
    ensures Lower(PosixPath.Extension(name + e)) == e
  {
    ExtensionOfPlainName(name, e);
  }
}
