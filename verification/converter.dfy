/** One call of a `FileConverter` operation: the extension checks, which run
    before the `try` block and so raise out of the call, followed by the
    body, whose failures the catch-all handler reports and swallows. What the
    libraries and the file system answer is an input of the model. */
module Converter {
  import opened Common
  import opened Extensions
  import opened Operations
  import Lines
  import JsonText
  import PdfHtml
  import PageNames
  import PptPath
  import PosixPath

  /** What the outside world gives the call. */
  datatype Environment = Environment(
    /** The decoded content of the input, when it can be read. */
    text: Option<string>,
    /** `json.load` of the input, when it parses. */
    json: Option<JsonText.Json>,
    /** `extract_text()` of each page of the input PDF, when it opens. */
    pdfText: Option<seq<Option<string>>>,
    /** The number of pages `convert_from_path` renders, when it succeeds. */
    pageCount: Option<nat>,
    /** Every library call the model keeps abstract, and every write,
        succeeds. */
    othersOk: bool)

  /** What ends up in the destination (or, for the page exports, in the
      output folder). */
  datatype Artifact =
    | JsonDocument(doc: JsonText.Json)
    | TextDocument(content: string)
    | CsvDocument(table: JsonText.Table)
    | HtmlDocument(html: string)
    | PageImages(paths: seq<string>)
    /** One full-width picture slide per rendered page. */
    | SlideDeck(slides: nat)
    /** One frame per rendered page, 500 ms each, looping forever. */
    | Animation(frames: nat, durationMs: nat, loop: nat)
    /** `ppt_to_pdf`: the file LibreOffice wrote, and where it was moved
        from if it was moved. */
    | ConvertedPdf(movedFrom: Option<string>)
    /** The output of a conversion done entirely by a library. */
    | LibraryOutput

  /** Why the body failed: the input could not be read or decoded, the
      `"lines"` value could not be joined, the PDF rendered no page
      (`frames[0]` on an empty list), or a library call or write failed. */
  datatype Cause = Unreadable | BadLines(error: JsonText.JoinError) | NoPages | LibraryFailed

  datatype Outcome =
    | Raised(error: ExtensionError)
    /** The error was caught and printed; `emptied` says whether the
        destination had already been opened for writing, and so is left
        empty. */
    | Reported(cause: Cause, emptied: bool)
    | Written(path: string, artifact: Artifact)

  const GifFrameMs: nat := 500
  const GifLoopForever: nat := 0

  /** The body of each operation's `try` block. */
  function Body(op: Operation, source: string, target: string, env: Environment): (r: Outcome)
    ensures !r.Raised?
    ensures r.Written? ==> r.path == target && env.othersOk
    ensures op == PptToPdf ==> r == PptExport(source, target, env)
  {
    match op
    case TextToJson =>
      if env.text.None? then Reported(Unreadable, false)
      else if !env.othersOk then Reported(LibraryFailed, false)
      else Written(target, JsonDocument(JsonText.TextToJson(env.text.value)))
    case JsonToText =>
      if env.json.None? then Reported(Unreadable, false)
      else if !env.json.value.JObject? then Reported(BadLines(JsonText.NoGetMethod), false)
      else if !env.othersOk then Reported(LibraryFailed, false)
      else
        var joined := JsonText.JsonToText(env.json.value);
        if joined.Failure? then Reported(BadLines(joined.error), true)
        else Written(target, TextDocument(joined.value))
    case TextToCsv =>
      if env.text.None? then Reported(Unreadable, false)
      else if !env.othersOk then Reported(LibraryFailed, false)
      else Written(target, CsvDocument(JsonText.TextToCsv(env.text.value)))
    case PdfToHtml =>
      if env.pdfText.None? then Reported(Unreadable, false)
      else if !env.othersOk then Reported(LibraryFailed, false)
      else Written(target, HtmlDocument(PdfHtml.RenderHtml(env.pdfText.value)))
    case PdfToJpg => PageExport(target, env, PageNames.Jpg)
    case PdfToPng => PageExport(target, env, PageNames.Png)
    case PdfToPpt =>
      if env.pageCount.None? then Reported(Unreadable, false)
      else if !env.othersOk then Reported(LibraryFailed, false)
      else Written(target, SlideDeck(env.pageCount.value))
    case PdfToGif =>
      if env.pageCount.None? then Reported(Unreadable, false)
      else if env.pageCount.value == 0 then Reported(NoPages, false)
      else if !env.othersOk then Reported(LibraryFailed, false)
      else Written(target, Animation(env.pageCount.value, GifFrameMs, GifLoopForever))
    case PptToPdf => PptExport(source, target, env)
    case _ =>
      if !env.othersOk then Reported(LibraryFailed, false) else Written(target, LibraryOutput)
  }

  /** `pdf_to_jpg` and `pdf_to_png` after validation: the folder is created
      first, then the PDF is rendered, and one image per rendered page is
      saved inside the folder. */
  function PageExport(folder: string, env: Environment, format: PageNames.ImageFormat): (r: Outcome)
    ensures r.Written? ==> env.pageCount.Some? && r.artifact.PageImages?
                           && |r.artifact.paths| == env.pageCount.value
    ensures !env.othersOk ==> r == Reported(LibraryFailed, false)
    ensures env.othersOk && env.pageCount.None? ==> r == Reported(Unreadable, false)
  {
    if !env.othersOk then Reported(LibraryFailed, false)
    else if env.pageCount.None? then Reported(Unreadable, false)
    else Written(folder, PageImages(PageNames.PagePaths(folder, env.pageCount.value, format)))
  }

  /** `ppt_to_pdf` after validation: LibreOffice writes the converted file,
      which is moved onto the destination when it is not already there. */
  function PptExport(source: string, target: string, env: Environment): (r: Outcome)
    ensures r.Written? <==> env.othersOk
    ensures r.Written? ==> r.path == target && r.artifact.ConvertedPdf?
    ensures r.Written? ==> (r.artifact.movedFrom.None? <==> !PptPath.NeedsMove(source, target))
    ensures r.Written? && PosixPath.NoDoubleSep(target) ==>
              (r.artifact.movedFrom.None? <==> PptPath.ConvertedName(source) == PosixPath.Basename(target))
    ensures r.Written? && r.artifact.movedFrom.Some? ==>
              r.artifact.movedFrom.value == PptPath.ConvertedPath(source, target)
  {
    assert PosixPath.NoDoubleSep(target) ==>
             (!PptPath.NeedsMove(source, target) <==> PptPath.ConvertedName(source) == PosixPath.Basename(target)) by {
      if PosixPath.NoDoubleSep(target) {
        PptPath.NoMoveIffSameName(source, target);
      }
    }
    if !env.othersOk then Reported(LibraryFailed, false)
    else
      var produced := PptPath.ConvertedPath(source, target);
      Written(target, ConvertedPdf(if produced != target then Some(produced) else None))
  }

  /** A whole call: validation first, then the body. */
  function Run(op: Operation, source: string, target: string, env: Environment): (r: Outcome)
    ensures r.Raised? <==> Precheck(op, source, target).Some?
    ensures r.Raised? ==> r.error == Precheck(op, source, target).value
    ensures r.Written? ==> r.path == target
  {
    match Precheck(op, source, target)
    case Some(e) => Raised(e)
    case None => Body(op, source, target, env)
  }

  /** An invalid extension on either side stops the call before any
      conversion step: the outcome does not depend on the files, the
      libraries or the file system. */
  lemma RaisedIgnoresEnvironment(op: Operation, source: string, target: string,
                                 env: Environment, env': Environment)
    requires !Validate(source, InputRule(op).exts, InputRule(op).role).None?
             || (!WritesToFolder(op)
                 && !Validate(target, OutputRule(op).value.exts, OutputRule(op).value.role).None?)
    ensures Run(op, source, target, env) == Run(op, source, target, env')
    ensures Run(op, source, target, env).Raised?
  {
  }

  /** A text converted to JSON and that JSON converted back to text gives
      the text again, minus one final newline. */
  lemma TextToJsonToText(source: string, content: string, json: string, out: string,
                          env: Environment, env': Environment)
    requires env.text == Some(content) && env'.othersOk
    requires Run(TextToJson, source, json, env).Written?
    requires env'.json == Some(Run(TextToJson, source, json, env).artifact.doc)
    ensures Run(JsonToText, json, out, env').Written? <==> Precheck(JsonToText, json, out).None?
    ensures Run(JsonToText, json, out, env').Written? ==>
              Run(JsonToText, json, out, env').artifact == TextDocument(Lines.DropFinalNewline(content))
  {
    JsonText.TextJsonTextRoundTrip(content);
  }

  /** The `notes.txt` to `notes.json` and back scenario: the text `a\nb\nc\n`
      comes back as `a\nb\nc`. */
  lemma NotesRoundTrip(env: Environment, env': Environment)
    requires env.text == Some("a\nb\nc\n") && env.othersOk && env'.othersOk
    requires env'.json == Some(JsonText.TextToJson("a\nb\nc\n"))
    ensures Run(TextToJson, "notes.txt", "notes.json", env)
            == Written("notes.json", JsonDocument(JsonText.TextToJson("a\nb\nc\n")))
    ensures Run(JsonToText, "notes.json", "notes.txt", env') == Written("notes.txt", TextDocument("a\nb\nc"))
  {
    NotesToJson(env);
    NotesBack(env');
  }

  lemma NotesToJson(env: Environment)
    requires env.text == Some("a\nb\nc\n") && env.othersOk
    ensures Run(TextToJson, "notes.txt", "notes.json", env)
            == Written("notes.json", JsonDocument(JsonText.TextToJson("a\nb\nc\n")))
  {
    NotesPrecheck();
  }

  lemma NotesBack(env': Environment)
    requires env'.othersOk && env'.json == Some(JsonText.TextToJson("a\nb\nc\n"))
    ensures Run(JsonToText, "notes.json", "notes.txt", env') == Written("notes.txt", TextDocument("a\nb\nc"))
  {
    NotesPrecheck();
    JsonText.ThreeLineScenarioWithFinalNewline();
  }

  /** Both calls of the scenario pass validation. */
  lemma NotesPrecheck()
    ensures Precheck(TextToJson, "notes.txt", "notes.json") == None
    ensures Precheck(JsonToText, "notes.json", "notes.txt") == None
  {
    NoteExtensions();
    NotesTxtExtension();
  }

  lemma NotesTxtExtension()
    ensures Lower(PosixPath.Extension("notes.txt")) == ".txt"
  {
    assert PosixPath.HasNonDot("notes") by { assert "notes"[0] != PosixPath.ExtSep; }
    assert "notes.txt" == "notes" + ".txt";
    LowerExtensionOfPlainName("notes", ".txt");
  }

  /** `data.get` runs before the destination is opened for writing, and the
      join after it, so a `"lines"` value that fails to join, once the open
      has succeeded, leaves an empty destination behind: the outcome is
      flagged `emptied` exactly then. A failed open leaves nothing behind,
      whatever the join would have done. A write that fails after the open
      also leaves the file empty, but falls under the single `LibraryFailed`
      cause, which is not flagged. */
  lemma JsonToTextEmptiesOnJoinFailure(source: string, target: string, env: Environment)
    requires Precheck(JsonToText, source, target).None? && env.json.Some?
    ensures Run(JsonToText, source, target, env).Reported?
            && Run(JsonToText, source, target, env).emptied
            <==> env.json.value.JObject? && env.othersOk && JsonText.JsonToText(env.json.value).Failure?
    ensures !env.json.value.JObject? ==> Run(JsonToText, source, target, env) == Reported(BadLines(JsonText.NoGetMethod), false)
  {
  }

  /** A document `{"lines": 5}` whose destination cannot be opened: the
      failed open is reported, and no file is left behind, although the
      join would have failed too. */
  lemma FailedOpenLeavesNothing(source: string, target: string, env: Environment)
    requires Precheck(JsonToText, source, target).None? && !env.othersOk
    requires env.json == Some(JsonText.JObject([(JsonText.LinesKey, JsonText.JNumber(5))]))
    ensures Run(JsonToText, source, target, env) == Reported(LibraryFailed, false)
  {
  }

  /** A PDF whose text was extracted is written as HTML, once validation and
      the write succeed; that HTML has one `<p>` per page and reads back as
      the page texts, when no page text holds a `<`. */
  lemma PdfToHtmlWritesEveryPage(source: string, target: string, env: Environment)
    requires Precheck(PdfToHtml, source, target).None? && env.othersOk
    requires env.pdfText.Some? && PdfHtml.NoMarkupInText(env.pdfText.value)
    ensures Run(PdfToHtml, source, target, env).Written?
    ensures PdfHtml.CountOpeners(Run(PdfToHtml, source, target, env).artifact.html)
            == |env.pdfText.value|
    ensures PdfHtml.ParseHtml(Run(PdfToHtml, source, target, env).artifact.html)
            == Some(PdfHtml.PageTexts(env.pdfText.value))
  {
    PdfHtml.RenderHtmlOpenerCount(env.pdfText.value);
    PdfHtml.RenderHtmlReadsBack(env.pdfText.value);
  }

  /** The page exports write one image per page into the folder, under
      distinct names. */
  lemma PageExportDistinct(op: Operation, source: string, folder: string, env: Environment)
    requires op == PdfToJpg || op == PdfToPng
    requires Precheck(op, source, folder).None? && env.othersOk && env.pageCount.Some?
    ensures Run(op, source, folder, env).Written? && Run(op, source, folder, env).artifact.PageImages?
    ensures |Run(op, source, folder, env).artifact.paths| == env.pageCount.value
    ensures forall i, j :: 0 <= i < j < |Run(op, source, folder, env).artifact.paths| ==>
              Run(op, source, folder, env).artifact.paths[i] != Run(op, source, folder, env).artifact.paths[j]
  {
    var format := if op == PdfToJpg then PageNames.Jpg else PageNames.Png;
    PageNames.PagePathsNumberedAndDistinct(folder, env.pageCount.value, format);
  }

  /** `ppt_to_pdf` moves its output exactly when the destination's last
      component is not the input's stem with `.pdf` (for a destination
      without a doubled separator). */
  lemma PptToPdfMovesIff(source: string, target: string, env: Environment)
    requires Precheck(PptToPdf, source, target).None? && env.othersOk
    requires PosixPath.NoDoubleSep(target)
    ensures Run(PptToPdf, source, target, env).Written?
    ensures Run(PptToPdf, source, target, env).artifact.movedFrom.None?
            <==> PptPath.ConvertedName(source) == PosixPath.Basename(target)
  {
    PptToPdfIsExport(source, target, env);
  }

  lemma PptToPdfIsExport(source: string, target: string, env: Environment)
    requires Precheck(PptToPdf, source, target).None?
    ensures Run(PptToPdf, source, target, env) == PptExport(source, target, env)
  {
  }

  /** An empty PDF cannot be turned into a GIF. */
  lemma PdfToGifNeedsAPage(source: string, target: string, env: Environment)
    requires Precheck(PdfToGif, source, target).None? && env.pageCount == Some(0)
    ensures Run(PdfToGif, source, target, env) == Reported(NoPages, false)
  {
  }
}
