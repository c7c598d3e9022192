/** The console front end of `FileConverter.main`: every answer is cleaned
    with `strip()`, then `strip('"')`, then `strip("'")`; the cleaned choice
    `0` exits, the keys `1` to `15` pick an operation, and anything else is
    reported as invalid. Keys `10` and `13` ask for an output folder (which
    is created first) instead of a destination path. */
module Menu {
  import opened Common
  import opened Operations

  /** The characters Python's `str.strip()` removes by default: those for
      which `str.isspace()` holds. */
  const PythonWhitespace: set<char> := {
    '\t', '\n', '\U{0B}', '\U{0C}', '\r', '\U{1C}', '\U{1D}', '\U{1E}', '\U{1F}', ' ',
    '\U{85}', '\U{A0}', '\U{1680}',
    '\U{2000}', '\U{2001}', '\U{2002}', '\U{2003}', '\U{2004}', '\U{2005}',
    '\U{2006}', '\U{2007}', '\U{2008}', '\U{2009}', '\U{200A}',
    '\U{2028}', '\U{2029}', '\U{202F}', '\U{205F}', '\U{3000}'
  }

  const DoubleQuote: char := '"'
  const SingleQuote: char := '\''

  /** `s.strip().strip('"').strip("'")`. */
  function Clean(s: string): string {
    Strip(Strip(Strip(s, PythonWhitespace), {DoubleQuote}), {SingleQuote})
  }

  predicate AllDigits(s: string) {
    forall i :: 0 <= i < |s| ==> '0' <= s[i] <= '9'
  }

  /** The key of every operation in the `options` dictionary: one or two
      decimal digits, never the exit key (see `KeyShape`). */
  function Key(op: Operation): string {
    match op
    case CsvToExcel => "1"
    case ExcelToCsv => "2"
    case TextToJson => "3"
    case JsonToText => "4"
    case TextToCsv => "5"
    case HtmlToPdf => "6"
    case PdfToHtml => "7"
    case PdfToPpt => "8"
    case PptToPdf => "9"
    case PdfToJpg => "10"
    case JpgToPdf => "11"
    case PngToPdf => "12"
    case PdfToPng => "13"
    case GifToPdf => "14"
    case PdfToGif => "15"
  }

  /** `options[choice]`, if `choice in options`. */
  function OptionFor(key: string): (r: Option<Operation>)
    ensures r.Some? ==> Key(r.value) == key
    ensures r.None? ==> forall op :: Key(op) != key
  {
    if key == "1" then Some(CsvToExcel)
    else if key == "2" then Some(ExcelToCsv)
    else if key == "3" then Some(TextToJson)
    else if key == "4" then Some(JsonToText)
    else if key == "5" then Some(TextToCsv)
    else if key == "6" then Some(HtmlToPdf)
    else if key == "7" then Some(PdfToHtml)
    else if key == "8" then Some(PdfToPpt)
    else if key == "9" then Some(PptToPdf)
    else if key == "10" then Some(PdfToJpg)
    else if key == "11" then Some(JpgToPdf)
    else if key == "12" then Some(PngToPdf)
    else if key == "13" then Some(PdfToPng)
    else if key == "14" then Some(GifToPdf)
    else if key == "15" then Some(PdfToGif)
    else None
  }

  const ExitKey: string := "0"

  /** The keys whose operation is asked for an output folder. */
  const FolderKeys: seq<string> := ["10", "13"]

  datatype Choice = Exit | Dispatch(op: Operation, toFolder: bool) | Invalid

  /** What one cleaned answer to `Choice: ` selects. */
  function ParseChoice(line: string): (r: Choice)
    ensures r == Exit <==> Clean(line) == ExitKey
    ensures r.Dispatch? ==> Key(r.op) == Clean(line) && (r.toFolder <==> WritesToFolder(r.op))
    ensures r == Invalid <==> Clean(line) != ExitKey && forall op :: Key(op) != Clean(line)
  {
    var key := Clean(line);
    if key == ExitKey then Exit
    else
      match OptionFor(key)
      case Some(op) =>
        FolderKeysAreFolderOutputs(op);
        Dispatch(op, key in FolderKeys)
      case None => Invalid
  }

  /** The call one round of the menu makes: the operation, the cleaned
      source and destination (or folder), and whether the folder is
      created before the call. */
  datatype Request = Request(op: Operation, source: string, target: string, makeFolder: bool)

  datatype Step = Quit | Rejected | Call(request: Request)

  /** One round of the menu loop, given the three answers it reads (the
      last two are only read after a valid choice). */
  function MenuStep(choiceLine: string, sourceLine: string, targetLine: string): (r: Step)
    ensures r == Quit <==> Clean(choiceLine) == ExitKey
    ensures r == Rejected <==> ParseChoice(choiceLine) == Invalid
    ensures r.Call? ==> Key(r.request.op) == Clean(choiceLine)
                        && r.request.source == Clean(sourceLine)
                        && r.request.target == Clean(targetLine)
                        && (r.request.makeFolder <==> WritesToFolder(r.request.op))
  {
    match ParseChoice(choiceLine)
    case Exit => Quit
    case Invalid => Rejected
    case Dispatch(op, toFolder) => Call(Request(op, Clean(sourceLine), Clean(targetLine), toFolder))
  }

  /** The keys the menu asks an output folder for are exactly those of the
      operations that validate no destination. */
  lemma FolderKeysAreFolderOutputs(op: Operation)
    ensures Key(op) in FolderKeys <==> WritesToFolder(op)
  {
  }

  /** Every operation has exactly one key, and that key selects it. */
  lemma KeysSelectOperations(op: Operation, key: string)
    ensures OptionFor(Key(op)) == Some(op)
    ensures OptionFor(key) == Some(op) <==> key == Key(op)
  {
  }

  /** Stripping a set of characters off `a + m + b` leaves `m` when `a` and
      `b` consist of those characters and `m` neither starts nor ends with
      one. */
  lemma StripExact(s: string, a: string, m: string, b: string, cs: set<char>)
    requires s == a + m + b
    requires forall i :: 0 <= i < |a| ==> a[i] in cs
    requires forall i :: 0 <= i < |b| ==> b[i] in cs
    requires m == [] || (m[0] !in cs && m[|m| - 1] !in cs)
    ensures Strip(s, cs) == m
  {
    var r := Strip(s, cs);
    var off := StripOffset(s, cs);
    assert forall i :: 0 <= i < |a| ==> s[i] == a[i];
    assert forall i :: 0 <= i < |m| ==> s[|a| + i] == m[i];
    assert forall i :: 0 <= i < |b| ==> s[|a| + |m| + i] == b[i];
    if m == [] {
      assert forall i :: 0 <= i < |s| ==> s[i] in cs;
      assert |r| == 0;
    } else {
      assert s[|a|] !in cs;
      assert s[|a| + |m| - 1] !in cs;
      assert off <= |a|;
      assert off >= |a|;
      assert off + |r| >= |a| + |m|;
      assert off + |r| <= |a| + |m|;
    }
  }

  /** A path pasted between double quotes, with spaces around, is read back
      as the bare path; spaces inside the quotes are kept. */
  lemma CleanQuotedPath(lead: string, p: string, trail: string)
    requires forall i :: 0 <= i < |lead| ==> lead[i] in PythonWhitespace
    requires forall i :: 0 <= i < |trail| ==> trail[i] in PythonWhitespace
    requires p == [] || (p[0] !in {DoubleQuote, SingleQuote} && p[|p| - 1] !in {DoubleQuote, SingleQuote})
    ensures Clean(lead + [DoubleQuote] + p + [DoubleQuote] + trail) == p
  {
    CleanWrapped(lead + [DoubleQuote] + p + [DoubleQuote] + trail, lead, p, trail);
  }

  lemma CleanWrapped(s: string, lead: string, p: string, trail: string)
    requires s == lead + [DoubleQuote] + p + [DoubleQuote] + trail
    requires forall i :: 0 <= i < |lead| ==> lead[i] in PythonWhitespace
    requires forall i :: 0 <= i < |trail| ==> trail[i] in PythonWhitespace
    requires p == [] || (p[0] !in {DoubleQuote, SingleQuote} && p[|p| - 1] !in {DoubleQuote, SingleQuote})
    ensures Clean(s) == p
  {
    var quoted := [DoubleQuote] + p + [DoubleQuote];
    StripSpacesAroundQuotes(s, lead, quoted, trail);
    StripQuotes(p);
  }

  lemma StripSpacesAroundQuotes(s: string, lead: string, quoted: string, trail: string)
    requires s == lead + quoted + trail && |quoted| >= 2
    requires quoted[0] == DoubleQuote && quoted[|quoted| - 1] == DoubleQuote
    requires forall i :: 0 <= i < |lead| ==> lead[i] in PythonWhitespace
    requires forall i :: 0 <= i < |trail| ==> trail[i] in PythonWhitespace
    ensures Strip(s, PythonWhitespace) == quoted
  {
    assert DoubleQuote !in PythonWhitespace;
    StripExact(s, lead, quoted, trail, PythonWhitespace);
  }

  /** The double quotes come off, and a text between them that neither
      starts nor ends with a quote is left for the last strip unchanged. */
  lemma StripQuotes(p: string)
    requires p == [] || (p[0] !in {DoubleQuote, SingleQuote} && p[|p| - 1] !in {DoubleQuote, SingleQuote})
    ensures Strip(Strip([DoubleQuote] + p + [DoubleQuote], {DoubleQuote}), {SingleQuote}) == p
  {
    StripExact([DoubleQuote] + p + [DoubleQuote], [DoubleQuote], p, [DoubleQuote], {DoubleQuote});
    assert p == [] + p + [];
    StripExact(p, [], p, [], {SingleQuote});
  }

  lemma CleanQuoted(p: string)
    requires p == [] || (p[0] !in {DoubleQuote, SingleQuote} && p[|p| - 1] !in {DoubleQuote, SingleQuote})
    ensures Clean([DoubleQuote] + p + [DoubleQuote]) == p
  {
    CleanWrapped([DoubleQuote] + p + [DoubleQuote], [], p, []);
  }

  /** Cleaning never lengthens an answer, and its last strip leaves no
      single quote at either end. */
  lemma CleanShortens(s: string)
    ensures |Clean(s)| <= |s|
    ensures Clean(s) == [] || (Clean(s)[0] != SingleQuote && Clean(s)[|Clean(s)| - 1] != SingleQuote)
  {
    var a := Strip(s, PythonWhitespace);
    var b := Strip(a, {DoubleQuote});
    var r := Strip(b, {SingleQuote});
    assert Clean(s) == r;
    assert r == [] || (r[0] !in {SingleQuote} && r[|r| - 1] !in {SingleQuote});
  }

  /** An answer with nothing to strip is taken as it is. */
  lemma CleanKeepsPlainAnswer(s: string)
    requires s == [] || (s[0] !in PythonWhitespace + {DoubleQuote, SingleQuote}
                         && s[|s| - 1] !in PythonWhitespace + {DoubleQuote, SingleQuote})
    ensures Clean(s) == s
  {
    assert s == [] + s + [];
    StripExact(s, [], s, [], PythonWhitespace);
    StripExact(s, [], s, [], {DoubleQuote});
    StripExact(s, [], s, [], {SingleQuote});
  }

  /** The three strips run once each, in order, so cleaning is not
      idempotent: `'"x"'` loses its single quotes and keeps the double ones,
      which only a second cleaning removes. */
  lemma CleanNotIdempotent(x: string)
    requires x == [] || (x[0] !in {DoubleQuote, SingleQuote} && x[|x| - 1] !in {DoubleQuote, SingleQuote})
    ensures Clean([SingleQuote, DoubleQuote] + x + [DoubleQuote, SingleQuote]) == [DoubleQuote] + x + [DoubleQuote]
    ensures Clean(Clean([SingleQuote, DoubleQuote] + x + [DoubleQuote, SingleQuote])) == x
  {
    CleanSingleQuoted([SingleQuote, DoubleQuote] + x + [DoubleQuote, SingleQuote], x);
    CleanQuoted(x);
  }

  lemma CleanSingleQuoted(s: string, x: string)
    requires s == [SingleQuote, DoubleQuote] + x + [DoubleQuote, SingleQuote]
    ensures Clean(s) == [DoubleQuote] + x + [DoubleQuote]
  {
    var inner := [DoubleQuote] + x + [DoubleQuote];
    assert s == [SingleQuote] + inner + [SingleQuote];
    assert s[0] == SingleQuote && s[|s| - 1] == SingleQuote;
    KeepsEnds(s);
    assert Strip(Strip(s, PythonWhitespace), {DoubleQuote}) == s;
    StripExact(s, [SingleQuote], inner, [SingleQuote], {SingleQuote});
  }

  /** A text that starts and ends with a single quote goes through the
      first two strips unchanged. */
  lemma KeepsEnds(s: string)
    requires |s| > 0 && s[0] == SingleQuote && s[|s| - 1] == SingleQuote
    ensures Strip(s, PythonWhitespace) == s
    ensures Strip(s, {DoubleQuote}) == s
  {
    assert s == [] + s + [];
    assert SingleQuote !in PythonWhitespace;
    StripExact(s, [], s, [], PythonWhitespace);
    StripExact(s, [], s, [], {DoubleQuote});
  }

  /** Every key is one or two decimal digits, and no key is the exit key. */
  lemma KeyShape(op: Operation)
    ensures 0 < |Key(op)| <= 2 && AllDigits(Key(op)) && Key(op) != ExitKey
  {
  }

  /** No key starts or ends with a character cleaning strips. */
  lemma KeyIsPlain(op: Operation)
    ensures |Key(op)| > 0
    ensures Key(op)[0] !in PythonWhitespace + {DoubleQuote, SingleQuote}
    ensures Key(op)[|Key(op)| - 1] !in PythonWhitespace + {DoubleQuote, SingleQuote}
  {
    var k := Key(op);
    KeyShape(op);
    DigitIsPlain(k[0]);
    DigitIsPlain(k[|k| - 1]);
  }

  lemma DigitIsPlain(c: char)
    requires '0' <= c <= '9'
    ensures c !in PythonWhitespace + {DoubleQuote, SingleQuote}
  {
  }

  /** Quotes and surrounding spaces do not change the choice: a quoted key
      picks its operation, and only keys `10` and `13` go to a folder. */
  lemma QuotedKeySelects(lead: string, op: Operation, trail: string)
    requires forall i :: 0 <= i < |lead| ==> lead[i] in PythonWhitespace
    requires forall i :: 0 <= i < |trail| ==> trail[i] in PythonWhitespace
    ensures ParseChoice(lead + [DoubleQuote] + Key(op) + [DoubleQuote] + trail)
            == Dispatch(op, WritesToFolder(op))
  {
    KeyIsPlain(op);
    CleanQuotedPath(lead, Key(op), trail);
    KeySelects(op);
  }

  /** Any answer that cleans to an operation's key dispatches it. */
  lemma KeySelects(op: Operation)
    ensures forall line :: Clean(line) == Key(op) ==> ParseChoice(line) == Dispatch(op, WritesToFolder(op))
  {
    KeysSelectOperations(op, Key(op));
  }

  /** Spaces inside the quotes are kept, so a key written as `" 10 "` is
      not recognised. */
  lemma SpacedKeyInvalid(op: Operation)
    ensures ParseChoice([DoubleQuote] + " " + Key(op) + " " + [DoubleQuote]) == Invalid
  {
    var spaced := " " + Key(op) + " ";
    assert [DoubleQuote] + " " + Key(op) + " " + [DoubleQuote] == [DoubleQuote] + spaced + [DoubleQuote];
    assert spaced[0] == ' ' && spaced[|spaced| - 1] == ' ';
    CleanQuoted(spaced);
    NoKeyStartsWithSpace(spaced);
  }

  lemma NoKeyStartsWithSpace(k: string)
    requires |k| > 0 && k[0] == ' '
    ensures k != ExitKey && forall op :: Key(op) != k
  {
    forall op | Key(op) == k
      ensures false
    {
      KeyShape(op);
    }
  }
}
