# File converter core, modelled in Dafny

`File_convertor.py` defines `FileConverter`. It has fifteen static conversion
operations and an interactive `main` menu. The conversions themselves are done
by libraries: pandas, fpdf, PyPDF2, pdf2image, Pillow, python-pptx and a
`libreoffice` subprocess. This project models the logic the file owns around
those calls:

- the extension check `_validate_extension`, and the accepted-extension table
  of every operation;
- the line handling of `text_to_json`, `json_to_text` and `text_to_csv`;
- the HTML that `pdf_to_html` assembles from the page texts;
- the `page_<n>.<ext>` names of the page exports;
- the `--outdir` folder and the move decision of `ppt_to_pdf`;
- the cleaning of the menu's answers and the dispatch on the cleaned choice;
- one call of an operation: validation, which raises out of the call, then the
  body, whose failures are caught and reported.

Files (one module each):

- `common.dfy` holds `Option`, `Result`, `find` and `rfind`, ASCII `lower()`,
  `strip` and `str.join`.
- `posix_path.dfy` holds `basename`, `dirname`, `join` and `splitext` as
  `posixpath` defines them.
- `extensions.dfy` holds `_validate_extension`.
- `operations.dfy` holds the fifteen operations and their input and output
  rules.
- `lines.dfy` holds file iteration, `rstrip('\n')` and `"\n".join`.
- `json_text.dfy` holds the JSON and CSV documents.
- `pdf_html.dfy` holds the HTML assembly.
- `page_names.dfy` holds the page file names.
- `ppt_path.dfy` holds the paths around the LibreOffice call.
- `menu.dfy` holds the console front end.
- `converter.dfy` holds one whole call of an operation.

The model treats the outside world as inputs (`Converter.Environment`):

- the decoded text of the input file;
- the parsed JSON document;
- the text each PDF page yields;
- the number of pages `convert_from_path` renders;
- a flag saying whether every other library call and write succeeds.

The validation error is the only error that leaves an operation
(`Outcome.Raised`). Every failure inside a `try` block becomes
`Outcome.Reported`.

## Model

| member | source | states |
|---|---|---|
| PosixPath.SplitExt | File_convertor.py:17 | The stem and the extension concatenate to the path. The extension is empty, or it is a dot followed by neither dots nor separators, and it lies in the last component. |
| PosixPath.ExtensionOfLastComponent | File_convertor.py:17 | The extension is the last component's suffix from its last dot when a character other than a dot precedes that dot, and empty otherwise. |
| PosixPath.ExtensionOfLower | File_convertor.py:17 | Taking the extension commutes with lower-casing, so `splitext(p)[1].lower()` is the extension of the lower-cased path. |
| PosixPath.Basename | File_convertor.py:144 | `basename` is the part of the path after its last separator: a suffix of the path with no separator, preceded by a separator when it is shorter than the path. |
| PosixPath.Dirname | File_convertor.py:141-143 | `dirname` is a prefix of the path, empty exactly when the path has no separator. Only separators lie between it and the last separator, so the run of separators before the last component is dropped. It ends in a separator only when it is all separators, as the root `/` is. When everything up to the last separator is separators, that whole head is kept. |
| PosixPath.DirnameCharacterised | File_convertor.py:141-143 | The properties promised by `Dirname` determine its result: any prefix that has them is `dirname` of the path. |
| PosixPath.DirnameKeepsDoubleRoot | File_convertor.py:143 | `dirname` of `//x` is `//`: a head made only of separators is not shortened to `/`. |
| PosixPath.JoinPath | File_convertor.py:143-144 | `join` returns a component that starts with a separator as it is. Otherwise the result is the folder, then one separator only when the folder is non-empty and does not already end in one, then the component. |
| PosixPath.BasenameOfJoin | File_convertor.py:143-144 | Joining any folder with a single component and taking the `basename` gives the component back. |
| PosixPath.DirnameOfJoin | File_convertor.py:143 | Joining a folder that does not end in a separator with a single component and taking the `dirname` gives the folder back. |
| PosixPath.DirnameDropsTrailingSeps | File_convertor.py:143 | Any run of separators between a folder and the last component is dropped by `dirname`. |
| PosixPath.JoinDirnameBasename | File_convertor.py:143-145 | For a path without a doubled separator, joining its `dirname` and `basename` gives the path back. |
| Extensions.Validate | File_convertor.py:15-19 | The check passes exactly when the lower-cased extension is in the accepted list. On failure, the error names the offending (lower-cased) extension, the role label and the accepted list, and that extension is not in the list. A pass returns nothing (`None`), as the source's check returns nothing. |
| Extensions.CsvScenarios | File_convertor.py:15-19 | `Data.CSV` passes `[".csv"]`. `data` is rejected, with the empty extension in the error. |
| Extensions.ExtensionIsIffEndsWith | File_convertor.py:17 | For a table-shaped entry `e`, `splitext` yields `e` exactly when the path ends with `e` and a non-dot character precedes it in the last component. |
| Extensions.AcceptedIffEndsWithListed | File_convertor.py:15-19 | Validation passes exactly when the lower-cased path ends, in that sense, with one of the accepted extensions. |
| Extensions.NoExtensionRejected | File_convertor.py:17-19 | A path without an extension (such as `.bashrc` or `dir.d/file`) is always rejected, with the empty extension in the error. |
| Extensions.ValidateIgnoresCase | File_convertor.py:17 | Validating a path and validating its lower-cased form give the same result. |
| Operations.TablesWellFormed | File_convertor.py:23-210 | Every entry of every input and output table is a dot followed by a plain suffix. |
| Operations.Precheck | File_convertor.py:23-210 | The validation phase of any operation passes exactly when the input extension is accepted and, unless the operation writes into a folder, so is the output extension. An invalid input is reported ahead of an invalid output. Once the input passes, an operation with a destination check has exactly that check's outcome, with the output role. |
| Operations.PrecheckIffEndsWithListed | File_convertor.py:23-210 | The validation phase passes exactly when each checked lower-cased path ends with one of its listed extensions. |
| Operations.TextSuffixAcceptedOnlyByTextToJson | File_convertor.py:45-73 | `.text` is accepted as the input of text to JSON. It is rejected, with the exact error, as the input of text to CSV and as the output of JSON to text. |
| Lines.ReadLinesShape | File_convertor.py:48-49 | File iteration yields non-empty lines. Each has no newline before its last character, and every line but the last ends with one. |
| Lines.ReadLinesConcat | File_convertor.py:48-49 | The lines yielded by iteration, joined with `""`, give back the whole content. |
| Lines.TrimLine | File_convertor.py:49 | `rstrip('\n')` on such a line removes at most its final newline. |
| Lines.SplitLines | File_convertor.py:49 | `[line.rstrip('\n') for line in f]` has one entry per line that iteration yields, none holding a newline. It is empty exactly for an empty file. |
| Lines.JoinSplit | File_convertor.py:49-66 | `"\n".join` of the split lines is the content minus one final newline. |
| Lines.SplitJoin | File_convertor.py:49-66 | Splitting the join of a list without newlines, whose last line is not empty, gives the list back. |
| Lines.SplitJoinIff | File_convertor.py:49-66 | Splitting a join gives the list back exactly when no line holds a newline and the list is empty or ends in a non-empty line. |
| Lines.FirstNewlineOfJoin | File_convertor.py:66 | In the join of two or more lines, the first newline sits just after the first line, which is the text before it; the join of the other lines follows it. |
| JsonText.Lookup | File_convertor.py:64 | `dict.get` finds nothing exactly when no member has the key, and otherwise returns the value of a member with that key. |
| JsonText.TextToJson | File_convertor.py:49-50 | The dumped object has a `"lines"` member holding an array with one string per line of the file, none of which holds a newline. |
| JsonText.Iterate | File_convertor.py:66 | `for x in v` works exactly on arrays, strings and objects. An array yields its own items, a string yields its characters in order, each as a one-character string, and an object yields its keys in order. |
| JsonText.JsonToText | File_convertor.py:64-66 | The join fails with the missing-`get` error exactly when the document is not an object. An object without `"lines"` yields the empty text. The not-iterable error arises only from a `"lines"` value that cannot be iterated. |
| JsonText.TextToCsv | File_convertor.py:77-78 | The table has the single column `lines`, and one row per line of the file. Each row is a single cell without a newline. |
| JsonText.AsStrings | File_convertor.py:66 | The items pass as strings exactly when every item is a string, and then the returned strings are the items' contents, in order. |
| JsonText.TextJsonTextRoundTrip | File_convertor.py:48-66 | Text to JSON and then JSON to text gives the content back, minus one final newline. |
| JsonText.JsonTextJsonRoundTrip | File_convertor.py:49-66 | A `{"lines": L}` document converts to the text `"\n".join(L)`. Converting that text back gives the same document exactly when `L` has no newline in any line and does not end in an empty line. |
| JsonText.MissingLinesWritesEmpty | File_convertor.py:64-66 | An object without a `"lines"` key writes an empty text. |
| JsonText.JsonToTextSucceedsIff | File_convertor.py:63-66 | The join succeeds exactly when the document is an object and `"lines"` is missing, a string, an object, or an array of strings. |
| JsonText.StringLinesAreSplitIntoCharacters | File_convertor.py:64-66 | A string value of `"lines"` is iterated character by character: `"ab"` is written as `a`, newline, `b`. |
| JsonText.TextToCsvKeepsLines | File_convertor.py:76-79 | The CSV table has one single-cell row per line. Its column joined with newlines is the content minus one final newline. |
| JsonText.ThreeLineScenario | File_convertor.py:48-49 | The text `a\nb\nc` is read as the lines `a`, `b`, `c`. |
| JsonText.ThreeLineScenarioWithFinalNewline | File_convertor.py:48-66 | `a\nb\nc\n` converted to JSON and back is `a\nb\nc`, with no final newline. |
| PdfHtml.BreakLines | File_convertor.py:110 | The replacement leaves no newline, and it leaves text without newlines unchanged. |
| PdfHtml.BreakLinesConcat | File_convertor.py:110 | The newline replacement works character by character: it distributes over concatenation. |
| PdfHtml.BreakLinesNotInjective | File_convertor.py:110 | Text that already holds `<br>` is indistinguishable from text with a newline there. |
| PdfHtml.RenderHtml | File_convertor.py:107-111 | The document holds no newline. It starts with `<html><body>` and ends with `</body></html>`. |
| PdfHtml.RenderHtmlReadsBack | File_convertor.py:107-111 | When no page text holds `<`, the written HTML parses back into exactly the page texts, one per page, with a page without text giving the empty string. |
| PdfHtml.RenderHtmlOpenerCount | File_convertor.py:107-111 | When no page text holds `<`, the document has exactly one `<p>` per page. |
| PdfHtml.MarkupInTextAddsOpeners | File_convertor.py:109-110 | Page text is not escaped: one page whose text is `<p>` yields a document with two `<p>`. |
| PageNames.DecimalRoundTrip | File_convertor.py:157 | The decimal rendering of a page number reads back as that number. |
| PageNames.ParsePageNameInverse | File_convertor.py:156-157 | The name of page index `i` is `page_<i+1>` with the format's suffix, and it parses back to `i + 1`. |
| PageNames.PageName | File_convertor.py:157 | A page name is a single path component. It starts with `page_` and ends with a dot and the format's suffix. |
| PageNames.PagePaths | File_convertor.py:189-190 | There is one output path per rendered page. |
| PageNames.PagePathsNumberedAndDistinct | File_convertor.py:156-157 | Page `i` is saved with last component `page_<i+1>`, numbered from 1. For a non-empty folder that does not end in a separator, `dirname` of every page path is that folder. All page paths are distinct. |
| PptPath.OutDir | File_convertor.py:141 | The `--outdir` argument is never empty. It is the destination's folder, or `.` when the destination has none. |
| PptPath.ConvertCommand | File_convertor.py:139-142 | The command runs `libreoffice`, with the input as its last argument and a non-empty folder after `--outdir`. |
| PptPath.ConvertedPathInOutDir | File_convertor.py:139-144 | When the destination has a folder, the path the move starts from is the converted name joined to the `--outdir` argument. When it has none, `--outdir` is `.` and the path is the bare converted name. |
| PptPath.ConvertedName | File_convertor.py:144 | The converted name is the stem of the input's last component followed by `.pdf`. It is a single component. |
| PptPath.ConvertedNameOfPlainName | File_convertor.py:143-144 | Any folder plus `<name><ext>` converts to `<name>.pdf`. |
| PptPath.ConvertedPath | File_convertor.py:143-144 | The last component of the path the move starts from is the converted name. |
| PptPath.NeedsMove | File_convertor.py:145-146 | When no move happens, the destination's last component is the converted name. |
| PptPath.ConvertedPathParts | File_convertor.py:143-144 | The converted file is looked for in the destination's folder, under the converted name. |
| PptPath.NoMoveIffSameName | File_convertor.py:143-146 | For a destination without a doubled separator, the file is not moved exactly when the destination's last component is the converted name. |
| PptPath.SameNameStays | File_convertor.py:143-146 | A destination `<dir>/<converted name>` is left in place. |
| PptPath.DoubledSeparatorStillMoves | File_convertor.py:143-146 | The comparison is on strings: `<dir>//<converted name>` triggers a move onto the same file. |
| Common.Strip | File_convertor.py:242 | `strip(chars)` removes the longest prefix and suffix of stripped characters and keeps the middle intact. |
| Common.StripIdempotent | File_convertor.py:242 | Stripping the same characters twice equals stripping once. |
| Menu.OptionFor | File_convertor.py:220-236 | A key found in the options table is that operation's key. A key not found belongs to no operation. |
| Menu.KeyShape | File_convertor.py:220-236 | Every key is one or two decimal digits and differs from the exit key `0`. |
| Menu.CleanShortens | File_convertor.py:242 | Cleaning never lengthens an answer, and it leaves no single quote at either end. |
| Menu.KeysSelectOperations | File_convertor.py:220-236 | Each operation is selected by its key, and only by its key. |
| Menu.ParseChoice | File_convertor.py:242-256 | The cleaned choice `0` exits. A cleaned key dispatches its operation, asking for a folder exactly when the operation writes into one. Anything else is invalid. |
| Menu.MenuStep | File_convertor.py:242-254 | The loop quits on `0`, rejects invalid choices, and otherwise calls the chosen operation with the cleaned source and destination answers. The folder is created exactly for the folder exports. |
| Menu.FolderKeysAreFolderOutputs | File_convertor.py:248 | Keys `10` and `13` are exactly the operations that validate no destination. |
| Menu.CleanQuotedPath | File_convertor.py:247 | A path pasted in double quotes, with whitespace around them, is read as the bare path. |
| Menu.CleanKeepsPlainAnswer | File_convertor.py:242 | An answer with no whitespace or quote at its ends is taken unchanged. |
| Menu.CleanNotIdempotent | File_convertor.py:242 | The three strips run once each, in order. `'"x"'` cleans to `"x"`, and only a second cleaning gives `x`. |
| Menu.QuotedKeySelects | File_convertor.py:242-246 | A key in double quotes with whitespace outside them selects its operation. |
| Menu.SpacedKeyInvalid | File_convertor.py:242-256 | Whitespace inside the quotes is not stripped, so `" 3 "` in double quotes is an invalid choice. |
| Converter.Body | File_convertor.py:25-216 | The body of a `try` block never raises. It writes only to the given destination or folder, and only when the library calls and writes succeed. |
| Converter.PageExport | File_convertor.py:155-157 | The folder is created before the PDF is rendered: a failing library step is reported as such whatever the PDF, and an unreadable PDF is reported only once that step succeeded. A page export writes one image per rendered page. |
| Converter.PptExport | File_convertor.py:138-146 | `ppt_to_pdf` writes a PDF at the destination exactly when the subprocess and the move succeed. For a destination without a doubled separator, a move is recorded exactly when the destination's last component differs from the converted name (`stem + ".pdf"`), and it starts from the converted path. |
| Converter.Run | File_convertor.py:22-30 | A call raises exactly when validation fails, and with validation's error. Otherwise it reports or writes the requested destination. |
| Converter.RaisedIgnoresEnvironment | File_convertor.py:23-24 | An invalid extension on either checked side raises whatever the files and libraries would have done. |
| Converter.TextToJsonToText | File_convertor.py:44-66 | The JSON that text to JSON writes for a file's content, loaded and converted back, is written exactly when the extensions pass. What is written is that content minus one final newline. |
| Converter.NotesRoundTrip | File_convertor.py:44-66 | `notes.txt` holding `a\nb\nc\n` converts to `notes.json`, and back to `notes.txt` as `a\nb\nc`. |
| Converter.JsonToTextEmptiesOnJoinFailure | File_convertor.py:61-69 | `get` runs before the destination is opened and the join after. A non-object fails at `get` with nothing opened. The outcome is flagged as leaving an emptied destination exactly when the document is an object, the destination opened, and its `"lines"` value cannot be joined. |
| Converter.FailedOpenLeavesNothing | File_convertor.py:63-66 | When the destination cannot be opened, `{"lines": 5}` fails at the open, before the join: the library failure is reported and nothing is emptied. |
| Converter.PdfToHtmlWritesEveryPage | File_convertor.py:104-111 | A PDF whose text was extracted is written as HTML once validation and the write succeed. When no page text holds `<`, that HTML has one paragraph per page and reads back as the page texts. |
| Converter.PageExportDistinct | File_convertor.py:152-157 | Once validation passes, the folder is made and the PDF renders, a page export is written with one image per page, under distinct paths. |
| Converter.PptToPdfMovesIff | File_convertor.py:138-146 | Once validation and the conversion succeed, the PDF is written. For a destination without a doubled separator, it is moved exactly when the destination's last component differs from the converted name. |
| Converter.PdfToGifNeedsAPage | File_convertor.py:212-213 | A PDF that renders no page is reported: `frames[0]` fails, and nothing is written. |

## Left out

- File I/O, encodings and the libraries: contents arrive already read and
  decoded, with `\n` line breaks. Python's universal-newline translation of
  `\r\n` and `\r` is not modelled.
- JSON serialisation (`indent=4`), non-integer JSON numbers and pandas' CSV
  quoting. The model states which value is dumped or tabulated, not its bytes.
- The library-only conversions (`csv_to_excel`, `excel_to_csv`, `html_to_pdf`,
  `jpg_to_pdf`, `png_to_pdf`, `gif_to_pdf`): beyond their extension tables,
  each is a single library call, modelled as `LibraryOutput`.
  - `html_to_pdf`'s per-line `strip()` and FPDF layout are not modelled.
  - `gif_to_pdf`'s frame handling (`n_frames`, `convert`) is not modelled.
- `pdf_to_ppt` slide layout and its temporary PNG files. The model keeps one
  slide per rendered page.
- `pdf_to_gif` frame conversion. The model keeps one frame per page, 500 ms
  each, looping forever, and the failure on an empty page list.
- Converter.Body: one `othersOk` flag stands for every library call, the
  `libreoffice` subprocess, `shutil.move` and every write. A failure among
  them is one `LibraryFailed` cause, and partial output is modelled only for
  `json_to_text`. `pdf_to_html` opens the HTML file (File_convertor.py:106)
  between reading the PDF (105) and extracting its text (109), and `pdf_to_ppt`
  builds a `Presentation` before rendering the pages. One `pdfText` or
  `pageCount` input stands for both of those reading failures. When reading
  and another step both fail, which cause is reported is not modelled, and
  neither is the partly written HTML file an extraction failure leaves: it
  holds `<html><body>` and the paragraphs of the pages extracted before the
  failure.
- Converter.JsonToTextEmptiesOnJoinFailure: flags the emptied destination
  only for a failed join. A `write` that fails after `open(text_file, 'w')`
  also leaves the file empty, but that failure is one of the `LibraryFailed`
  causes, which the single `othersOk` flag cannot tell apart from a failed
  `open`.
- Common.Lower: folds ASCII letters only, where Python's `lower()` is full
  Unicode. The only non-ASCII character that lower-cases to ASCII text is the
  Kelvin sign, which becomes `k`, and no table entry contains `k`. Validation
  therefore accepts the same paths. Only the error's echoed extension can
  differ.
- The `main` loop itself: printing the menu and messages, end of input on
  `input()`, and what happens when a raised validation error escapes `main`.
  One round is modelled, as `Menu.MenuStep`.
- `os.makedirs` of the output folder in `main`: it is a flag on the request
  (`Menu.MenuStep`), and its failure, including on an empty folder name, is not
  modelled. The `makedirs` at the start of `pdf_to_jpg` and `pdf_to_png`
  (File_convertor.py:155, 188) is one of the steps the `othersOk` flag covers.
- `pdf_to_html` uses a backslash inside an f-string expression, which Python
  accepts only from version 3.12. The model assumes an interpreter that
  accepts it.
