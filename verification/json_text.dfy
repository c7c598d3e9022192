/** The document-level logic of `text_to_json`, `json_to_text` and
    `text_to_csv`: which value each writes, given the content it read. The
    JSON value is the decoded Python object (`json.load` result); its
    serialisation is not modelled. */
module JsonText {
  import opened Common
  import opened Lines

  /** A decoded JSON value. Objects are Python dicts: members in insertion
      order. `json.load` never builds a dict with a repeated key (a key
      written twice in the text keeps its last value), so the documents it
      yields have distinct keys; the type itself does not enforce that, and
      `Lookup` returns the first member with the key. Numbers are kept to
      integers. */
  datatype Json =
    | JNull
    | JBool(b: bool)
    | JNumber(n: int)
    | JString(s: string)
    | JArray(items: seq<Json>)
    | JObject(members: seq<(string, Json)>)

  /** The Python errors `json_to_text` can hit after loading the document:
      `data.get` on a non-dict (AttributeError), `"\n".join` of a value that
      is not iterable, or of an iterable with a non-string item (TypeError). */
  datatype JoinError = NoGetMethod | NotIterable | ItemNotString

  const LinesKey: string := "lines"

  function Strings(ss: seq<string>): (r: seq<Json>)
    ensures |r| == |ss|
  {
    seq(|ss|, k requires 0 <= k < |ss| => JString(ss[k]))
  }

  /** Every item is a string without a newline: a line as read from a file. */
  predicate LineStrings(items: seq<Json>) {
    forall k :: 0 <= k < |items| ==> items[k].JString? && Newline !in items[k].s
  }

  /** `{"lines": lines}`, the object `text_to_json` dumps: its `"lines"`
      value is an array with one string per line of the file, none of which
      holds a newline. */
  function TextToJson(content: string): (r: Json)
    ensures r.JObject? && Lookup(r.members, LinesKey).Some?
    ensures var v := Lookup(r.members, LinesKey).value;
            v.JArray? && |v.items| == |ReadLines(content)| && LineStrings(v.items)
  {
    JObject([(LinesKey, JArray(Strings(SplitLines(content))))])
  }

  /** `d.get(key)` on a dict. */
  function Lookup(members: seq<(string, Json)>, key: string): (r: Option<Json>)
    ensures r.None? <==> forall k :: 0 <= k < |members| ==> members[k].0 != key
    ensures r.Some? ==> exists k :: 0 <= k < |members| && members[k] == (key, r.value)
  {
    if |members| == 0 then None
    else if members[0].0 == key then Some(members[0].1)
    else
      var r := Lookup(members[1..], key);
      assert r.Some? ==> exists k :: 0 <= k < |members[1..]| && members[1..][k] == (key, r.value);
      assert r.None? ==> forall k :: 1 <= k < |members| ==> members[k].0 == members[1..][k - 1].0;
      r
  }

  /** What `for x in v` yields: an array's items, a string's characters, a
      dict's keys; `None` when `v` is not iterable. */
  function Iterate(v: Json): (r: Option<seq<Json>>)
    ensures r.Some? <==> v.JArray? || v.JString? || v.JObject?
    ensures v.JString? ==> |r.value| == |v.s|
    ensures v.JObject? ==> |r.value| == |v.members|
    ensures r.Some? && !v.JArray? ==> forall k :: 0 <= k < |r.value| ==> r.value[k].JString?
    ensures v.JArray? ==> r == Some(v.items)
    ensures v.JString? ==> forall k :: 0 <= k < |v.s| ==> r.value[k] == JString([v.s[k]])
    ensures v.JObject? ==> forall k :: 0 <= k < |v.members| ==> r.value[k] == JString(v.members[k].0)
  {
    match v
    case JArray(items) => Some(items)
    case JString(s) => Some(seq(|s|, k requires 0 <= k < |s| => JString([s[k]])))
    case JObject(members) => Some(seq(|members|, k requires 0 <= k < |members| => JString(members[k].0)))
    case _ => None
  }

  /** The strings of a sequence that holds only strings. */
  function AsStrings(items: seq<Json>): (r: Option<seq<string>>)
    ensures r.Some? <==> forall k :: 0 <= k < |items| ==> items[k].JString?
    ensures r.Some? ==> |r.value| == |items|
                        && forall k :: 0 <= k < |items| ==> items[k] == JString(r.value[k])
  {
    if |items| == 0 then Some([])
    else if !items[0].JString? then None
    else
      match AsStrings(items[1..])
      case None => None
      case Some(rest) => Some([items[0].s] + rest)
  }

  /** `"\n".join(data.get("lines", []))`, the content `json_to_text` writes. */
  function JsonToText(doc: Json): (r: Result<string, JoinError>)
    ensures r == Failure(NoGetMethod) <==> !doc.JObject?
    ensures doc.JObject? && Lookup(doc.members, LinesKey).None? ==> r == Success([])
    ensures r == Failure(NotIterable) ==>
              doc.JObject? && Lookup(doc.members, LinesKey).Some?
              && Iterate(Lookup(doc.members, LinesKey).value).None?
  {
    if !doc.JObject? then Failure(NoGetMethod)
    else
      var value := Lookup(doc.members, LinesKey).GetOr(JArray([]));
      match Iterate(value)
      case None => Failure(NotIterable)
      case Some(items) =>
        match AsStrings(items)
        case None => Failure(ItemNotString)
        case Some(lines) => Success(JoinLines(lines))
  }

  lemma AsStringsOfStrings(ss: seq<string>)
    ensures AsStrings(Strings(ss)) == Some(ss)
  {
    var r := AsStrings(Strings(ss));
    assert r.Some?;
    assert r.value == ss;
  }

  /** Text to JSON and back gives the text again, minus one final newline. */
  lemma TextJsonTextRoundTrip(content: string)
    ensures JsonToText(TextToJson(content)) == Success(DropFinalNewline(content))
  {
    AsStringsOfStrings(SplitLines(content));
    JoinSplit(content);
  }

  /** JSON to text and back gives the same `"lines"` list exactly when the
      list is one that survives a split of its join. */
  lemma JsonTextJsonRoundTrip(lines: seq<string>)
    ensures JsonToText(JObject([(LinesKey, JArray(Strings(lines)))])) == Success(JoinLines(lines))
    ensures TextToJson(JoinLines(lines)) == JObject([(LinesKey, JArray(Strings(lines)))])
            <==> Rejoinable(lines)
  {
    AsStringsOfStrings(lines);
    SplitJoinIff(lines);
    StringsInjective(SplitLines(JoinLines(lines)), lines);
  }

  lemma StringsInjective(a: seq<string>, b: seq<string>)
    ensures Strings(a) == Strings(b) <==> a == b
  {
    if Strings(a) == Strings(b) {
      assert |a| == |b|;
      assert forall k :: 0 <= k < |a| ==> a[k] == Strings(a)[k].s;
    }
  }

  /** A document with no `"lines"` key yields an empty file. */
  lemma MissingLinesWritesEmpty(members: seq<(string, Json)>)
    requires forall k :: 0 <= k < |members| ==> members[k].0 != LinesKey
    ensures JsonToText(JObject(members)) == Success([])
  {
  }

  /** `json_to_text` succeeds exactly when the document is an object whose
      `"lines"` value is missing, a string, an object, or an array of strings. */
  lemma JsonToTextSucceedsIff(doc: Json)
    ensures JsonToText(doc).Success? <==>
              doc.JObject?
              && match Lookup(doc.members, LinesKey)
                 case None => true
                 case Some(v) =>
                   v.JString? || v.JObject?
                   || (v.JArray? && forall k :: 0 <= k < |v.items| ==> v.items[k].JString?)
  {
  }

  /** A `"lines"` value that is a string is iterated character by character,
      so its characters end up on lines of their own. */
  lemma StringLinesAreSplitIntoCharacters()
    ensures JsonToText(JObject([(LinesKey, JString("ab"))])) == Success("a\nb")
  {
    var doc := JObject([(LinesKey, JString("ab"))]);
    assert Lookup(doc.members, LinesKey) == Some(JString("ab"));
    var items := Iterate(JString("ab")).value;
    assert items == Strings(["a", "b"]);
    AsStringsOfStrings(["a", "b"]);
    assert ["a", "b"][1..] == ["b"];
    assert JoinLines(["a", "b"]) == "a" + "\n" + "b";
    assert JsonToText(doc) == Success(JoinLines(["a", "b"]));
    assert "a" + "\n" + "b" == "a\nb";
  }

  /** The single-column table `text_to_csv` hands to the CSV writer. */
  datatype Table = Table(header: seq<string>, rows: seq<seq<string>>)

  /** Every row is one cell holding a line without a newline. */
  predicate SingleCellLines(rows: seq<seq<string>>) {
    forall k :: 0 <= k < |rows| ==> |rows[k]| == 1 && Newline !in rows[k][0]
  }

  /** `pd.DataFrame({"lines": lines})`: one column named `lines`, one row per
      line, each without a newline. */
  function TextToCsv(content: string): (r: Table)
    ensures r.header == [LinesKey] && |r.rows| == |ReadLines(content)|
    ensures SingleCellLines(r.rows)
  {
    var lines := SplitLines(content);
    Table([LinesKey], seq(|lines|, k requires 0 <= k < |lines| => [lines[k]]))
  }

  /** The column of a one-column table. */
  function Column(t: Table): seq<string>
    requires forall k :: 0 <= k < |t.rows| ==> |t.rows[k]| == 1
  {
    seq(|t.rows|, k requires 0 <= k < |t.rows| => t.rows[k][0])
  }

  /** The CSV table has one row per line of the text, and its column, joined
      with newlines, is the text minus one final newline. */
  lemma TextToCsvKeepsLines(content: string)
    ensures |TextToCsv(content).rows| == |SplitLines(content)|
    ensures forall k :: 0 <= k < |TextToCsv(content).rows| ==> |TextToCsv(content).rows[k]| == 1
    ensures JoinLines(Column(TextToCsv(content))) == DropFinalNewline(content)
  {
    ColumnOfTextToCsv(content);
    JoinSplit(content);
  }

  lemma ColumnOfTextToCsv(content: string)
    ensures Column(TextToCsv(content)) == SplitLines(content)
  {
  }

  /** The text `a\nb\nc` gives the lines `a`, `b`, `c`. */
  lemma ThreeLineScenario()
    ensures SplitLines("a\nb\nc") == ["a", "b", "c"]
  {
    var lines := ["a", "b", "c"];
    assert JoinLines(["c"]) == "c";
    assert JoinLines(["b", "c"]) == "b\nc";
    assert JoinLines(lines) == "a\nb\nc";
    assert Rejoinable(lines);
    SplitJoin(lines);
  }

  /** With a final newline the text still comes back as `a\nb\nc`. */
  lemma ThreeLineScenarioWithFinalNewline()
    ensures JsonToText(TextToJson("a\nb\nc\n")) == Success("a\nb\nc")
  {
    TextJsonTextRoundTrip("a\nb\nc\n");
    assert DropFinalNewline("a\nb\nc\n") == "a\nb\nc";
  }
}
