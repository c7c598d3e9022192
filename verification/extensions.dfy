/** Extension validation (`FileConverter._validate_extension`): the lower-cased
    `splitext` suffix of a path must be one of the accepted extensions, or the
    check fails with an error naming the extension, the role of the file and
    the accepted list. */
module Extensions {
  import opened Common
  import opened PosixPath

  datatype ExtensionError = InvalidExtension(ext: string, role: string, expected: seq<string>)

  /** An accepted-extension entry of the shape every table uses: a dot
      followed by characters that are neither dots nor separators. */
  predicate WellFormedExt(e: string) {
    |e| > 0 && e[0] == ExtSep && Sep !in e && ExtSep !in e[1..]
  }

  /** The plain reading of "the path has extension `e`": the path ends with
      `e`, and the last component before `e` has a character other than a dot. */
  predicate EndsWithExtension(q: string, e: string) {
    |e| <= |q| && q[|q| - |e|..] == e && HasNonDot(Basename(q[..|q| - |e|]))
  }

  /** `_validate_extension(path, expected, role)`: `None` when the check
      passes, the error it raises otherwise. */
  function Validate(path: string, expected: seq<string>, role: string): (r: Option<ExtensionError>)
    ensures r.None? <==> Lower(Extension(path)) in expected
    ensures r.Some? ==> r.value.role == role && r.value.expected == expected && r.value.ext !in expected
    ensures r.Some? ==> r.value.ext == Lower(Extension(path))
  {
    var ext := Lower(Extension(path));
    if ext in expected then None else Some(InvalidExtension(ext, role, expected))
  }

  /** For a well-formed entry `e`, `splitext` yields `e` exactly when the
      path ends with `e` in the plain sense above. */
  lemma ExtensionIsIffEndsWith(q: string, e: string)
    requires WellFormedExt(e)
    ensures Extension(q) == e <==> EndsWithExtension(q, e)
  {
    if Extension(q) == e {
      ExtensionIsThenEndsWith(q, e);
    }
    if EndsWithExtension(q, e) {
      EndsWithThenExtensionIs(q, e);
    }
  }

  lemma ExtensionIsThenEndsWith(q: string, e: string)
    requires WellFormedExt(e) && Extension(q) == e
    ensures EndsWithExtension(q, e)
  {
    var s := RFind(q, Sep);
    var d := RFind(q, ExtSep);
    assert d > s && HasNonDot(q[s + 1..d]);
    assert q[d..] == e;
    RFindPrefix(q, d, Sep);
    assert Basename(q[..d]) == q[..d][s + 1..];
    assert q[..d][s + 1..] == q[s + 1..d];
  }

  lemma EndsWithThenExtensionIs(q: string, e: string)
    requires WellFormedExt(e) && EndsWithExtension(q, e)
    ensures Extension(q) == e
  {
    var x := |q| - |e|;
    LastDotAtExtension(q, e);
    var s := RFind(q, Sep);
    RFindPrefix(q, x, Sep);
    assert Basename(q[..x]) == q[..x][s + 1..];
    assert q[..x][s + 1..] == q[s + 1..x];
  }

  /** When `q` ends with a well-formed entry, the entry's dot is the last dot
      of `q` and the last separator comes before it. */
  lemma LastDotAtExtension(q: string, e: string)
    requires WellFormedExt(e) && |e| <= |q| && q[|q| - |e|..] == e
    ensures RFind(q, ExtSep) == |q| - |e|
    ensures RFind(q, Sep) < |q| - |e|
  {
    var x := |q| - |e|;
    forall i | x <= i < |q|
      ensures q[i] == e[i - x]
      ensures q[i] != Sep
      ensures i > x ==> q[i] != ExtSep
    {
      assert q[i] == q[x..][i - x];
      if i > x {
        assert e[i - x] == e[1..][i - x - 1];
      }
    }
  }

  /** Validation accepts a path exactly when its lower-cased form ends with
      one of the accepted extensions, for tables of well-formed entries.
      Upper and lower case are not told apart: `Data.CSV` passes `[".csv"]`. */
  lemma AcceptedIffEndsWithListed(path: string, expected: seq<string>, role: string)
    requires forall e :: e in expected ==> WellFormedExt(e)
    ensures Validate(path, expected, role).None?
            <==> exists e :: e in expected && EndsWithExtension(Lower(path), e)
  {
    ExtensionOfLower(path);
    var q := Lower(path);
    if Validate(path, expected, role).None? {
      var e := Extension(q);
      assert e in expected;
      ExtensionIsIffEndsWith(q, e);
    }
    if exists e :: e in expected && EndsWithExtension(q, e) {
      var e :| e in expected && EndsWithExtension(q, e);
      ExtensionIsIffEndsWith(q, e);
    }
  }

  /** A path whose last component has no usable dot has the empty extension,
      which no table of well-formed entries accepts. */
  lemma NoExtensionRejected(path: string, expected: seq<string>, role: string)
    requires forall e :: e in expected ==> WellFormedExt(e)
    requires Extension(path) == []
    ensures Validate(path, expected, role) == Some(InvalidExtension([], role, expected))
  {
    assert Lower([]) == [];
    assert !WellFormedExt([]);
  }

  /** Validation does not depend on the case of the path. */
  lemma ValidateIgnoresCase(path: string, expected: seq<string>, role: string)
    ensures Validate(Lower(path), expected, role) == Validate(path, expected, role)
  {
    ExtensionOfLower(path);
    ExtensionOfLower(Lower(path));
    LowerIdempotent(Extension(path));
  }

  /** `Data.CSV` passes the CSV table, and `data`, which has no extension,
      fails it with the empty extension in the error. */
  lemma CsvScenarios()
    ensures Validate("Data.CSV", [".csv"], "CSV input") == None
    ensures Validate("data", [".csv"], "CSV input") == Some(InvalidExtension([], "CSV input", [".csv"]))
  {
    assert HasNonDot("Data") by { assert "Data"[0] != ExtSep; }
    assert "Data.CSV" == "Data" + ".CSV";
    ExtensionOfPlainName("Data", ".CSV");
    assert Lower(".CSV") == ".csv";
    assert RFind("data", ExtSep) == -1;
    NoExtensionRejected("data", [".csv"], "CSV input");
  }

  /** `name + e` has extension `e` when `name` is a plain file name. */
  lemma ExtensionOfPlainName(name: string, e: string)
    requires WellFormedExt(e)
    requires Sep !in name && HasNonDot(name)
    ensures Extension(name + e) == e
  {
    var q := name + e;
    assert q[..|name|] == name;
    assert q[|q| - |e|..] == e;
    assert RFind(name, Sep) == -1;
    assert Basename(name) == name;
    ExtensionIsIffEndsWith(q, e);
  }
}
