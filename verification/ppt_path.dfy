/** The paths `ppt_to_pdf` computes around its `libreoffice` call: the folder
    handed to `--outdir`, the file LibreOffice writes there (the input's stem
    with `.pdf`), and whether that file is then moved onto the destination. */
module PptPath {
  import opened Common
  import opened PosixPath
  import opened Extensions

  const PdfSuffix: string := ".pdf"
  const CurrentDir: string := "."

  /** `os.path.dirname(pdf_file) or '.'`. */
  function OutDir(target: string): (r: string)
    ensures |r| > 0
    ensures Dirname(target) == [] ==> r == CurrentDir
    ensures Dirname(target) != [] ==> r == Dirname(target)
  {
    var d := Dirname(target);
    if |d| == 0 then CurrentDir else d
  }

  /** The argument vector of the conversion command: headless LibreOffice
      converting the input, given last, to PDF in the folder that follows
      `--outdir`, which is never empty. */
  function ConvertCommand(source: string, target: string): (r: seq<string>)
    ensures |r| == 7 && r[0] == "libreoffice" && r[6] == source
    ensures r[4] == "--outdir" && |r[5]| > 0
  {
    ["libreoffice", "--headless", "--convert-to", "pdf", "--outdir", OutDir(target), source]
  }

  /** The name LibreOffice gives its output: the input's last component
      with its extension replaced by `.pdf`. */
  function ConvertedName(source: string): (r: string)
    ensures |r| >= |PdfSuffix| > 0 && Sep !in r
    ensures r == Stem(Basename(source)) + PdfSuffix
  {
    var stem := Stem(Basename(source));
    StemHasNoSep(source);
    NoSepConcat(stem, PdfSuffix);
    stem + PdfSuffix
  }

  lemma NoSepConcat(a: string, b: string)
    requires Sep !in a && Sep !in b
    ensures Sep !in a + b
  {
    forall i | 0 <= i < |a + b|
      ensures (a + b)[i] != Sep
    {
      if i < |a| {
        assert (a + b)[i] == a[i];
      } else {
        assert (a + b)[i] == b[i - |a|];
      }
    }
  }

  /** A plain input name keeps its stem: `<folder>/<name><ext>` converts
      to `<name>.pdf`. */
  lemma ConvertedNameOfPlainName(folder: string, name: string, e: string)
    requires WellFormedExt(e) && Sep !in name && HasNonDot(name)
    ensures ConvertedName(JoinPath(folder, name + e)) == name + PdfSuffix
  {
    var file := name + e;
    assert forall i :: 0 <= i < |file| ==> file[i] != Sep by {
      forall i | 0 <= i < |file|
        ensures file[i] != Sep
      {
        if i < |name| {
          assert file[i] == name[i];
        } else {
          assert file[i] == e[i - |name|];
        }
      }
    }
    BasenameOfJoin(folder, file);
    ExtensionOfPlainName(name, e);
    assert SplitExt(file).0 + e == name + e;
    assert Stem(file) == name;
  }

  /** `orig` in the source: where the converted file is looked for. */
  function ConvertedPath(source: string, target: string): (r: string)
    ensures Basename(r) == ConvertedName(source)
  {
    BasenameOfJoin(Dirname(target), ConvertedName(source));
    JoinPath(Dirname(target), ConvertedName(source))
  }

  /** `orig != pdf_file`: the move is decided by comparing path strings, so
      a destination that stays put already has the converted name. */
  function NeedsMove(source: string, target: string): (r: bool)
    ensures !r ==> Basename(target) == ConvertedName(source)
  {
    ConvertedPath(source, target) != target
  }

  /** The file is looked for in the destination's folder, under the name
      LibreOffice gives it. */
  lemma ConvertedPathParts(source: string, target: string)
    ensures ConvertedPath(source, target)[..|ConvertedPath(source, target)| - |ConvertedName(source)|]
            == (if Dirname(target) == [] || Dirname(target)[|Dirname(target)| - 1] == Sep
                then Dirname(target) else Dirname(target) + [Sep])
  {
    BasenameOfJoin(Dirname(target), ConvertedName(source));
  }

  /** The file the move starts from is the one LibreOffice writes into the
      folder given after `--outdir`: inside that folder when the destination
      has a folder, and under the bare converted name (relative to the
      current folder `.`) when it has none. */
  lemma ConvertedPathInOutDir(source: string, target: string)
    ensures Dirname(target) == [] ==>
              ConvertCommand(source, target)[5] == CurrentDir
              && ConvertedPath(source, target) == ConvertedName(source)
    ensures Dirname(target) != [] ==>
              ConvertedPath(source, target) == JoinPath(ConvertCommand(source, target)[5], ConvertedName(source))
  {
    var name := ConvertedName(source);
    assert name[0] != Sep;
  }

  /** For a destination without a doubled separator, no move happens
      exactly when the destination's last component is the input's stem
      followed by `.pdf`. */
  lemma NoMoveIffSameName(source: string, target: string)
    requires NoDoubleSep(target)
    ensures !NeedsMove(source, target) <==> ConvertedName(source) == Basename(target)
  {
    JoinDirnameBasename(target);
    ConvertedPathParts(source, target);
  }

  /** A destination in a folder `dir` whose last component is already the
      converted name leaves the file where LibreOffice put it. With
      `ConvertedNameOfPlainName`: `<any folder>/<name><ext>` converted to
      `<dir>/<name>.pdf` is not moved. */
  lemma SameNameStays(source: string, dir: string)
    requires |dir| > 0 && dir[|dir| - 1] != Sep
    ensures !NeedsMove(source, JoinPath(dir, ConvertedName(source)))
  {
    DirnameOfJoin(dir, ConvertedName(source));
  }

  /** The comparison is textual: the same destination written with a doubled
      separator makes the move happen although both paths name the same
      file. */
  lemma DoubledSeparatorStillMoves(source: string, dir: string)
    requires |dir| > 0 && dir[|dir| - 1] != Sep
    ensures NeedsMove(source, dir + [Sep, Sep] + ConvertedName(source))
  {
    var file := ConvertedName(source);
    var target := dir + [Sep, Sep] + file;
    DoubledDirname(dir, file);
    assert ConvertedPath(source, target) == JoinPath(dir, file);
    assert |JoinPath(dir, file)| == |dir| + 1 + |file|;
  }

  lemma DoubledDirname(dir: string, file: string)
    requires |dir| > 0 && dir[|dir| - 1] != Sep
    requires |file| > 0 && Sep !in file
    ensures Dirname(dir + [Sep, Sep] + file) == dir
  {
    assert AllSep([Sep, Sep]);
    DirnameDropsTrailingSeps(dir, [Sep, Sep], file);
  }
}
