/** The image files `pdf_to_jpg` and `pdf_to_png` write: page `i` (counted
    from 0 by `enumerate`) goes to `os.path.join(folder, f'page_{i+1}.jpg')`,
    or `.png`. The names are read back by `ParsePageName`, which shows that
    they are 1-based, in page order, and pairwise distinct. */
module PageNames {
  import opened Common
  import opened PosixPath

  predicate IsDigit(c: char) {
    '0' <= c <= '9'
  }

  function DigitChar(d: nat): (c: char)
    requires d < 10
    ensures IsDigit(c)
  {
    ('0' as int + d) as char
  }

  /** `str(n)` for a non-negative integer. */
  function Decimal(n: nat): (s: string)
    ensures |s| > 0
    ensures forall i :: 0 <= i < |s| ==> IsDigit(s[i])
  {
    if n < 10 then [DigitChar(n)] else Decimal(n / 10) + [DigitChar(n % 10)]
  }

  /** The number a string of decimal digits denotes. */
  function DigitsValue(s: string): nat
    requires forall i :: 0 <= i < |s| ==> IsDigit(s[i])
  {
    if |s| == 0 then 0
    else
      var last := s[|s| - 1];
      assert IsDigit(last);
      DigitsValue(s[..|s| - 1]) * 10 + (last as int - '0' as int)
  }

  lemma {:induction false} DecimalRoundTrip(n: nat)
    ensures DigitsValue(Decimal(n)) == n
  {
    if n >= 10 {
      var s := Decimal(n);
      assert s[..|s| - 1] == Decimal(n / 10);
      DecimalRoundTrip(n / 10);
    }
  }

  /** The two raster formats written page by page. */
  datatype ImageFormat = Jpg | Png

  function FormatSuffix(format: ImageFormat): string {
    match format
    case Jpg => "jpg"
    case Png => "png"
  }

  const PagePrefix: string := "page_"

  /** `f'page_{i+1}.jpg'` (or `.png`) for the page at index `i`: a single
      path component that starts with `page_` and ends with the format's
      extension. */
  function PageName(i: nat, format: ImageFormat): (r: string)
    ensures |r| > |PagePrefix| + 1 + |FormatSuffix(format)| && Sep !in r
    ensures r[..|PagePrefix|] == PagePrefix
    ensures r[|r| - 1 - |FormatSuffix(format)|..] == "." + FormatSuffix(format)
  {
    var d := Decimal(i + 1);
    DigitsAreNotSep(d);
    NameHasNoSep(PagePrefix, d, "." + FormatSuffix(format));
    PagePrefix + d + "." + FormatSuffix(format)
  }

  lemma DigitsAreNotSep(d: string)
    requires forall i :: 0 <= i < |d| ==> IsDigit(d[i])
    ensures Sep !in d
  {
    forall i | 0 <= i < |d|
      ensures d[i] != Sep
    {
      assert IsDigit(d[i]);
    }
  }

  lemma NameHasNoSep(a: string, b: string, c: string)
    requires Sep !in a && Sep !in b && Sep !in c
    ensures Sep !in a + b + c
  {
    var s := a + b + c;
    forall j | 0 <= j < |s|
      ensures s[j] != Sep
    {
      if j < |a| {
        assert s[j] == a[j];
      } else if j < |a| + |b| {
        assert s[j] == b[j - |a|];
      } else {
        assert s[j] == c[j - |a| - |b|];
      }
    }
  }

  /** One output path per page, in page order. */
  function PagePaths(folder: string, pageCount: nat, format: ImageFormat): (r: seq<string>)
    ensures |r| == pageCount
  {
    seq(pageCount, i requires 0 <= i < pageCount => JoinPath(folder, PageName(i, format)))
  }

  /** The page number a file name stands for, if it has the shape
      `page_<digits>.<suffix>`. */
  function ParsePageName(name: string, format: ImageFormat): Option<nat> {
    var tail := "." + FormatSuffix(format);
    if |name| > |PagePrefix| + |tail|
       && name[..|PagePrefix|] == PagePrefix
       && name[|name| - |tail|..] == tail
       && (forall i :: |PagePrefix| <= i < |name| - |tail| ==> IsDigit(name[i]))
    then
      var digits := name[|PagePrefix|..|name| - |tail|];
      assert forall i :: 0 <= i < |digits| ==> digits[i] == name[|PagePrefix| + i];
      Some(DigitsValue(digits))
    else None
  }

  /** The name of the page at index `i` reads back as page number `i + 1`. */
  lemma ParsePageNameInverse(i: nat, format: ImageFormat)
    ensures ParsePageName(PageName(i, format), format) == Some(i + 1)
  {
    var d := Decimal(i + 1);
    var tail := "." + FormatSuffix(format);
    var name := PageName(i, format);
    assert name == PagePrefix + d + tail;
    assert name[..|PagePrefix|] == PagePrefix;
    assert name[|name| - |tail|..] == tail;
    assert name[|PagePrefix|..|name| - |tail|] == d;
    assert forall j :: |PagePrefix| <= j < |name| - |tail| ==> name[j] == d[j - |PagePrefix|];
    DecimalRoundTrip(i + 1);
  }

  /** For `n` pages there are `n` paths; the last component of the path at
      index `i` is the page's own name and reads back as page number `i + 1`;
      and no two pages share a path. */
  lemma PagePathsNumberedAndDistinct(folder: string, pageCount: nat, format: ImageFormat)
    ensures |PagePaths(folder, pageCount, format)| == pageCount
    ensures forall i :: 0 <= i < pageCount ==>
              Basename(PagePaths(folder, pageCount, format)[i]) == PageName(i, format)
              && ParsePageName(Basename(PagePaths(folder, pageCount, format)[i]), format) == Some(i + 1)
    ensures forall i, j :: 0 <= i < j < pageCount ==>
              PagePaths(folder, pageCount, format)[i] != PagePaths(folder, pageCount, format)[j]
    ensures |folder| > 0 && folder[|folder| - 1] != Sep ==>
              forall i :: 0 <= i < pageCount ==> Dirname(PagePaths(folder, pageCount, format)[i]) == folder
  {
    var paths := PagePaths(folder, pageCount, format);
    forall i | 0 <= i < pageCount
      ensures Basename(paths[i]) == PageName(i, format)
      ensures ParsePageName(Basename(paths[i]), format) == Some(i + 1)
      ensures |folder| > 0 && folder[|folder| - 1] != Sep ==> Dirname(paths[i]) == folder
    {
      BasenameOfJoin(folder, PageName(i, format));
      ParsePageNameInverse(i, format);
      if |folder| > 0 && folder[|folder| - 1] != Sep {
        DirnameOfJoin(folder, PageName(i, format));
      }
    }
  }
}
