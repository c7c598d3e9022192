/** The parts of Python's `posixpath` that the converter uses: `basename`,
    `dirname`, `splitext` and two-argument `join`. Each is written the way
    `posixpath` computes it (with `rfind` on the separator), and the lemmas
    relate that computation to the plain reading "the last path component"
    and "the suffix after the last dot of the last component". */
module PosixPath {
  import opened Common

  const Sep: char := '/'
  const ExtSep: char := '.'

  /** `os.path.basename(p)`: everything after the last separator. */
  function Basename(p: string): (b: string)
    ensures |b| <= |p| && b == p[|p| - |b|..]
    ensures Sep !in b
    ensures |b| < |p| ==> p[|p| - |b| - 1] == Sep
  {
    var b := p[RFind(p, Sep) + 1..];
    assert forall i :: 0 <= i < |b| ==> b[i] == p[RFind(p, Sep) + 1 + i];
    b
  }

  predicate AllSep(s: string) {
    forall i :: 0 <= i < |s| ==> s[i] == Sep
  }

  predicate NoDoubleSep(s: string) {
    forall i :: 0 < i < |s| && s[i] == Sep ==> s[i - 1] != Sep
  }

  /** `os.path.dirname(p)`: everything up to the last separator, with the
      trailing separators removed unless the head is made only of them. */
  function Dirname(p: string): (d: string)
    ensures |d| <= |p| && d == p[..|d|]
    ensures RFind(p, Sep) < 0 <==> d == []
    ensures |d| <= RFind(p, Sep) + 1
    ensures AllSep(p[|d|..RFind(p, Sep) + 1])
    ensures d == [] || d[|d| - 1] != Sep || AllSep(d)
    ensures AllSep(p[..RFind(p, Sep) + 1]) ==> d == p[..RFind(p, Sep) + 1]
  {
    var head := p[..RFind(p, Sep) + 1];
    if |head| > 0 && !AllSep(head) then TrimEnd(head, {Sep}) else head
  }

  /** The ensures of `Dirname` pin its result down: any prefix of the path
      with the same properties is `Dirname(p)`. */
  lemma DirnameCharacterised(p: string, d: string)
    requires |d| <= |p| && d == p[..|d|]
    requires RFind(p, Sep) < 0 <==> d == []
    requires |d| <= RFind(p, Sep) + 1
    requires AllSep(p[|d|..RFind(p, Sep) + 1])
    requires d == [] || d[|d| - 1] != Sep || AllSep(d)
    requires AllSep(p[..RFind(p, Sep) + 1]) ==> d == p[..RFind(p, Sep) + 1]
    ensures d == Dirname(p)
  {
    var k := RFind(p, Sep);
    var e := Dirname(p);
    if AllSep(p[..k + 1]) {
      assert e == p[..k + 1];
    } else {
      NotAllSepSplit(p, k, d);
      NotAllSepSplit(p, k, e);
      NoLongerSplit(p, k, d, e);
      NoLongerSplit(p, k, e, d);
      assert e == p[..|d|];
    }
  }

  /** A prefix followed only by separators up to the last one, when that
      head is not all separators, is non-empty and does not end in one. */
  lemma NotAllSepSplit(p: string, k: int, d: string)
    requires k == RFind(p, Sep) && !AllSep(p[..k + 1])
    requires |d| <= k + 1 && d == p[..|d|]
    requires AllSep(p[|d|..k + 1])
    requires d == [] || d[|d| - 1] != Sep || AllSep(d)
    ensures |d| > 0 && d[|d| - 1] != Sep
  {
    if |d| == 0 || AllSep(d) {
      var head := p[..k + 1];
      forall i | 0 <= i < |head|
        ensures head[i] == Sep
      {
        if i < |d| {
          assert head[i] == d[i];
        } else {
          assert head[i] == p[|d|..k + 1][i - |d|];
        }
      }
      assert false;
    }
  }

  /** Two such prefixes: the one that does not end in a separator cannot
      reach into the other's run of separators. */
  lemma NoLongerSplit(p: string, k: int, d: string, e: string)
    requires 0 < |d| <= k + 1 <= |p| && d == p[..|d|] && AllSep(p[|d|..k + 1])
    requires 0 < |e| <= k + 1 && e == p[..|e|] && e[|e| - 1] != Sep
    ensures |e| <= |d|
  {
  }

  /** A head made only of separators is kept whole: `dirname("//x")` is
      `//`, not `/`. */
  lemma DirnameKeepsDoubleRoot()
    ensures Dirname("//x") == "//"
  {
    assert RFind("//x", Sep) == 1 by {
      assert "//x"[1] == Sep && "//x"[2] != Sep;
    }
    assert AllSep("//x"[..2]);
  }

  /** `os.path.join(a, b)` for two components. */
  function JoinPath(a: string, b: string): (r: string)
    ensures |b| > 0 && b[0] == Sep ==> r == b
    ensures !(|b| > 0 && b[0] == Sep) ==> |r| >= |b| && r[|r| - |b|..] == b
    ensures !(|b| > 0 && b[0] == Sep) ==>
              r[..|r| - |b|] == (if |a| == 0 || a[|a| - 1] == Sep then a else a + [Sep])
  {
    if |b| > 0 && b[0] == Sep then b
    else if |a| == 0 || a[|a| - 1] == Sep then a + b
    else a + [Sep] + b
  }

  /** The last component of a joined path is the joined name, when that name
      is a single non-empty component. */
  lemma BasenameOfJoin(a: string, b: string)
    requires |b| > 0 && Sep !in b
    ensures Basename(JoinPath(a, b)) == b
  {
    var r := JoinPath(a, b);
    var n := |r| - |b|;
    assert r[n..] == b;
    assert forall i :: n <= i < |r| ==> r[i] == b[i - n];
    assert n > 0 ==> r[n - 1] == Sep;
    var k := RFind(r, Sep);
    assert k == n - 1;
  }

  /** The folder of a name joined onto a folder without a trailing
      separator is that folder. */
  lemma DirnameOfJoin(dir: string, name: string)
    requires |dir| > 0 && dir[|dir| - 1] != Sep
    requires |name| > 0 && Sep !in name
    ensures Dirname(JoinPath(dir, name)) == dir
  {
    var p := JoinPath(dir, name);
    assert p == dir + [Sep] + name;
    BasenameOfJoin(dir, name);
    var k := RFind(p, Sep);
    assert |Basename(p)| == |p| - k - 1;
    assert k == |dir|;
    assert p[k - 1] == dir[|dir| - 1];
    DirnameWhenSingleSep(p, k);
    assert p[..k] == dir;
  }

  /** `dirname` drops every separator between the folder and the last
      component, not just one. */
  lemma DirnameDropsTrailingSeps(dir: string, seps: string, name: string)
    requires |dir| > 0 && dir[|dir| - 1] != Sep
    requires |seps| > 0 && AllSep(seps)
    requires |name| > 0 && Sep !in name
    ensures Dirname(dir + seps + name) == dir
  {
    var p := dir + seps + name;
    var k := LastSepBeforeName(dir + seps, name);
    var d := Dirname(p);
    assert p[|dir| - 1] == dir[|dir| - 1];
    assert d == p[..|dir|];
  }

  /** In `head + name`, where `head` ends in a separator and `name` has
      none, the last separator is the last character of `head`. */
  lemma LastSepBeforeName(head: string, name: string) returns (k: int)
    requires |head| > 0 && head[|head| - 1] == Sep
    requires |name| > 0 && Sep !in name
    ensures k == RFind(head + name, Sep) == |head| - 1
  {
    var p := head + name;
    assert p[|head| - 1] == Sep;
    assert forall i :: |head| <= i < |p| ==> p[i] == name[i - |head|] != Sep;
    k := RFind(p, Sep);
  }

  /** The stem of a last component is a single component too. */
  lemma StemHasNoSep(p: string)
    ensures Sep !in Stem(Basename(p))
  {
    var b := Basename(p);
    var stem := SplitExt(b).0;
    assert stem + SplitExt(b).1 == b;
    assert forall i :: 0 <= i < |stem| ==> stem[i] == b[i];
  }

  /** Splitting a path without a doubled separator into `dirname` and
      `basename` and joining them again gives the path back. */
  lemma JoinDirnameBasename(p: string)
    requires NoDoubleSep(p)
    ensures JoinPath(Dirname(p), Basename(p)) == p
  {
    var k := RFind(p, Sep);
    var b := Basename(p);
    assert b == p[k + 1..];
    if k < 0 {
      assert Dirname(p) == [];
      assert JoinPath([], b) == b;
    } else if k == 0 {
      assert AllSep(p[..1]);
      assert Dirname(p) == [Sep];
      assert JoinPath([Sep], b) == [Sep] + b;
    } else {
      var d := p[..k];
      assert p[k - 1] != Sep;
      DirnameWhenSingleSep(p, k);
      assert JoinPath(d, b) == d + [Sep] + b;
      assert p == d + [Sep] + b;
    }
  }

  /** When the last separator is a single one at `k > 0`, `dirname` is the
      text before it. */
  lemma DirnameWhenSingleSep(p: string, k: nat)
    requires k == RFind(p, Sep) && 0 < k && p[k - 1] != Sep
    ensures Dirname(p) == p[..k]
  {
    var head := p[..k + 1];
    assert head[k - 1] != Sep;
    assert !AllSep(head);
    var d := TrimEnd(head, {Sep});
    assert head[k] in {Sep};
    assert head[k - 1] !in {Sep};
    assert |d| == k;
  }

  /** True when `s` has a character other than a dot. */
  predicate HasNonDot(s: string) {
    exists i :: 0 <= i < |s| && s[i] != ExtSep
  }

  /** `os.path.splitext(p)`: the extension starts at the last dot, provided
      that dot lies after the last separator and some character other than a
      dot precedes it in the last component; otherwise it is empty. */
  function SplitExt(p: string): (r: (string, string))
    ensures r.0 + r.1 == p
    ensures r.1 == [] || (r.1[0] == ExtSep && Sep !in r.1 && ExtSep !in r.1[1..])
  {
    var sepIndex := RFind(p, Sep);
    var dotIndex := RFind(p, ExtSep);
    if dotIndex > sepIndex && HasNonDot(p[sepIndex + 1..dotIndex]) then
      assert forall i :: 0 <= i < |p| - dotIndex ==> p[dotIndex..][i] == p[dotIndex + i];
      (p[..dotIndex], p[dotIndex..])
    else
      (p, [])
  }

  /** `os.path.splitext(p)[1]`. */
  function Extension(p: string): string {
    SplitExt(p).1
  }

  /** `os.path.splitext(p)[0]`. */
  function Stem(p: string): string {
    SplitExt(p).0
  }

  /** The extension depends on the last path component only: it is that
      component's suffix from its last dot, when a character other than a dot
      comes before that dot, and empty otherwise. */
  lemma ExtensionOfLastComponent(p: string)
    ensures var b := Basename(p);
            var k := RFind(b, ExtSep);
            Extension(p) == (if k >= 0 && HasNonDot(b[..k]) then b[k..] else [])
  {
    var s := RFind(p, Sep);
    var d := RFind(p, ExtSep);
    var b := Basename(p);
    assert b == p[s + 1..];
    RFindSuffix(p, s + 1, ExtSep);
    var k := RFind(b, ExtSep);
    if d > s {
      assert k == d - (s + 1);
      assert b[..k] == p[s + 1..d];
      assert b[k..] == p[d..];
    } else {
      assert k == -1;
    }
  }

  /** The extension of a path, computed on the lower-cased path, is the
      lower-cased extension: dots and separators are not letters. */
  lemma ExtensionOfLower(p: string)
    ensures Extension(Lower(p)) == Lower(Extension(p))
  {
    var q := Lower(p);
    LowerKeepsNonLetters(p, Sep);
    LowerKeepsNonLetters(p, ExtSep);
    assert RFind(q, Sep) == RFind(p, Sep) by { RFindSame(p, q, Sep); }
    assert RFind(q, ExtSep) == RFind(p, ExtSep) by { RFindSame(p, q, ExtSep); }
    var s := RFind(p, Sep);
    var d := RFind(p, ExtSep);
    if d > s {
      LowerSlice(p, s + 1, d);
      LowerSlice(p, d, |p|);
      assert HasNonDot(q[s + 1..d]) <==> HasNonDot(p[s + 1..d]) by {
        if HasNonDot(p[s + 1..d]) {
          var i :| 0 <= i < d - (s + 1) && p[s + 1..d][i] != ExtSep;
          assert q[s + 1..d][i] != ExtSep;
        }
        if HasNonDot(q[s + 1..d]) {
          var i :| 0 <= i < d - (s + 1) && q[s + 1..d][i] != ExtSep;
          assert p[s + 1..d][i] != ExtSep;
        }
      }
    }
  }

  /** `rfind` agrees on two strings of equal length that have `c` at exactly
      the same positions. */
  lemma RFindSame(p: string, q: string, c: char)
    requires |p| == |q|
    requires forall i :: 0 <= i < |p| ==> (q[i] == c <==> p[i] == c)
    ensures RFind(q, c) == RFind(p, c)
  {
  }
}
