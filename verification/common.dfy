/** Building blocks shared by the whole model: optional values, results, and
    the handful of Python `str` methods the converter relies on (`find`,
    `rfind`, `lower`, `strip`/`lstrip`/`rstrip` with a character set, and
    `sep.join(parts)`). Strings are sequences of characters. */
module Common {

  datatype Option<+T> = None | Some(value: T) {
    /** The wrapped value, or `default` when there is none. */
    function GetOr(default: T): T {
      match this
      case Some(v) => v
      case None => default
    }
  }

  datatype Result<+T, +E> = Success(value: T) | Failure(error: E)

  /** `s.find(c)`: the index of the first occurrence of `c`, or -1. */
  function Find(s: string, c: char): (r: int)
    ensures -1 <= r < |s|
    ensures 0 <= r ==> s[r] == c
    ensures forall i :: 0 <= i < |s| && (r < 0 || i < r) ==> s[i] != c
  {
    if |s| == 0 then -1
    else if s[0] == c then 0
    else
      var k := Find(s[1..], c);
      if k < 0 then -1 else k + 1
  }

  /** `s.rfind(c)`: the index of the last occurrence of `c`, or -1. */
  function RFind(s: string, c: char): (r: int)
    ensures -1 <= r < |s|
    ensures 0 <= r ==> s[r] == c
    ensures forall i :: r < i < |s| ==> s[i] != c
  {
    if |s| == 0 then -1
    else if s[|s| - 1] == c then |s| - 1
    else RFind(s[..|s| - 1], c)
  }

  /** The last occurrence of `c` in a suffix `s[j..]` is the last occurrence in
      `s`, shifted, when that lies inside the suffix; otherwise there is none. */
  lemma RFindSuffix(s: string, j: nat, c: char)
    requires j <= |s|
    ensures RFind(s[j..], c) == (if RFind(s, c) >= j then RFind(s, c) - j else -1)
  {
    var r := RFind(s, c);
    var r' := RFind(s[j..], c);
    if r' >= 0 {
      assert s[j + r'] == s[j..][r'];
    }
    if r >= j {
      assert s[j..][r - j] == c;
    }
  }

  /** The last occurrence of `c` in a prefix `s[..j]` is the last occurrence in
      `s` when that lies inside the prefix. */
  lemma RFindPrefix(s: string, j: nat, c: char)
    requires j <= |s|
    requires RFind(s, c) < j
    ensures RFind(s[..j], c) == RFind(s, c)
  {
    var r := RFind(s, c);
    var r' := RFind(s[..j], c);
    if r' >= 0 {
      assert s[r'] == s[..j][r'];
    }
    if r >= 0 {
      assert s[..j][r] == c;
    }
  }

  predicate IsUpper(c: char) {
    'A' <= c <= 'Z'
  }

  /** Python's `lower()` restricted to the ASCII letters. */
  function LowerChar(c: char): (r: char)
    ensures !IsUpper(r)
    ensures IsUpper(c) || r == c
  {
    if IsUpper(c) then (c as int + 32) as char else c
  }

  function Lower(s: string): (r: string)
    ensures |r| == |s|
  {
    seq(|s|, i requires 0 <= i < |s| => LowerChar(s[i]))
  }

  lemma LowerIdempotent(s: string)
    ensures Lower(Lower(s)) == Lower(s)
  {
  }

  /** Lowering commutes with taking a slice. */
  lemma LowerSlice(s: string, i: nat, j: nat)
    requires i <= j <= |s|
    ensures Lower(s[i..j]) == Lower(s)[i..j]
    ensures Lower(s[i..]) == Lower(s)[i..]
    ensures Lower(s[..j]) == Lower(s)[..j]
  {
  }

  /** Lowering never creates nor removes a character that is not a letter. */
  lemma LowerKeepsNonLetters(s: string, c: char)
    requires !IsUpper(c) && !('a' <= c <= 'z')
    ensures forall i :: 0 <= i < |s| ==> (Lower(s)[i] == c <==> s[i] == c)
  {
  }

  /** `s.lstrip(cs)`: drops the longest prefix made of characters in `cs`. */
  function TrimStart(s: string, cs: set<char>): (r: string)
    ensures |r| <= |s| && r == s[|s| - |r|..]
    ensures forall i :: 0 <= i < |s| - |r| ==> s[i] in cs
    ensures r == [] || r[0] !in cs
  {
    if |s| > 0 && s[0] in cs then TrimStart(s[1..], cs) else s
  }

  /** `s.rstrip(cs)`: drops the longest suffix made of characters in `cs`. */
  function TrimEnd(s: string, cs: set<char>): (r: string)
    ensures |r| <= |s| && r == s[..|r|]
    ensures forall i :: |r| <= i < |s| ==> s[i] in cs
    ensures r == [] || r[|r| - 1] !in cs
  {
    if |s| > 0 && s[|s| - 1] in cs then TrimEnd(s[..|s| - 1], cs) else s
  }

  /** How many characters `s.strip(cs)` drops at the front. */
  function StripOffset(s: string, cs: set<char>): nat
  {
    |s| - |TrimStart(s, cs)|
  }

  /** `s.strip(cs)`: both ends at once. The result is the slice of `s` that
      starts at `StripOffset`, and neither of its ends is in `cs`. */
  function Strip(s: string, cs: set<char>): (r: string)
    ensures r == [] || (r[0] !in cs && r[|r| - 1] !in cs)
    ensures StripOffset(s, cs) + |r| <= |s|
    ensures r == s[StripOffset(s, cs)..StripOffset(s, cs) + |r|]
    ensures forall i :: 0 <= i < StripOffset(s, cs) ==> s[i] in cs
    ensures forall i :: StripOffset(s, cs) + |r| <= i < |s| ==> s[i] in cs
  {
    var t := TrimStart(s, cs);
    var r := TrimEnd(t, cs);
    assert r == s[|s| - |t|..][..|r|];
    assert forall i :: |s| - |t| + |r| <= i < |s| ==> s[i] == t[i - (|s| - |t|)];
    r
  }

  /** Stripping twice with the same set is stripping once. */
  lemma StripIdempotent(s: string, cs: set<char>)
    ensures Strip(Strip(s, cs), cs) == Strip(s, cs)
  {
    var r := Strip(s, cs);
    assert TrimStart(r, cs) == r;
    assert TrimEnd(r, cs) == r;
  }

  /** `sep.join(parts)`. */
  function Join(sep: string, parts: seq<string>): (r: string)
    ensures |parts| == 1 ==> r == parts[0]
  {
    if |parts| == 0 then []
    else if |parts| == 1 then parts[0]
    else parts[0] + sep + Join(sep, parts[1..])
  }
}
