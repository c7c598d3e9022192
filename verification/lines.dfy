/** Line handling of the text conversions. Reading a text file line by line
    (`for line in f`) yields pieces that each end in a newline, except possibly
    the last; `text_to_json` and `text_to_csv` then drop the trailing newline
    of each piece with `rstrip('\n')`, and `json_to_text` rebuilds a file with
    `"\n".join(lines)`. File content is an already decoded string whose line
    breaks are `\n`. */
module Lines {
  import opened Common

  const Newline: char := '\n'

  /** Lines as Python's file iteration yields them, terminators included. */
  function ReadLines(content: string): (r: seq<string>)
    ensures |content| > 0 <==> |r| > 0
    decreases |content|
  {
    if |content| == 0 then []
    else [FirstLine(content)] + ReadLines(content[|FirstLine(content)|..])
  }

  /** The first line of non-empty content, its newline included. */
  function FirstLine(content: string): (line: string)
    requires |content| > 0
    ensures 0 < |line| <= |content|
  {
    var i := Find(content, Newline);
    if i < 0 then content else content[..i + 1]
  }

  /** The shape of the lines file iteration yields: every line is
      non-empty with no newline before its last character, and every line
      but the last ends with a newline. */
  predicate WellShaped(raw: seq<string>) {
    && (forall k :: 0 <= k < |raw| ==> |raw[k]| > 0 && Newline !in raw[k][..|raw[k]| - 1])
    && (forall k :: 0 <= k < |raw| - 1 ==> raw[k][|raw[k]| - 1] == Newline)
  }

  lemma {:induction false} ReadLinesShape(content: string)
    ensures WellShaped(ReadLines(content))
    decreases |content|
  {
    if |content| > 0 {
      var i := Find(content, Newline);
      if i < 0 {
        assert ReadLines(content) == [content];
        assert forall j :: 0 <= j < |content| - 1 ==> content[..|content| - 1][j] == content[j];
      } else {
        ReadLinesAtFirstNewline(content, i);
        ReadLinesShape(content[i + 1..]);
        FirstLineShape(content, i);
        WellShapedCons(content[..i + 1], ReadLines(content[i + 1..]));
      }
    }
  }

  lemma FirstLineShape(content: string, i: nat)
    requires i == Find(content, Newline)
    ensures Newline !in content[..i + 1][..i] && content[..i + 1][i] == Newline
  {
    assert forall j :: 0 <= j < i ==> content[..i + 1][..i][j] == content[j];
  }

  lemma WellShapedCons(line: string, rest: seq<string>)
    requires |line| > 0 && Newline !in line[..|line| - 1] && line[|line| - 1] == Newline
    requires WellShaped(rest)
    ensures WellShaped([line] + rest)
  {
    var raw := [line] + rest;
    assert forall k :: 1 <= k < |raw| ==> raw[k] == rest[k - 1];
  }

  /** Iterating over a file loses no character: the lines put back together
      (`"".join`) are the content. */
  lemma {:induction false} ReadLinesConcat(content: string)
    ensures Join([], ReadLines(content)) == content
    decreases |content|
  {
    if |content| > 0 {
      var first := FirstLine(content);
      var rest := content[|first|..];
      if |rest| > 0 {
        ReadLinesConcat(rest);
        assert ReadLines(content)[1..] == ReadLines(rest);
        assert content == first + rest;
      }
    }
  }

  /** `[line.rstrip('\n') for line in f]`: one entry per line the file
      yields, none of which holds a newline. */
  function SplitLines(content: string): (r: seq<string>)
    ensures |r| == |ReadLines(content)|
    ensures |content| > 0 <==> |r| > 0
    ensures forall k :: 0 <= k < |r| ==> Newline !in r[k]
  {
    ReadLinesShape(content);
    StripEachHasNoNewline(ReadLines(content));
    StripEach(ReadLines(content))
  }

  /** Stripping the final newline off lines of the shape file iteration
      yields leaves no newline at all. */
  lemma StripEachHasNoNewline(raw: seq<string>)
    requires WellShaped(raw)
    ensures forall k :: 0 <= k < |raw| ==> Newline !in StripEach(raw)[k]
  {
    forall k | 0 <= k < |raw|
      ensures Newline !in StripEach(raw)[k]
    {
      TrimLine(raw[k]);
    }
  }

  /** `rstrip('\n')` applied to every line. */
  function StripEach(raw: seq<string>): (r: seq<string>)
    ensures |r| == |raw|
  {
    seq(|raw|, k requires 0 <= k < |raw| => TrimEnd(raw[k], {Newline}))
  }

  lemma StripEachCons(line: string, rest: seq<string>)
    ensures StripEach([line] + rest) == [TrimEnd(line, {Newline})] + StripEach(rest)
  {
    var r := StripEach([line] + rest);
    assert r[1..] == StripEach(rest);
  }

  /** `"\n".join(lines)`. */
  function JoinLines(lines: seq<string>): string {
    Join([Newline], lines)
  }

  /** The content with one final newline removed, if it has one. */
  function DropFinalNewline(content: string): string {
    if |content| > 0 && content[|content| - 1] == Newline then content[..|content| - 1] else content
  }

  /** `rstrip('\n')` of a line with no newline before its last character
      removes at most that last character. */
  lemma TrimLine(line: string)
    requires |line| > 0 && Newline !in line[..|line| - 1]
    ensures TrimEnd(line, {Newline}) == DropFinalNewline(line)
  {
    var r := TrimEnd(line, {Newline});
    var n := |line|;
    if line[n - 1] == Newline {
      assert line[n - 1] in {Newline};
      if n >= 2 {
        assert line[n - 2] == line[..n - 1][n - 2];
        assert line[n - 2] !in {Newline};
      }
      assert |r| == n - 1;
    } else {
      assert line[n - 1] !in {Newline};
      assert |r| == n;
    }
  }

  /** How `SplitLines` takes apart content that contains a newline at `i`,
      the first one. */
  lemma SplitLinesAtFirstNewline(content: string, i: nat)
    requires i == Find(content, Newline)
    ensures SplitLines(content) == [content[..i]] + SplitLines(content[i + 1..])
  {
    var line := content[..i + 1];
    ReadLinesAtFirstNewline(content, i);
    StripEachCons(line, ReadLines(content[i + 1..]));
    assert line[..|line| - 1] == content[..i];
    assert forall j :: 0 <= j < i ==> line[..i][j] == content[j];
    TrimLine(line);
  }

  lemma ReadLinesAtFirstNewline(content: string, i: nat)
    requires i == Find(content, Newline)
    ensures ReadLines(content) == [content[..i + 1]] + ReadLines(content[i + 1..])
  {
    assert FirstLine(content) == content[..i + 1];
  }

  /** Content without a newline is a single line. */
  lemma SplitLinesNoNewline(content: string)
    requires |content| > 0 && Find(content, Newline) < 0
    ensures SplitLines(content) == [content]
  {
    assert ReadLines(content) == [content];
    assert forall j :: 0 <= j < |content| - 1 ==> content[..|content| - 1][j] == content[j];
    TrimLine(content);
  }

  /** Splitting content into lines and joining them with `"\n"` gives the
      content back, minus one trailing newline when it ends with one. */
  lemma {:induction false} JoinSplit(content: string)
    ensures JoinLines(SplitLines(content)) == DropFinalNewline(content)
    decreases |content|
  {
    if |content| == 0 {
      assert SplitLines(content) == [];
    } else {
      var i := Find(content, Newline);
      if i < 0 {
        SplitLinesNoNewline(content);
      } else {
        JoinSplit(content[i + 1..]);
        JoinSplitStep(content, i);
      }
    }
  }

  /** The step of `JoinSplit` past the first newline, at `i`. */
  lemma JoinSplitStep(content: string, i: nat)
    requires i == Find(content, Newline)
    requires JoinLines(SplitLines(content[i + 1..])) == DropFinalNewline(content[i + 1..])
    ensures JoinLines(SplitLines(content)) == DropFinalNewline(content)
  {
    SplitLinesAtFirstNewline(content, i);
    assert content == content[..i] + [Newline] + content[i + 1..];
    if i + 1 == |content| {
      LastLineEmpty(content[..i], content);
    } else {
      JoinCons(content[..i], SplitLines(content[i + 1..]));
      DropFinalNewlineOfConcat(content[..i] + [Newline], content[i + 1..]);
    }
  }

  lemma LastLineEmpty(first: string, content: string)
    requires content == first + [Newline]
    ensures SplitLines(content[|first| + 1..]) == []
    ensures JoinLines([first] + []) == DropFinalNewline(content)
  {
    assert content[|first| + 1..] == [];
    assert content[..|content| - 1] == first;
  }

  lemma JoinCons(line: string, rest: seq<string>)
    requires |rest| > 0
    ensures JoinLines([line] + rest) == line + [Newline] + JoinLines(rest)
  {
    assert ([line] + rest)[1..] == rest;
  }

  lemma DropFinalNewlineOfConcat(a: string, b: string)
    requires |b| > 0
    ensures DropFinalNewline(a + b) == a + DropFinalNewline(b)
  {
    assert (a + b)[|a + b| - 1] == b[|b| - 1];
    if b[|b| - 1] == Newline {
      assert (a + b)[..|a + b| - 1] == a + b[..|b| - 1];
    }
  }

  /** The condition under which splitting a join gives the list back: no
      line holds a newline, and the list is empty or its last line is not. */
  predicate Rejoinable(lines: seq<string>) {
    && (forall k :: 0 <= k < |lines| ==> Newline !in lines[k])
    && (|lines| == 0 || |lines[|lines| - 1]| > 0)
  }

  lemma {:induction false} SplitJoin(lines: seq<string>)
    requires Rejoinable(lines)
    ensures SplitLines(JoinLines(lines)) == lines
    decreases |lines|
  {
    if |lines| == 0 {
      assert JoinLines(lines) == [];
    } else if |lines| == 1 {
      assert JoinLines(lines) == lines[0];
      SplitLinesNoNewline(lines[0]);
    } else {
      var c := JoinLines(lines);
      FirstNewlineOfJoin(lines);
      SplitLinesAtFirstNewline(c, |lines[0]|);
      assert Rejoinable(lines[1..]);
      SplitJoin(lines[1..]);
    }
  }

  /** In the join of two or more lines without newlines, the first newline
      ends the first line, and what follows it is the join of the rest. */
  lemma FirstNewlineOfJoin(lines: seq<string>)
    requires |lines| >= 2 && Newline !in lines[0]
    ensures Find(JoinLines(lines), Newline) == |lines[0]|
    ensures JoinLines(lines)[..|lines[0]|] == lines[0]
    ensures JoinLines(lines)[|lines[0]| + 1..] == JoinLines(lines[1..])
  {
    var x := lines[0];
    var c := JoinLines(lines);
    assert c == x + [Newline] + JoinLines(lines[1..]);
    assert c[|x|] == Newline;
    assert forall j :: 0 <= j < |x| ==> c[j] == x[j];
  }

  /** A join of two or more lines whose last line is empty ends in a newline. */
  lemma {:induction false} JoinEndsWithNewline(lines: seq<string>)
    ensures |lines| >= 2 && lines[|lines| - 1] == [] ==>
              |JoinLines(lines)| > 0 && JoinLines(lines)[|JoinLines(lines)| - 1] == Newline
    decreases |lines|
  {
    if |lines| >= 2 && lines[|lines| - 1] == [] {
      var rest := lines[1..];
      assert JoinLines(lines) == lines[0] + [Newline] + JoinLines(rest);
      if |rest| >= 2 {
        JoinEndsWithNewline(rest);
      }
    }
  }

  /** Splitting a `"\n"`-join of a list gives the list back exactly when no
      line holds a newline and the list is empty or ends in a non-empty line. */
  lemma SplitJoinIff(lines: seq<string>)
    ensures SplitLines(JoinLines(lines)) == lines <==> Rejoinable(lines)
  {
    if Rejoinable(lines) {
      SplitJoin(lines);
    }
    var c := JoinLines(lines);
    if SplitLines(c) == lines {
      JoinSplit(c);
      assert DropFinalNewline(c) == c;
      JoinEndsWithNewline(lines);
      assert |lines| == 1 ==> c == lines[0];
      assert SplitLines([]) == [];
    }
  }
}
