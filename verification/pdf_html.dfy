/** The HTML text `pdf_to_html` writes: `<html><body>`, then one paragraph
    per page in page order holding the page's extracted text with every
    newline replaced by `<br>`, then `</body></html>`. A page whose text
    extraction gives nothing (`None` or the empty string) contributes an empty
    paragraph. The text is not HTML-escaped, so the structure can be read back
    only from pages whose text has no `<`. */
module PdfHtml {
  import opened Common

  const Prologue: string := "<html><body>"
  const Epilogue: string := "</body></html>"
  const ParaOpen: string := "<p>"
  const ParaClose: string := "</p>"
  const Break: string := "<br>"

  /** `page.extract_text() or ''`. */
  function PageText(extracted: Option<string>): string {
    extracted.GetOr([])
  }

  /** The texts of all pages, in page order. */
  function PageTexts(pages: seq<Option<string>>): (r: seq<string>)
    ensures |r| == |pages|
  {
    seq(|pages|, k requires 0 <= k < |pages| => PageText(pages[k]))
  }

  /** What one character of a page text becomes in the file. */
  function BreakChar(c: char): string {
    if c == '\n' then Break else [c]
  }

  /** `text.replace('\n', '<br>')`. */
  function BreakLines(text: string): (r: string)
    ensures '\n' !in r
    ensures '\n' !in text ==> r == text
  {
    if |text| == 0 then []
    else BreakChar(text[0]) + BreakLines(text[1..])
  }

  /** `f"<p>{text.replace('\n', '<br>')}</p>"`. */
  function Paragraph(text: string): string {
    ParaOpen + BreakLines(text) + ParaClose
  }

  /** The paragraphs of all pages, in page order. */
  function Paragraphs(pages: seq<Option<string>>): (r: string)
    ensures '\n' !in r
  {
    if |pages| == 0 then [] else Paragraph(PageText(pages[0])) + Paragraphs(pages[1..])
  }

  /** The whole file `pdf_to_html` writes. */
  function RenderHtml(pages: seq<Option<string>>): (r: string)
    ensures '\n' !in r
    ensures |r| >= |Prologue| + |Epilogue|
    ensures r[..|Prologue|] == Prologue && r[|r| - |Epilogue|..] == Epilogue
  {
    var r := Prologue + Paragraphs(pages) + Epilogue;
    assert r[..|Prologue|] == Prologue;
    assert r[|r| - |Epilogue|..] == Epilogue;
    r
  }

  // ----- Reading the structure back -----

  /** Reads a paragraph body up to its `</p>`, turning each `<br>` back into a
      newline; fails on any other `<`. Returns the text and what follows. */
  function ParseBody(s: string): (r: Option<(string, string)>)
    ensures r.Some? ==> |r.value.1| < |s|
    decreases |s|
  {
    if |s| >= 4 && s[..4] == ParaClose then Some(([], s[4..]))
    else if |s| >= 4 && s[..4] == Break then
      match ParseBody(s[4..])
      case None => None
      case Some(p) => Some((['\n'] + p.0, p.1))
    else if |s| > 0 && s[0] != '<' then
      match ParseBody(s[1..])
      case None => None
      case Some(p) => Some(([s[0]] + p.0, p.1))
    else None
  }

  /** Reads a run of paragraphs that fills `s`. */
  function ParseParagraphs(s: string): Option<seq<string>>
    decreases |s|
  {
    if |s| == 0 then Some([])
    else if |s| >= 3 && s[..3] == ParaOpen then
      match ParseBody(s[3..])
      case None => None
      case Some(p) =>
        match ParseParagraphs(p.1)
        case None => None
        case Some(rest) => Some([p.0] + rest)
    else None
  }

  /** Reads a whole rendered file back into its page texts. */
  function ParseHtml(s: string): Option<seq<string>> {
    if |s| >= |Prologue| + |Epilogue| && s[..|Prologue|] == Prologue && s[|s| - |Epilogue|..] == Epilogue
    then ParseParagraphs(s[|Prologue|..|s| - |Epilogue|])
    else None
  }

  lemma {:induction false} ParseBodyOfBreakLines(text: string, rest: string)
    requires '<' !in text
    ensures ParseBody(BreakLines(text) + ParaClose + rest) == Some((text, rest))
    decreases |text|
  {
    if |text| == 0 {
      var s := BreakLines(text) + ParaClose + rest;
      assert s == ParaClose + rest;
      assert s[..4] == ParaClose;
      assert s[4..] == rest;
    } else {
      ParseBodyOfBreakLines(text[1..], rest);
      ParseBodyStep(text, rest);
    }
  }

  /** One step of reading a body back: the first character of the text. */
  lemma ParseBodyStep(text: string, rest: string)
    requires |text| > 0 && '<' !in text
    requires ParseBody(BreakLines(text[1..]) + ParaClose + rest) == Some((text[1..], rest))
    ensures ParseBody(BreakLines(text) + ParaClose + rest) == Some((text, rest))
  {
    var tail := BreakLines(text[1..]) + ParaClose + rest;
    BreakLinesUnfold(text, ParaClose, rest);
    ParseBodyAfterBreakChar(text[0], tail);
    assert [text[0]] + text[1..] == text;
  }

  lemma BreakLinesUnfold(text: string, mid: string, rest: string)
    requires |text| > 0
    ensures BreakLines(text) + mid + rest == BreakChar(text[0]) + (BreakLines(text[1..]) + mid + rest)
  {
    var e := BreakChar(text[0]);
    var b := BreakLines(text[1..]);
    assert BreakLines(text) == e + b;
    Regroup(e, b, mid, rest);
  }

  /** Reassociation, kept apart: stated inline in `BreakLinesUnfold`, the
      same step exhausts the solver's budget. */
  lemma Regroup(a: string, b: string, c: string, d: string)
    ensures a + b + c + d == a + (b + c + d)
  {
  }

  /** Reading back one escaped character `c` in front of `tail`. */
  lemma ParseBodyAfterBreakChar(c: char, tail: string)
    requires c != '<'
    ensures ParseBody(BreakChar(c) + tail) == match ParseBody(tail)
                                          case None => None
                                          case Some(p) => Some(([c] + p.0, p.1))
  {
    var s := BreakChar(c) + tail;
    if c == '\n' {
      assert s[..4] == Break;
      assert s[4..] == tail;
    } else {
      assert |s| >= 4 ==> s[..4][0] == c;
      assert s[1..] == tail;
    }
  }

  /** Every page text without a `<` is read back from the paragraphs. */
  predicate NoMarkupInText(pages: seq<Option<string>>) {
    forall k :: 0 <= k < |pages| ==> '<' !in PageText(pages[k])
  }

  lemma {:induction false} ParseParagraphsOfRender(pages: seq<Option<string>>)
    requires NoMarkupInText(pages)
    ensures ParseParagraphs(Paragraphs(pages)) == Some(PageTexts(pages))
    decreases |pages|
  {
    if |pages| > 0 {
      var text := PageText(pages[0]);
      var rest := Paragraphs(pages[1..]);
      var s := Paragraphs(pages);
      assert s == ParaOpen + (BreakLines(text) + ParaClose + rest);
      assert s[..3] == ParaOpen;
      assert s[3..] == BreakLines(text) + ParaClose + rest;
      ParseBodyOfBreakLines(text, rest);
      assert NoMarkupInText(pages[1..]) by {
        forall k | 0 <= k < |pages| - 1 ensures '<' !in PageText(pages[1..][k]) {
          assert pages[1..][k] == pages[k + 1];
        }
      }
      ParseParagraphsOfRender(pages[1..]);
      assert PageTexts(pages) == [text] + PageTexts(pages[1..]);
    }
  }

  /** The rendered file reads back as the page texts, in page order, one per
      page, when no page text holds a `<`. */
  lemma RenderHtmlReadsBack(pages: seq<Option<string>>)
    requires NoMarkupInText(pages)
    ensures ParseHtml(RenderHtml(pages)) == Some(PageTexts(pages))
    ensures |ParseHtml(RenderHtml(pages)).value| == |pages|
  {
    var r := RenderHtml(pages);
    assert r[|Prologue|..|r| - |Epilogue|] == Paragraphs(pages);
    ParseParagraphsOfRender(pages);
  }

  lemma {:induction false} BreakLinesConcat(a: string, b: string)
    ensures BreakLines(a + b) == BreakLines(a) + BreakLines(b)
    decreases |a|
  {
    if |a| > 0 {
      assert (a + b)[1..] == a[1..] + b;
      assert (a + b)[0] == a[0];
      BreakLinesConcat(a[1..], b);
      var piece := BreakChar(a[0]);
      assert BreakLines(a) == piece + BreakLines(a[1..]);
      assert BreakLines(a + b) == piece + BreakLines(a[1..] + b);
      assert BreakLines(a + b) == piece + (BreakLines(a[1..]) + BreakLines(b));
    } else {
      assert a + b == b;
    }
  }

  /** Replacing newlines is not undoable on its own: a page that already
      says `<br>` renders like a page with a line break. */
  lemma BreakLinesNotInjective()
    ensures BreakLines("a<br>b") == BreakLines("a\nb")
  {
    assert "a\nb" == "a" + "\n" + "b";
    BreakLinesConcat("a" + "\n", "b");
    BreakLinesConcat("a", "\n");
    assert BreakLines("\n") == Break;
    assert "a" + Break + "b" == "a<br>b";
  }

  // ----- Counting paragraph openers -----

  /** The number of places where `<p>` starts in `s`. */
  function CountOpeners(s: string): nat
    decreases |s|
  {
    if |s| < 3 then 0
    else (if s[..3] == ParaOpen then 1 else 0) + CountOpeners(s[1..])
  }

  /** Every `<` in `s` is followed, inside `s`, by something other than `p`. */
  predicate NoOpenerStart(s: string) {
    forall i :: 0 <= i < |s| && s[i] == '<' ==> i + 1 < |s| && s[i + 1] != 'p'
  }

  /** `s` does not end in a way that a following string could complete into
      a `<p>`. */
  predicate ClosedEnd(s: string) {
    |s| == 0 || (s[|s| - 1] != '<' && (|s| < 2 || s[|s| - 2..] != "<p"))
  }

  lemma {:induction false} CountConcat(a: string, b: string)
    requires ClosedEnd(a)
    ensures CountOpeners(a + b) == CountOpeners(a) + CountOpeners(b)
    decreases |a|
  {
    if |a| > 0 {
      if |a + b| < 3 {
        assert CountOpeners(b) == 0;
      } else {
        assert (a + b)[1..] == a[1..] + b;
        assert ClosedEnd(a[1..]) by {
          if |a| >= 3 {
            assert a[1..][|a| - 3..] == a[|a| - 2..];
          }
        }
        CountConcat(a[1..], b);
        if |a| >= 3 {
          assert (a + b)[..3] == a[..3];
        } else {
          assert CountOpeners(a) == 0 && CountOpeners(a[1..]) == 0;
          if |a| == 2 {
            assert a[|a| - 2..] == [(a + b)[0], (a + b)[1]];
          } else {
            assert (a + b)[0] == a[0];
          }
          assert (a + b)[..3] != ParaOpen;
        }
      }
    } else {
      assert a + b == b;
    }
  }

  lemma {:induction false} NoOpenerStartCount(s: string)
    requires NoOpenerStart(s)
    ensures CountOpeners(s) == 0
    ensures ClosedEnd(s)
    decreases |s|
  {
    if |s| >= 3 {
      assert s[..3] != ParaOpen by {
        if s[0] == '<' {
          assert s[1] != 'p';
        }
      }
      assert NoOpenerStart(s[1..]) by {
        forall i | 0 <= i < |s| - 1 && s[1..][i] == '<'
          ensures i + 1 < |s| - 1 && s[1..][i + 1] != 'p'
        {
          assert s[i + 1] == '<';
        }
      }
      NoOpenerStartCount(s[1..]);
    }
    if |s| >= 2 && s[|s| - 2] == '<' {
      assert s[|s| - 1] != 'p';
      assert s[|s| - 2..] != "<p" by { assert s[|s| - 2..][1] == s[|s| - 1]; }
    }
  }

  lemma NoOpenerStartConcat(a: string, b: string)
    requires NoOpenerStart(a) && NoOpenerStart(b)
    ensures NoOpenerStart(a + b)
  {
    forall i | 0 <= i < |a + b| && (a + b)[i] == '<'
      ensures i + 1 < |a + b| && (a + b)[i + 1] != 'p'
    {
      if i < |a| {
        assert a[i] == '<';
      } else {
        assert b[i - |a|] == '<';
      }
    }
  }

  lemma {:induction false} BreakLinesNoOpener(text: string)
    requires '<' !in text
    ensures NoOpenerStart(BreakLines(text))
    decreases |text|
  {
    if |text| > 0 {
      var piece := BreakChar(text[0]);
      assert NoOpenerStart(piece);
      BreakLinesNoOpener(text[1..]);
      NoOpenerStartConcat(piece, BreakLines(text[1..]));
    }
  }

  /** A paragraph of a `<`-free text holds exactly one `<p>`. */
  lemma ParagraphCount(text: string)
    requires '<' !in text
    ensures CountOpeners(Paragraph(text)) == 1
    ensures ClosedEnd(Paragraph(text))
  {
    var body := BreakLines(text) + ParaClose;
    BreakLinesNoOpener(text);
    assert NoOpenerStart(ParaClose);
    NoOpenerStartConcat(BreakLines(text), ParaClose);
    NoOpenerStartCount(body);
    assert ClosedEnd(ParaOpen);
    assert CountOpeners(ParaOpen) == 1;
    CountConcat(ParaOpen, body);
    assert Paragraph(text) == ParaOpen + body;
    var p := Paragraph(text);
    assert p[|p| - 2..] == "p>";
  }

  lemma {:induction false} ParagraphsCount(pages: seq<Option<string>>, tail: string)
    requires NoMarkupInText(pages)
    requires NoOpenerStart(tail)
    ensures CountOpeners(Paragraphs(pages) + tail) == |pages|
    decreases |pages|
  {
    if |pages| == 0 {
      assert Paragraphs(pages) + tail == tail;
      NoOpenerStartCount(tail);
    } else {
      var p := Paragraph(PageText(pages[0]));
      ParagraphCount(PageText(pages[0]));
      assert Paragraphs(pages) + tail == p + (Paragraphs(pages[1..]) + tail);
      CountConcat(p, Paragraphs(pages[1..]) + tail);
      assert NoMarkupInText(pages[1..]) by {
        forall k | 0 <= k < |pages| - 1 ensures '<' !in PageText(pages[1..][k]) {
          assert pages[1..][k] == pages[k + 1];
        }
      }
      ParagraphsCount(pages[1..], tail);
    }
  }

  /** The fixed pieces of the file hold no `<p>` and none can start one
      across its end; the opener itself counts once. Gathered in one lemma
      so that `MarkupInTextAddsOpeners` works from these facts alone. */
  lemma FixedPiecesCount()
    ensures NoOpenerStart(Prologue) && NoOpenerStart(Epilogue) && NoOpenerStart(ParaClose)
    ensures CountOpeners(ParaOpen) == 1 && ClosedEnd(ParaOpen)
  {
    assert CountOpeners(ParaOpen[1..]) == 0;
    PrologueNoOpener();
    EpilogueNoOpener();
  }

  lemma PrologueNoOpener()
    ensures NoOpenerStart(Prologue)
  {
    forall i | 0 <= i < |Prologue| && Prologue[i] == '<'
      ensures i + 1 < |Prologue| && Prologue[i + 1] != 'p'
    {
      assert i == 0 || i == 6;
    }
  }

  lemma EpilogueNoOpener()
    ensures NoOpenerStart(Epilogue)
  {
    forall i | 0 <= i < |Epilogue| && Epilogue[i] == '<'
      ensures i + 1 < |Epilogue| && Epilogue[i + 1] != 'p'
    {
      assert i == 0 || i == 7;
    }
  }

  /** A prefix that cannot start a `<p>` adds no opener. */
  lemma CountAfterPlainPrefix(prefix: string, s: string)
    requires NoOpenerStart(prefix)
    ensures CountOpeners(prefix + s) == CountOpeners(s)
  {
    NoOpenerStartCount(prefix);
    CountConcat(prefix, s);
  }

  /** The file holds exactly one `<p>` per page when no page text holds a `<`. */
  lemma RenderHtmlOpenerCount(pages: seq<Option<string>>)
    requires NoMarkupInText(pages)
    ensures CountOpeners(RenderHtml(pages)) == |pages|
  {
    PrologueNoOpener();
    EpilogueNoOpener();
    var body := Paragraphs(pages) + Epilogue;
    ParagraphsCount(pages, Epilogue);
    CountAfterPlainPrefix(Prologue, body);
    assert RenderHtml(pages) == Prologue + body;
  }

  /** Without that condition the count is off: a page whose text is `<p>`
      gives two openers for one page. */
  lemma MarkupInTextAddsOpeners()
    ensures CountOpeners(RenderHtml([Some("<p>")])) == 2
  {
    FixedPiecesCount();
    var tail := ParaClose + Epilogue;
    NoOpenerStartConcat(ParaClose, Epilogue);
    NoOpenerStartCount(tail);
    assert BreakLines(ParaOpen) == ParaOpen;
    var pages := [Some("<p>")];
    assert Paragraphs(pages) == Paragraph(ParaOpen) + Paragraphs([]);
    assert RenderHtml(pages) == Prologue + (ParaOpen + (ParaOpen + tail));
    CountConcat(ParaOpen, tail);
    CountConcat(ParaOpen, ParaOpen + tail);
    NoOpenerStartCount(Prologue);
    CountConcat(Prologue, ParaOpen + (ParaOpen + tail));
  }
}
