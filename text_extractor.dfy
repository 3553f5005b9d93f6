/**
 * Text assembly after extraction (app.py:28-37). The PDF and DOCX parsers are
 * foreign code; what reaches this module is what they yield: the text of each
 * PDF page (`None` when a page has no text layer) or the text of each DOCX
 * paragraph.
 */
module TextExtractor {
  import opened Wrappers
  import opened PyStr

  /** `page.extract_text() or ''`: a page without text contributes the empty string. */
  function PageText(page: Option<string>): string {
    match page
    case None => ""
    case Some(t) => t
  }

  /** The text `extract_text_from_pdf` returns: every page's text, in order, with nothing between. */
  function PdfText(pages: seq<Option<string>>): string {
    if pages == [] then "" else PdfText(pages[..|pages| - 1]) + PageText(pages[|pages| - 1])
  }

  /** `extract_text_from_pdf` (app.py:28-33), accumulating into `text` page by page. */
  method ExtractPdf(pages: seq<Option<string>>) returns (text: string)
    ensures text == PdfText(pages)
  {
    text := "";
    for i := 0 to |pages|
      invariant text == PdfText(pages[..i])
    {
      assert pages[..i + 1][..i] == pages[..i];
      text := text + PageText(pages[i]);
    }
    assert pages[..|pages|] == pages;
  }

  /** The summed length of the pages' texts. */
  function TotalLength(pages: seq<Option<string>>): nat {
    if pages == [] then 0 else |PageText(pages[0])| + TotalLength(pages[1..])
  }

  /** Concatenating pages distributes over splitting the page list. */
  lemma {:induction false} PdfTextAppend(a: seq<Option<string>>, b: seq<Option<string>>)
    ensures PdfText(a + b) == PdfText(a) + PdfText(b)
    decreases |b|
  {
    if b == [] {
      assert a + b == a;
    } else {
      var n := |b| - 1;
      assert (a + b)[..|a + b| - 1] == a + b[..n];
      PdfTextAppend(a, b[..n]);
    }
  }

  /** The PDF text is as long as all page texts together: no separator is added. */
  lemma {:induction false} PdfTextLength(pages: seq<Option<string>>)
    ensures |PdfText(pages)| == TotalLength(pages)
    decreases |pages|
  {
    if pages != [] {
      assert pages == [pages[0]] + pages[1..];
      PdfTextAppend([pages[0]], pages[1..]);
      assert [pages[0]][..0] == [];
      PdfTextLength(pages[1..]);
    }
  }

  /** Page `i`'s text sits in the PDF text right after the text of the pages before it. */
  lemma PdfPageAt(pages: seq<Option<string>>, i: nat)
    requires i < |pages|
    ensures var start := |PdfText(pages[..i])|;
      && start + |PageText(pages[i])| <= |PdfText(pages)|
      && PdfText(pages)[start..start + |PageText(pages[i])|] == PageText(pages[i])
  {
    assert pages == pages[..i + 1] + pages[i + 1..];
    PdfTextAppend(pages[..i + 1], pages[i + 1..]);
    assert pages[..i + 1][..i] == pages[..i];
  }

  /** The PDF text is empty exactly when no page has any text. */
  lemma {:induction false} PdfTextEmpty(pages: seq<Option<string>>)
    ensures PdfText(pages) == "" <==> forall i :: 0 <= i < |pages| ==> PageText(pages[i]) == ""
    decreases |pages|
  {
    if pages != [] {
      var n := |pages| - 1;
      PdfTextEmpty(pages[..n]);
      assert forall i :: 0 <= i < n ==> pages[..n][i] == pages[i];
    }
  }

  /** `extract_text_from_docx` (app.py:35-37): the paragraphs joined by single spaces. */
  function DocxText(paragraphs: seq<string>): string {
    SpaceJoin(paragraphs)
  }

  function SumLengths(parts: seq<string>): nat {
    if parts == [] then 0 else |parts[0]| + SumLengths(parts[1..])
  }

  /** The number of `' '` characters in `s`. */
  function SpaceCount(s: string): nat {
    if s == [] then 0 else (if s[0] == ' ' then 1 else 0) + SpaceCount(s[1..])
  }

  lemma {:induction false} SpaceCountAppend(a: string, b: string)
    ensures SpaceCount(a + b) == SpaceCount(a) + SpaceCount(b)
    decreases |a|
  {
    if a == [] {
      assert a + b == b;
    } else {
      assert (a + b)[1..] == a[1..] + b;
      SpaceCountAppend(a[1..], b);
    }
  }

  /** With n >= 1 paragraphs the DOCX text holds the paragraphs' characters and
      exactly n - 1 added separators, also next to empty paragraphs. */
  lemma {:induction false} DocxSeparators(paragraphs: seq<string>)
    requires |paragraphs| >= 1
    ensures |DocxText(paragraphs)| == SumLengths(paragraphs) + |paragraphs| - 1
    ensures SpaceCount(DocxText(paragraphs)) == SumSpaceCounts(paragraphs) + |paragraphs| - 1
    decreases |paragraphs|
  {
    if |paragraphs| > 1 {
      var p := paragraphs[0];
      var rest := DocxText(paragraphs[1..]);
      DocxSeparators(paragraphs[1..]);
      SpaceCountAppend(p, " ");
      SpaceCountAppend(p + " ", rest);
    }
  }

  function SumSpaceCounts(parts: seq<string>): nat {
    if parts == [] then 0 else SpaceCount(parts[0]) + SumSpaceCounts(parts[1..])
  }

  /** Paragraph `i` sits in the DOCX text after the paragraphs before it and one
      space per earlier paragraph, and a single space follows it unless it is last. */
  lemma DocxParagraphAt(paragraphs: seq<string>, i: nat)
    requires i < |paragraphs|
    ensures var start := if i == 0 then 0 else |DocxText(paragraphs[..i])| + 1;
      var end := start + |paragraphs[i]|;
      && end <= |DocxText(paragraphs)|
      && DocxText(paragraphs)[start..end] == paragraphs[i]
      && (i + 1 < |paragraphs| ==> end < |DocxText(paragraphs)| && DocxText(paragraphs)[end] == ' ')
  {
    var n := |paragraphs|;
    var head := paragraphs[..i + 1];
    if i > 0 {
      assert head == paragraphs[..i] + [paragraphs[i]];
      SpaceJoinAppend(paragraphs[..i], [paragraphs[i]]);
    }
    if i + 1 < n {
      assert paragraphs == head + paragraphs[i + 1..];
      SpaceJoinAppend(head, paragraphs[i + 1..]);
    } else {
      assert paragraphs == head;
    }
  }

  /** The DOCX text is empty only for no paragraphs or a single empty one: two
      empty paragraphs already give a separator. */
  lemma DocxTextEmpty(paragraphs: seq<string>)
    ensures DocxText(paragraphs) == "" <==> |paragraphs| == 0 || (|paragraphs| == 1 && paragraphs[0] == "")
  {
    if |paragraphs| >= 2 {
      DocxSeparators(paragraphs);
    }
  }
}
