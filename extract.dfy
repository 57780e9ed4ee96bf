/**
 * Page assembly of ingestion/extract.py. The PDF library is replaced by its results: a
 * page is the list of text blocks that extractBLOCKS returns for it, and the OCR of the
 * rendered page (`_ocr_page`) is an oracle, a function from pages to text.
 */
module Extract {
  import opened Text
  import opened Normalizer

  /**
   * One text block: the top-left corner of its bounding box and its text. Coordinates are
   * integers standing for the values rounded to two decimals that the sort key uses.
   */
  datatype Block = Block(x0: int, y0: int, text: string)

  /** A PDF page: its position in the document and its text blocks in library order. */
  datatype Page = Page(number: nat, blocks: seq<Block>)

  /** A Word paragraph: its text and whether one of its runs holds an explicit page break. */
  datatype Paragraph = Paragraph(text: string, hasPageBreak: bool)

  /** The separator placed between page texts: a form feed framed by blank lines. */
  const PageSeparator: string := "\n\n\U{000C}\n\n"

  // ---------------------------------------------------------------------------------------
  // _blocks_text: stable sort by (y, x), drop empty blocks, join with a blank line

  /** The sort key (round(y0, 2), round(x0, 2)), compared lexicographically. */
  predicate KeyLe(a: Block, b: Block)
  {
    a.y0 < b.y0 || (a.y0 == b.y0 && a.x0 <= b.x0)
  }

  predicate SameKey(a: Block, b: Block)
  {
    a.y0 == b.y0 && a.x0 == b.x0
  }

  predicate SortedByKey(bs: seq<Block>)
  {
    forall i, j :: 0 <= i < j < |bs| ==> KeyLe(bs[i], bs[j])
  }

  /** A lower bound of a list and of b bounds every list holding the same blocks and b. */
  lemma InsertedAbove(lo: Block, b: Block, bs: seq<Block>, r: seq<Block>)
    requires forall j :: 0 <= j < |bs| ==> KeyLe(lo, bs[j])
    requires KeyLe(lo, b)
    requires multiset(r) == multiset(bs) + multiset{b}
    ensures forall j :: 0 <= j < |r| ==> KeyLe(lo, r[j])
  {
    forall j | 0 <= j < |r| ensures KeyLe(lo, r[j]) {
      assert r[j] in multiset(r);
      if r[j] != b {
        assert r[j] in multiset(bs);
        var k :| 0 <= k < |bs| && bs[k] == r[j];
      }
    }
  }

  /** A list holds its head and its tail. */
  lemma HeadAndTail(bs: seq<Block>)
    requires bs != []
    ensures multiset(bs) == multiset{bs[0]} + multiset(bs[1..])
  {
    assert bs == [bs[0]] + bs[1..];
  }

  /** A block below every block of a sorted list can go in front of it. */
  lemma ConsSorted(lo: Block, bs: seq<Block>)
    requires SortedByKey(bs)
    requires forall j :: 0 <= j < |bs| ==> KeyLe(lo, bs[j])
    ensures SortedByKey([lo] + bs)
  {
    var r := [lo] + bs;
    forall i, j | 0 <= i < j < |r| ensures KeyLe(r[i], r[j]) {
      assert r[j] == bs[j - 1];
      if i > 0 {
        assert r[i] == bs[i - 1];
      }
    }
  }

  /** Inserts b in front of the first block whose key is not smaller than b's. */
  function InsertByKey(b: Block, sorted: seq<Block>): (r: seq<Block>)
    requires SortedByKey(sorted)
    ensures SortedByKey(r)
    ensures multiset(r) == multiset(sorted) + multiset{b}
  {
    if sorted == [] || KeyLe(b, sorted[0]) then [b] + sorted
    else
      var rest := InsertByKey(b, sorted[1..]);
      HeadAndTail(sorted);
      InsertedAbove(sorted[0], b, sorted[1..], rest);
      ConsSorted(sorted[0], rest);
      [sorted[0]] + rest
  }

  /** blocks.sort(key=...): Python's sort is stable, and so is this insertion sort. */
  function SortByKey(bs: seq<Block>): (r: seq<Block>)
    ensures SortedByKey(r)
    ensures multiset(r) == multiset(bs)
  {
    if bs == [] then []
    else
      assert bs == [bs[0]] + bs[1..];
      InsertByKey(bs[0], SortByKey(bs[1..]))
  }

  /** The blocks of bs whose key equals that of `like`, in their order in bs. */
  function WithKeyOf(bs: seq<Block>, like: Block): seq<Block>
  {
    if bs == [] then []
    else (if SameKey(bs[0], like) then [bs[0]] else []) + WithKeyOf(bs[1..], like)
  }

  lemma {:induction false} InsertKeepsKeyOrder(b: Block, sorted: seq<Block>, like: Block)
    requires SortedByKey(sorted)
    ensures WithKeyOf(InsertByKey(b, sorted), like)
         == (if SameKey(b, like) then [b] else []) + WithKeyOf(sorted, like)
  {
    if sorted == [] || KeyLe(b, sorted[0]) {
      assert ([b] + sorted)[1..] == sorted;
    } else {
      var r := InsertByKey(b, sorted);
      assert r[1..] == InsertByKey(b, sorted[1..]);
      InsertKeepsKeyOrder(b, sorted[1..], like);
    }
  }

  /**
   * The sort is stable: blocks with equal keys keep their input order. Together with
   * SortedByKey this fixes the sorted list completely.
   */
  lemma {:induction false} SortIsStable(bs: seq<Block>, like: Block)
    ensures WithKeyOf(SortByKey(bs), like) == WithKeyOf(bs, like)
  {
    if bs != [] {
      SortIsStable(bs[1..], like);
      InsertKeepsKeyOrder(bs[0], SortByKey(bs[1..]), like);
    }
  }

  /** [(b.text or "").strip() for b in blocks if (b.text or "").strip()]. */
  function NonEmptyTexts(bs: seq<Block>): (parts: seq<string>)
    ensures |parts| <= |bs|
    ensures forall k :: 0 <= k < |parts| ==> parts[k] != [] && Strip(parts[k]) == parts[k]
  {
    if bs == [] then []
    else
      var t := Strip(bs[0].text);
      StripIdempotent(bs[0].text);
      (if t != [] then [t] else []) + NonEmptyTexts(bs[1..])
  }

  /**
   * The comprehension is an order-preserving filter and map: one more block adds its
   * stripped text at the end when that text is non-empty, and nothing otherwise.
   */
  lemma {:induction false} NonEmptyTextsAppend(bs: seq<Block>, b: Block)
    ensures NonEmptyTexts(bs + [b]) ==
      NonEmptyTexts(bs) + (if Strip(b.text) != [] then [Strip(b.text)] else [])
    decreases |bs|
  {
    if bs == [] {
      assert [b][1..] == [];
    } else {
      assert (bs + [b])[0] == bs[0];
      assert (bs + [b])[1..] == bs[1..] + [b];
      NonEmptyTextsAppend(bs[1..], b);
    }
  }

  /** No text survives exactly when every block is blank. */
  lemma {:induction false} NonEmptyTextsEmpty(bs: seq<Block>)
    ensures NonEmptyTexts(bs) == [] <==> forall i :: 0 <= i < |bs| ==> IsBlank(bs[i].text)
  {
    if bs != [] {
      StripFacts(bs[0].text);
      NonEmptyTextsEmpty(bs[1..]);
      assert forall i :: 1 <= i < |bs| ==> bs[i] == bs[1..][i - 1];
    }
  }

  /** _blocks_text. Its text needs no further strip; BlocksTextShape says when it is empty. */
  function BlocksText(blocks: seq<Block>): (text: string)
    ensures Strip(text) == text
  {
    JoinOfStrippedIsStripped("\n\n", NonEmptyTexts(SortByKey(blocks)));
    Join("\n\n", NonEmptyTexts(SortByKey(blocks)))
  }

  /** The page text of _blocks_text is empty exactly when every block of the page is blank. */
  lemma BlocksTextShape(blocks: seq<Block>)
    ensures BlocksText(blocks) == [] <==> forall i :: 0 <= i < |blocks| ==> IsBlank(blocks[i].text)
  {
    var sorted := SortByKey(blocks);
    JoinOfStrippedIsStripped("\n\n", NonEmptyTexts(sorted));
    NonEmptyTextsEmpty(sorted);
    assert forall i :: 0 <= i < |sorted| ==> sorted[i] in multiset(blocks);
    assert forall i :: 0 <= i < |blocks| ==> blocks[i] in multiset(sorted);
  }

  // ---------------------------------------------------------------------------------------
  // extract_pdf_text

  /**
   * The text kept for one page: its block text, or the OCR text when that is empty. Either
   * way it is stripped.
   */
  function PagePart(page: Page, ocr: Page -> string): (part: string)
    ensures Strip(part) == part
  {
    StripIdempotent(ocr(page));
    var txt := Strip(BlocksText(page.blocks));
    if txt == [] then Strip(ocr(page)) else txt
  }

  /** One part per page, in page order. */
  function PageParts(pages: seq<Page>, ocr: Page -> string): (parts: seq<string>)
    ensures |parts| == |pages|
  {
    if pages == [] then [] else PageParts(pages[..|pages| - 1], ocr) + [PagePart(pages[|pages| - 1], ocr)]
  }

  /**
   * The whole-document text: parts joined by the page separator, stripped, normalised once.
   * It is in normal form: no "\r", no curly quote, no three line feeds in a row.
   */
  function PdfText(pages: seq<Page>, ocr: Page -> string): (text: string)
    ensures InNormalForm(text)
  {
    NormalFormShape(Strip(Join(PageSeparator, PageParts(pages, ocr))));
    Normalize(Strip(Join(PageSeparator, PageParts(pages, ocr))))
  }

  /** extract_pdf_text, with the opened document given as its list of pages. */
  method ExtractPdfText(pages: seq<Page>, ocr: Page -> string) returns (text: string)
    ensures text == PdfText(pages, ocr)
  {
    var outParts: seq<string> := [];
    for i := 0 to |pages|
      invariant outParts == PageParts(pages[..i], ocr)
    {
      var txt := Strip(BlocksText(pages[i].blocks));
      if txt == [] {
        txt := Strip(ocr(pages[i]));
      }
      assert pages[..i + 1][..i] == pages[..i];
      outParts := outParts + [txt];
    }
    assert pages[..|pages|] == pages;
    var raw := Strip(Join(PageSeparator, outParts));
    text := Normalize(raw);
  }

  /** Part k of the assembled text belongs to page k. */
  lemma {:induction false} PagePartsAt(pages: seq<Page>, ocr: Page -> string, k: nat)
    requires k < |pages|
    ensures PageParts(pages, ocr)[k] == PagePart(pages[k], ocr)
  {
    if k < |pages| - 1 {
      PagePartsAt(pages[..|pages| - 1], ocr, k);
    }
  }

  /**
   * The OCR oracle matters for a page exactly when the page's block text is empty: a page
   * with text gives the same part whatever the OCR would say, and a page without text gives
   * the stripped OCR output.
   */
  lemma OcrOnlyWhenNoText(page: Page, ocr: Page -> string, other: Page -> string)
    ensures BlocksText(page.blocks) != [] ==>
      PagePart(page, ocr) == PagePart(page, other) == BlocksText(page.blocks)
    ensures BlocksText(page.blocks) == [] ==> PagePart(page, ocr) == Strip(ocr(page))
  {
    BlocksTextShape(page.blocks);
  }

  /** A document whose every page has a text layer is extracted without consulting the OCR. */
  lemma {:induction false} TextLayerNeedsNoOcr(pages: seq<Page>, ocr: Page -> string, other: Page -> string)
    requires forall k :: 0 <= k < |pages| ==> BlocksText(pages[k].blocks) != []
    ensures PageParts(pages, ocr) == PageParts(pages, other)
    ensures PdfText(pages, ocr) == PdfText(pages, other)
  {
    if pages != [] {
      TextLayerNeedsNoOcr(pages[..|pages| - 1], ocr, other);
      OcrOnlyWhenNoText(pages[|pages| - 1], ocr, other);
    }
  }

  /**
   * Two OCR oracles that agree on the pages without a text layer give the same parts: the
   * OCR result of a page reaches that page's part and no other.
   */
  lemma {:induction false} OcrReachesOnlyItsPage(pages: seq<Page>, ocr: Page -> string, other: Page -> string)
    requires forall k :: 0 <= k < |pages| && BlocksText(pages[k].blocks) == [] ==> ocr(pages[k]) == other(pages[k])
    ensures PageParts(pages, ocr) == PageParts(pages, other)
  {
    if pages != [] {
      OcrReachesOnlyItsPage(pages[..|pages| - 1], ocr, other);
      OcrOnlyWhenNoText(pages[|pages| - 1], ocr, other);
    }
  }

  // ---------------------------------------------------------------------------------------
  // extract_docx_text

  function ParagraphTexts(paragraphs: seq<Paragraph>): (texts: seq<string>)
    ensures |texts| == |paragraphs|
    ensures forall k :: 0 <= k < |texts| ==> texts[k] == paragraphs[k].text
  {
    if paragraphs == [] then [] else [paragraphs[0].text] + ParagraphTexts(paragraphs[1..])
  }

  /** extract_docx_text: paragraph texts joined by single line feeds, normalised once. */
  function DocxText(paragraphs: seq<Paragraph>): (text: string)
    ensures InNormalForm(text)
  {
    NormalFormShape(Join("\n", ParagraphTexts(paragraphs)));
    Normalize(Join("\n", ParagraphTexts(paragraphs)))
  }

  /** The Word path keeps no page structure: page-break markers do not change the text. */
  lemma DocxTextIgnoresPageBreaks(paragraphs: seq<Paragraph>, others: seq<Paragraph>)
    requires |paragraphs| == |others|
    requires forall k :: 0 <= k < |paragraphs| ==> paragraphs[k].text == others[k].text
    ensures DocxText(paragraphs) == DocxText(others)
  {
    assert ParagraphTexts(paragraphs) == ParagraphTexts(others);
  }
}
