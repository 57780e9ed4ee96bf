/**
 * The string logic of routes/corpus.py: the upload filter, the suffix dispatch to an
 * extractor, the gathering of a Word document's first-page snippet, the clean-up of the
 * title a language model returns, and the path under which add_doc stores an upload.
 * The language model, the PDF and Word libraries, the clock, uuid4 and the file system are
 * parameters.
 */
module Corpus {
  import opened Wrappers
  import opened Text
  import opened Hashing
  import opened Extract
  import opened Database

  /** ALLOWED_EXTENSIONS. */
  const AllowedExtensions: set<string> := {"pdf", "doc", "docx"}

  /** The title returned whenever none can be found. */
  const Unknown: string := "Unknown"

  /** The text _get_text returns for a path with no known suffix. */
  const Untitled: string := "Untitled"

  /** The character budget of a title snippet. */
  const CharLimit: nat := 8000

  /** The longest title that is accepted. */
  const MaxTitleLength: nat := 200

  /** The characters title_line.strip('"\' ') removes. */
  const TitleQuotes: set<char> := {'"', '\'', ' '}

  // ---------------------------------------------------------------------------------------
  // allowed_file

  /** The index of the last '.' of f, if any. */
  function LastDot(f: string): (r: Option<nat>)
    ensures r.Some? ==> r.value < |f| && f[r.value] == '.' && forall j :: r.value < j < |f| ==> f[j] != '.'
    ensures r.None? ==> forall j :: 0 <= j < |f| ==> f[j] != '.'
  {
    if f == [] then None
    else if f[|f| - 1] == '.' then Some(|f| - 1)
    else LastDot(f[..|f| - 1])
  }

  /**
   * f.rsplit('.', 1)[1] when f holds a '.': the text after the last '.', which is a suffix
   * of f behind a '.' and holds no '.' itself.
   */
  function Extension(f: string): (ext: Option<string>)
    ensures ext.None? <==> '.' !in f
    ensures ext.Some? ==> EndsWith(f, "." + ext.value) && '.' !in ext.value
  {
    match LastDot(f)
    case None => None
    case Some(i) =>
      assert f[i..] == "." + f[i + 1..];
      Some(f[i + 1..])
  }

  /**
   * allowed_file: a file name is allowed exactly when it has a '.' after which no other '.'
   * follows and the text after it, lower-cased, is pdf, doc or docx.
   */
  predicate AllowedFile(filename: string)
    ensures AllowedFile(filename) <==>
      exists i :: 0 <= i < |filename| && filename[i] == '.' &&
        (forall j :: i < j < |filename| ==> filename[j] != '.') &&
        Lower(filename[i + 1..]) in AllowedExtensions
  {
    match Extension(filename)
    case None => false
    case Some(ext) => Lower(ext) in AllowedExtensions
  }

  lemma NoDotIsRejected()
    ensures !AllowedFile("report")
  {
  }

  lemma UpperCaseExtensionIsAllowed()
    ensures AllowedFile("x.PDF")
  {
    var f := "x.PDF";
    assert f[1] == '.' && f[2] != '.' && f[3] != '.' && f[4] != '.';
    assert LastDot(f) == Some(1);
    assert f[2..] == "PDF" && Lower("PDF") == "pdf";
  }

  lemma EmptyExtensionIsRejected()
    ensures !AllowedFile("file.")
  {
    assert "file."[4] == '.';
    assert LastDot("file.") == Some(4);
  }

  /** Only the text after the last dot counts: an earlier dot does not stop a .docx. */
  lemma LastExtensionAllowsDocx()
    ensures AllowedFile("notes.v2.docx")
  {
    var f := "notes.v2.docx";
    assert f[8] == '.' && f[9] != '.' && f[10] != '.' && f[11] != '.' && f[12] != '.';
    assert LastDot(f) == Some(8);
    assert f[9..] == "docx" && Lower("docx") == "docx";
  }

  /** Only the text after the last dot counts: an earlier ".pdf" does not admit an .exe. */
  lemma LastExtensionRejectsExe()
    ensures !AllowedFile("scan.pdf.exe")
  {
    var g := "scan.pdf.exe";
    assert g[8] == '.' && g[9] != '.' && g[10] != '.' && g[11] != '.';
    assert LastDot(g) == Some(8);
    assert g[9..] == "exe" && Lower("exe") == "exe";
  }

  // ---------------------------------------------------------------------------------------
  // _get_text

  datatype Extractor = PdfExtractor | DocxExtractor | NoExtractor

  /** The extractor _get_text chooses: a case-sensitive test of the path's suffix. */
  function SelectExtractor(path: string): (e: Extractor)
    ensures e == PdfExtractor <==> EndsWith(path, ".pdf")
    ensures e == DocxExtractor <==> !EndsWith(path, ".pdf") && (EndsWith(path, ".doc") || EndsWith(path, ".docx"))
  {
    if EndsWith(path, ".pdf") then PdfExtractor
    else if EndsWith(path, ".doc") || EndsWith(path, ".docx") then DocxExtractor
    else NoExtractor
  }

  /**
   * _get_text: extract_pdf_text or extract_docx_text of the file at path, which are given as
   * functions of the path, or the literal "Untitled".
   */
  function GetText(path: string, pdfText: string -> string, docxText: string -> string): (text: string)
    ensures SelectExtractor(path) == NoExtractor ==> text == Untitled
  {
    match SelectExtractor(path)
    case PdfExtractor => pdfText(path)
    case DocxExtractor => docxText(path)
    case NoExtractor => Untitled
  }

  /** The suffix test is case-sensitive: an upper-case suffix reaches no extractor. */
  lemma UpperCaseSuffixIsUntitled(pdfText: string -> string, docxText: string -> string)
    ensures GetText("report.PDF", pdfText, docxText) == Untitled
    ensures GetText("report.DOCX", pdfText, docxText) == Untitled
    ensures SelectExtractor("report.docx") == DocxExtractor
  {
    assert "report.PDF"[6..] == ".PDF";
    assert "report.DOCX"[6..] == ".DOCX" && "report.DOCX"[7..] == "DOCX";
    assert "report.docx"[6..] == ".docx" && "report.docx"[7..] == "docx";
  }

  // ---------------------------------------------------------------------------------------
  // The snippet loop of _extract_docx_title

  /** A paragraph as the loop sees it: its stripped text and whether it holds a page break. */
  datatype Line = Line(text: string, pageBreak: bool)

  /** The paragraphs of a document, each stripped. */
  function Lines(paras: seq<Paragraph>): (lines: seq<Line>)
    ensures |lines| == |paras|
  {
    seq(|paras|, k requires 0 <= k < |paras| => Line(Strip(paras[k].text), paras[k].hasPageBreak))
  }

  /** Every stripped text is already stripped, so what the loop keeps needs no further strip. */
  lemma LinesAreStripped(paras: seq<Paragraph>)
    ensures forall k :: 0 <= k < |paras| ==> Strip(Lines(paras)[k].text) == Lines(paras)[k].text
  {
    forall k | 0 <= k < |paras| ensures Strip(Lines(paras)[k].text) == Lines(paras)[k].text {
      StripIdempotent(paras[k].text);
    }
  }

  /** What the loop appends for one paragraph: its stripped text, unless that is empty. */
  function Kept(line: Line): (kept: seq<string>)
    ensures |kept| <= 1
  {
    if line.text != [] then [line.text] else []
  }

  /** The snippets gathered from the first n lines: their non-empty texts, in order. */
  function Gathered(lines: seq<Line>, n: nat): (texts: seq<string>)
    requires n <= |lines|
    ensures |texts| <= n
  {
    if n == 0 then [] else Gathered(lines, n - 1) + Kept(lines[n - 1])
  }

  /** The loop's running total after n lines: the lengths of their texts. */
  function GatheredLength(lines: seq<Line>, n: nat): nat
    requires n <= |lines|
  {
    if n == 0 then 0 else GatheredLength(lines, n - 1) + |lines[n - 1].text|
  }

  /** Each gathered snippet is a non-empty text of one of the lines. */
  lemma {:induction false} GatheredFromLines(lines: seq<Line>, n: nat)
    requires n <= |lines|
    ensures forall k :: 0 <= k < |Gathered(lines, n)| ==>
      Gathered(lines, n)[k] != [] && exists j :: 0 <= j < n && Gathered(lines, n)[k] == lines[j].text
  {
    if n > 0 {
      GatheredFromLines(lines, n - 1);
      var before := Gathered(lines, n - 1);
      forall k | 0 <= k < |Gathered(lines, n)|
        ensures Gathered(lines, n)[k] != [] && exists j :: 0 <= j < n && Gathered(lines, n)[k] == lines[j].text
      {
        if k < |before| {
          assert Gathered(lines, n)[k] == before[k];
        } else {
          assert Gathered(lines, n)[k] == lines[n - 1].text;
        }
      }
    }
  }

  /** The sum of the lengths of some texts. */
  function TotalLength(texts: seq<string>): nat
  {
    if texts == [] then 0 else TotalLength(texts[..|texts| - 1]) + |texts[|texts| - 1]|
  }

  lemma TotalLengthAppend(texts: seq<string>, kept: seq<string>)
    requires |kept| <= 1
    ensures TotalLength(texts + kept) == TotalLength(texts) + if kept == [] then 0 else |kept[0]|
  {
    if kept == [] {
      assert texts + kept == texts;
    } else {
      assert (texts + kept)[..|texts|] == texts;
    }
  }

  /** Skipping the empty texts does not change the total: it is the length of the snippets. */
  lemma {:induction false} GatheredLengthIsTotal(lines: seq<Line>, n: nat)
    requires n <= |lines|
    ensures TotalLength(Gathered(lines, n)) == GatheredLength(lines, n)
  {
    if n > 0 {
      GatheredLengthIsTotal(lines, n - 1);
      TotalLengthAppend(Gathered(lines, n - 1), Kept(lines[n - 1]));
    }
  }

  /** What is gathered from the first n lines depends on those lines only. */
  lemma {:induction false} GatheredAgrees(lines: seq<Line>, others: seq<Line>, n: nat)
    requires n <= |lines| && n <= |others|
    requires forall k :: 0 <= k < n ==> lines[k] == others[k]
    ensures Gathered(lines, n) == Gathered(others, n)
  {
    if n > 0 {
      GatheredAgrees(lines, others, n - 1);
    }
  }

  /**
   * How many lines the loop reads when it reaches line i with `total` characters gathered:
   * it stops after a line with a page break or once the total reaches the budget.
   */
  function ReadFrom(lines: seq<Line>, i: nat, total: nat): (n: nat)
    requires i <= |lines|
    ensures i <= n <= |lines|
    ensures i < |lines| ==> i < n
    decreases |lines| - i
  {
    if i == |lines| then |lines|
    else
      var total' := total + |lines[i].text|;
      if lines[i].pageBreak || total' >= CharLimit then i + 1 else ReadFrom(lines, i + 1, total')
  }

  /** The number of paragraphs the snippet loop reads. */
  function ReadCount(lines: seq<Line>): nat
  {
    ReadFrom(lines, 0, 0)
  }

  /**
   * Whether the loop stops after line j: it holds an explicit page break, or the texts
   * gathered up to and including it reach the budget.
   */
  predicate StopsAt(lines: seq<Line>, j: nat)
    requires j < |lines|
  {
    lines[j].pageBreak || GatheredLength(lines, j + 1) >= CharLimit
  }

  /**
   * The loop reads up to the first line after which it stops, and no further: no line before
   * the last one read stops it, and the last one read does unless the lines ran out.
   */
  lemma {:induction false} ReadFromStops(lines: seq<Line>, i: nat)
    requires i <= |lines|
    ensures forall j :: i <= j < ReadFrom(lines, i, GatheredLength(lines, i)) - 1 ==> !StopsAt(lines, j)
    ensures ReadFrom(lines, i, GatheredLength(lines, i)) < |lines| ==>
      StopsAt(lines, ReadFrom(lines, i, GatheredLength(lines, i)) - 1)
    decreases |lines| - i
  {
    if i < |lines| && !StopsAt(lines, i) {
      ReadFromStops(lines, i + 1);
    }
  }

  /** The loop's stop rule, from the first line on. */
  lemma ReadCountStops(lines: seq<Line>)
    ensures ReadCount(lines) <= |lines| && (lines != [] ==> 0 < ReadCount(lines))
    ensures forall j :: 0 <= j < ReadCount(lines) - 1 ==> !StopsAt(lines, j)
    ensures ReadCount(lines) < |lines| ==> StopsAt(lines, ReadCount(lines) - 1)
  {
    ReadFromStops(lines, 0);
  }

  /** How far the loop reads depends only on the lines it reads. */
  lemma {:induction false} ReadFromLooksNoFurther(lines: seq<Line>, others: seq<Line>, i: nat, total: nat)
    requires i <= |lines| && ReadFrom(lines, i, total) <= |others|
    requires forall k :: 0 <= k < ReadFrom(lines, i, total) ==> lines[k] == others[k]
    requires ReadFrom(lines, i, total) < |lines| || |others| == |lines|
    ensures i <= |others| && ReadFrom(others, i, total) == ReadFrom(lines, i, total)
    decreases |lines| - i
  {
    if i < |lines| {
      var total' := total + |lines[i].text|;
      if !(lines[i].pageBreak || total' >= CharLimit) {
        ReadFromLooksNoFurther(lines, others, i + 1, total');
      }
    }
  }

  /** One turn of the loop, as the definitions above describe it. */
  lemma GatherStep(lines: seq<Line>, i: nat)
    requires i < |lines|
    ensures Gathered(lines, i + 1) == Gathered(lines, i) + Kept(lines[i])
    ensures GatheredLength(lines, i + 1) == GatheredLength(lines, i) + |lines[i].text|
    ensures ReadFrom(lines, i, GatheredLength(lines, i)) ==
      if lines[i].pageBreak || GatheredLength(lines, i + 1) >= CharLimit then i + 1
      else ReadFrom(lines, i + 1, GatheredLength(lines, i + 1))
  {
  }

  /**
   * The loop over doc.paragraphs: the gathered snippets are the stripped non-empty texts of
   * the paragraphs it reads, and total is the length of the stripped texts it read, which
   * GatheredLengthIsTotal shows to be the sum of the snippets' lengths.
   */
  method GatherSnippets(paras: seq<Paragraph>) returns (snippets: seq<string>, total: nat)
    ensures snippets == Gathered(Lines(paras), ReadCount(Lines(paras)))
    ensures total == GatheredLength(Lines(paras), ReadCount(Lines(paras)))
  {
    ghost var lines := Lines(paras);
    snippets, total := [], 0;
    for i := 0 to |paras|
      invariant snippets == Gathered(lines, i)
      invariant total == GatheredLength(lines, i)
      invariant ReadFrom(lines, i, total) == ReadCount(lines)
    {
      var txt := Strip(paras[i].text);
      assert lines[i] == Line(txt, paras[i].hasPageBreak);
      GatherStep(lines, i);
      if txt != [] {
        snippets := snippets + [txt];
        total := total + |txt|;
      } else {
        assert snippets + [] == snippets;
      }
      if paras[i].hasPageBreak || total >= CharLimit {
        return;
      }
    }
  }

  /** s[:n]. */
  function Prefix(s: string, n: nat): (r: string)
    ensures |r| == if |s| <= n then |s| else n
    ensures r == s[..|r|]
  {
    if |s| <= n then s else s[..n]
  }

  /** "\n".join(snippets)[:8000].strip(), None when that is empty. */
  function Snippet(snippets: seq<string>): (r: Option<string>)
    ensures r.Some? ==> 0 < |r.value| <= CharLimit && Strip(r.value) == r.value
  {
    var s := Strip(Prefix(Join("\n", snippets), CharLimit));
    StripIdempotent(Prefix(Join("\n", snippets), CharLimit));
    if s == [] then None else Some(s)
  }

  /** Every snippet the loop gathers is non-empty and already stripped. */
  lemma GatheredIsStripped(paras: seq<Paragraph>, n: nat)
    requires n <= |paras|
    ensures forall k :: 0 <= k < |Gathered(Lines(paras), n)| ==>
      Gathered(Lines(paras), n)[k] != [] && Strip(Gathered(Lines(paras), n)[k]) == Gathered(Lines(paras), n)[k]
  {
    GatheredFromLines(Lines(paras), n);
    LinesAreStripped(paras);
  }

  /** Gathered snippets always give a snippet: the "empty snippet" exit cannot be taken. */
  lemma GatheredSnippetIsSome(snippets: seq<string>)
    requires snippets != []
    requires forall k :: 0 <= k < |snippets| ==> snippets[k] != [] && Strip(snippets[k]) == snippets[k]
    ensures Snippet(snippets).Some?
  {
    var p := Prefix(Join("\n", snippets), CharLimit);
    StripFacts(snippets[0]);
    assert p[0] == Join("\n", snippets)[0] == snippets[0][0];
    StripFacts(p);
  }

  // ---------------------------------------------------------------------------------------
  // The title sanitiser (duplicated for the Word and the PDF paths)

  /** next((ln.strip() for ln in lines if ln.strip()), ""). */
  function FirstNonBlankLine(lines: seq<string>): (line: string)
    ensures line == [] <==> forall k :: 0 <= k < |lines| ==> IsBlank(lines[k])
  {
    if lines == [] then []
    else
      StripFacts(lines[0]);
      if Strip(lines[0]) != [] then Strip(lines[0])
      else
        assert forall k :: 1 <= k < |lines| ==> lines[k] == lines[1..][k - 1];
        FirstNonBlankLine(lines[1..])
  }

  /** The line FirstNonBlankLine picks is the stripped first line that is not blank. */
  lemma {:induction false} FirstNonBlankLineIsFirst(lines: seq<string>)
    requires FirstNonBlankLine(lines) != []
    ensures exists k :: 0 <= k < |lines| && FirstNonBlankLine(lines) == Strip(lines[k]) &&
                        forall j :: 0 <= j < k ==> IsBlank(lines[j])
  {
    StripFacts(lines[0]);
    if Strip(lines[0]) != [] {
      assert FirstNonBlankLine(lines) == Strip(lines[0]);
    } else {
      FirstNonBlankLineIsFirst(lines[1..]);
      var k :| 0 <= k < |lines[1..]| && FirstNonBlankLine(lines[1..]) == Strip(lines[1..][k]) &&
        forall j :: 0 <= j < k ==> IsBlank(lines[1..][j]);
      assert FirstNonBlankLine(lines) == Strip(lines[k + 1]);
    }
  }

  /** An accepted title: non-empty, at most 200 characters, not "unknown" in any case. */
  predicate TitleShape(title: string)
  {
    0 < |title| <= MaxTitleLength && Lower(title) != "unknown" &&
    title[0] !in TitleQuotes && title[|title| - 1] !in TitleQuotes
  }

  /** "Unknown" is never an accepted title, so the two outcomes can be told apart. */
  lemma UnknownIsNotATitle()
    ensures !TitleShape(Unknown)
  {
    assert Lower(Unknown) == "unknown";
  }

  /**
   * The line the clean-up settles on: the reply stripped, its first non-blank line stripped,
   * then stripped of quotes and spaces; empty when the reply is blank.
   */
  function TitleLine(content: string): (line: string)
    ensures line != [] ==> line[0] !in TitleQuotes && line[|line| - 1] !in TitleQuotes
  {
    var candidate := Strip(content);
    TrimFacts(FirstNonBlankLine(SplitLines(candidate)), TitleQuotes);
    if candidate == [] then [] else Trim(FirstNonBlankLine(SplitLines(candidate)), TitleQuotes)
  }

  /** The clean-up of the model's reply (its content, with None read as ""). */
  function SanitizeTitle(content: string): (title: string)
    ensures title == Unknown || TitleShape(title)
    ensures title != Unknown <==> TitleShape(TitleLine(content))
    ensures title != Unknown ==> title == TitleLine(content)
  {
    UnknownIsNotATitle();
    var line := TitleLine(content);
    if line == [] || Lower(line) == "unknown" || |line| > MaxTitleLength then Unknown
    else line
  }

  /**
   * An accepted title is the first non-blank line of the reply, stripped of whitespace and
   * then of quotes and spaces, and it holds no line break.
   */
  lemma SanitizedTitleIsFirstLine(content: string)
    requires SanitizeTitle(content) != Unknown
    ensures exists k :: (0 <= k < |SplitLines(Strip(content))| &&
      SanitizeTitle(content) == Trim(Strip(SplitLines(Strip(content))[k]), TitleQuotes) &&
      forall j :: 0 <= j < k ==> IsBlank(SplitLines(Strip(content))[j]))
    ensures forall i :: 0 <= i < |SanitizeTitle(content)| ==> SanitizeTitle(content)[i] !in LineBreaks
  {
    var title := SanitizeTitle(content);
    assert title == TitleLine(content) != [];
    var candidate := Strip(content);
    assert candidate != [];
    var lines := SplitLines(candidate);
    var first := FirstNonBlankLine(lines);
    assert title == Trim(first, TitleQuotes);
    FirstNonBlankLineIsFirst(lines);
    var k :| 0 <= k < |lines| && first == Strip(lines[k]) && forall j :: 0 <= j < k ==> IsBlank(lines[j]);
    TrimKeepsAbsent(lines[k], Whitespace, LineBreaks);
    TrimKeepsAbsent(first, TitleQuotes, LineBreaks);
    assert title == Trim(Strip(lines[k]), TitleQuotes);
    assert exists k' :: 0 <= k' < |lines| && title == Trim(Strip(lines[k']), TitleQuotes) &&
                        forall j :: 0 <= j < k' ==> IsBlank(lines[j]);
  }

  /** api_key: the configured key, or else the one in the environment (None read as ""). */
  function ApiKey(configured: string, environment: string): (key: string)
    ensures key == [] <==> configured == [] && environment == []
  {
    if configured != [] then configured else environment
  }

  /**
   * Asking the model for a title: with neither a configured key nor one in the environment
   * the answer is "Unknown"; a failed call (None) gives
   * "Unknown"; otherwise the sanitised reply. The prompt wrapped around the snippet is left
   * to the oracle.
   */
  function AskForTitle(snippet: string, configuredKey: string, environmentKey: string,
                       complete: string -> Option<string>): (title: string)
    ensures title == Unknown || TitleShape(title)
  {
    if ApiKey(configuredKey, environmentKey) == [] then Unknown
    else
      match complete(snippet)
      case None => Unknown
      case Some(content) => SanitizeTitle(content)
  }

  /** Without a key the model is never asked: the oracle cannot influence the result. */
  lemma NoKeyNeverAsks(snippet: string, complete: string -> Option<string>, other: string -> Option<string>)
    ensures AskForTitle(snippet, [], [], complete) == AskForTitle(snippet, [], [], other) == Unknown
  {
  }

  /** A failing model call is caught and gives "Unknown". */
  lemma FailedCallIsUnknown(snippet: string, configuredKey: string, environmentKey: string,
                            complete: string -> Option<string>)
    requires complete(snippet).None?
    ensures AskForTitle(snippet, configuredKey, environmentKey, complete) == Unknown
  {
  }

  // ---------------------------------------------------------------------------------------
  // _extract_docx_title and _extract_pdf_title

  /**
   * _extract_docx_title, given the paragraphs python-docx reads (None when Document() raises,
   * which the outer handler turns into "Unknown").
   */
  function DocxTitle(doc: Option<seq<Paragraph>>, configuredKey: string, environmentKey: string,
                     complete: string -> Option<string>): (title: string)
    ensures title == Unknown || TitleShape(title)
  {
    match doc
    case None => Unknown
    case Some(paras) =>
      var lines := Lines(paras);
      var snippets := Gathered(lines, ReadCount(lines));
      if snippets == [] then Unknown
      else
        match Snippet(snippets)
        case None => Unknown
        case Some(snippet) => AskForTitle(snippet, configuredKey, environmentKey, complete)
  }

  /** _extract_docx_title, running the snippet loop. */
  method ExtractDocxTitle(doc: Option<seq<Paragraph>>, configuredKey: string, environmentKey: string,
                          complete: string -> Option<string>)
    returns (title: string)
    ensures title == DocxTitle(doc, configuredKey, environmentKey, complete)
  {
    if doc.None? {
      return Unknown;
    }
    var snippets, total := GatherSnippets(doc.value);
    if snippets == [] {
      return Unknown;
    }
    var snippet := Snippet(snippets);
    if snippet.None? {
      return Unknown;
    }
    title := AskForTitle(snippet.value, configuredKey, environmentKey, complete);
  }

  /**
   * Only the paragraphs the loop reads matter: a document that agrees with another on them,
   * and has no more paragraphs when the loop ran out of them, gets the same title.
   */
  lemma DocxTitleReadsFirstPageOnly(paras: seq<Paragraph>, others: seq<Paragraph>, configuredKey: string, environmentKey: string,
                                    complete: string -> Option<string>)
    requires ReadCount(Lines(paras)) <= |others|
    requires forall k :: 0 <= k < ReadCount(Lines(paras)) ==> paras[k] == others[k]
    requires ReadCount(Lines(paras)) < |paras| || |others| == |paras|
    ensures DocxTitle(Some(paras), configuredKey, environmentKey, complete) == DocxTitle(Some(others), configuredKey, environmentKey, complete)
  {
    var lines, otherLines := Lines(paras), Lines(others);
    var n := ReadCount(lines);
    assert forall k :: 0 <= k < n ==> lines[k] == otherLines[k];
    ReadFromLooksNoFurther(lines, otherLines, 0, 0);
    GatheredAgrees(lines, otherLines, n);
  }

  /**
   * _extract_pdf_title. `open` stands for fitz.open on the uploaded bytes followed by
   * get_text() of each page; its Failure is an exception, which no handler catches.
   */
  function PdfTitle(data: seq<byte>, open: seq<byte> -> Result<seq<string>, string>, configuredKey: string, environmentKey: string,
                    complete: string -> Option<string>): (r: Result<string, string>)
    ensures r.Failure? <==> data != [] && open(data).Failure?
    ensures r.Failure? ==> r.error == open(data).error
    ensures r.Success? ==> r.value == Unknown || TitleShape(r.value)
  {
    if data == [] then Success(Unknown)
    else
      match open(data)
      case Failure(e) => Failure(e)
      case Success(pages) =>
        if pages == [] then Success(Unknown)
        else
          var text := Strip(pages[0]);
          if text == [] then Success(Unknown)
          else Success(AskForTitle(Prefix(text, CharLimit), configuredKey, environmentKey, complete))
  }

  /** Only the first page of the PDF is read. */
  lemma PdfTitleReadsFirstPageOnly(data: seq<byte>, open: seq<byte> -> Result<seq<string>, string>,
                                   other: seq<byte> -> Result<seq<string>, string>, configuredKey: string, environmentKey: string,
                                   complete: string -> Option<string>)
    requires open(data).Success? && other(data).Success?
    requires open(data).value != [] && other(data).value != []
    requires open(data).value[0] == other(data).value[0]
    ensures PdfTitle(data, open, configuredKey, environmentKey, complete) == PdfTitle(data, other, configuredKey, environmentKey, complete)
  {
  }

  // ---------------------------------------------------------------------------------------
  // add_doc

  /** The JSON responses of add_doc. */
  datatype Response = Created(filename: string) | BadRequest(error: string) | ServerError(error: string)

  /** os.path.join(dir, name) for POSIX paths. */
  function JoinPath(dir: string, name: string): (path: string)
    ensures EndsWith(path, name)
  {
    if name != [] && name[0] == '/' then name
    else if dir == [] || dir[|dir| - 1] == '/' then dir + name
    else dir + "/" + name
  }

  /** A suffix of a suffix is a suffix. */
  lemma EndsWithSuffix(s: string, suffix: string, tail: string)
    requires EndsWith(s, suffix) && EndsWith(suffix, tail)
    ensures EndsWith(s, tail)
  {
    assert s[|s| - |tail|..] == suffix[|suffix| - |tail|..];
  }

  /** A text ends with whatever was appended to it. */
  lemma EndsWithAppended(s: string, tail: string)
    ensures EndsWith(s + tail, tail)
  {
    assert (s + tail)[|s|..] == tail;
  }

  /** The text form of a uuid4: 36 lower-case hex digits and hyphens. */
  predicate IsUuid(s: string)
  {
    |s| == 36 && forall i :: 0 <= i < |s| ==> IsLowerHex(s[i]) || s[i] == '-'
  }

  /** The checks of add_doc before anything is stored; None when the upload passes them. */
  function UploadRejection(hasFilePart: bool, filename: string): (r: Option<Response>)
    ensures r.None? <==> hasFilePart && filename != [] && AllowedFile(filename)
    ensures r.Some? ==> r.value.BadRequest?
  {
    if !hasFilePart then Some(BadRequest("No file part"))
    else if filename == [] then Some(BadRequest("No selected file"))
    else if !AllowedFile(filename) then Some(BadRequest("Unsupported file type. Allowed: PDF, DOC, DOCX"))
    else None
  }

  /** The path add_doc saves an upload under: the upload folder joined with the document id. */
  function StoredPath(folder: string, docId: string): (path: string)
    ensures EndsWith(path, docId)
  {
    JoinPath(folder, docId)
  }

  /** The path the upload was evidently meant to have: the id followed by the lower-cased extension. */
  function IntendedStoredPath(folder: string, docId: string, filename: string): (path: string)
    requires AllowedFile(filename)
    ensures EndsWith(path, docId + "." + Lower(Extension(filename).value))
  {
    JoinPath(folder, docId + "." + Lower(Extension(filename).value))
  }

  /**
   * As written, the stored path ends in the uuid, so it has no extension and _get_text always
   * returns "Untitled", whichever extractor the file needed.
   */
  lemma AsWrittenTextIsUntitled(folder: string, docId: string, pdfText: string -> string,
                                docxText: string -> string)
    requires IsUuid(docId)
    ensures GetText(StoredPath(folder, docId), pdfText, docxText) == Untitled
  {
    var path := StoredPath(folder, docId);
    assert EndsWith(path, docId);
    assert docId[32] != '.' && docId[31] != '.';
    NoDotNearEndIsUntitled(path, docId);
  }

  /** A path whose fourth- and fifth-last characters are not dots has none of the three suffixes. */
  lemma NoDotNearEndIsUntitled(path: string, tail: string)
    requires EndsWith(path, tail) && |tail| >= 5
    requires tail[|tail| - 4] != '.' && tail[|tail| - 5] != '.'
    ensures SelectExtractor(path) == NoExtractor
  {
    assert path[|path| - 4] == tail[|tail| - 4] && path[|path| - 5] == tail[|tail| - 5];
    assert !EndsWith(path, ".pdf") && !EndsWith(path, ".doc") by {
      assert path[|path| - 4..][0] == path[|path| - 4];
    }
    assert !EndsWith(path, ".docx") by {
      assert path[|path| - 5..][0] == path[|path| - 5];
    }
  }

  lemma DocSuffixSelectsDocx(path: string)
    requires EndsWith(path, ".doc")
    ensures SelectExtractor(path) == DocxExtractor
  {
    assert path[|path| - 4..] == ".doc";
  }

  lemma DocxSuffixSelectsDocx(path: string)
    requires EndsWith(path, ".docx")
    ensures SelectExtractor(path) == DocxExtractor
  {
    assert EndsWith(".docx", "docx") by { assert ".docx"[1..] == "docx"; }
    EndsWithSuffix(path, ".docx", "docx");
    assert path[|path| - 4..] == "docx";
  }

  /** A path ending in an allowed extension, written in lower case, reaches an extractor. */
  lemma TailSelectsExtractor(path: string, ext: string)
    requires ext in AllowedExtensions && EndsWith(path, "." + ext)
    ensures SelectExtractor(path) == if ext == "pdf" then PdfExtractor else DocxExtractor
  {
    if ext == "pdf" {
      assert "." + ext == ".pdf";
    } else if ext == "doc" {
      assert "." + ext == ".doc";
      DocSuffixSelectsDocx(path);
    } else {
      assert "." + ext == ".docx";
      DocxSuffixSelectsDocx(path);
    }
  }

  /** With the extension kept, every allowed upload reaches the extractor for its type. */
  lemma IntendedPathSelectsExtractor(folder: string, docId: string, filename: string)
    requires AllowedFile(filename)
    ensures SelectExtractor(IntendedStoredPath(folder, docId, filename)) ==
      if Lower(Extension(filename).value) == "pdf" then PdfExtractor else DocxExtractor
  {
    JoinedExtensionSelects(folder, docId, Lower(Extension(filename).value));
  }

  /** The path of an id followed by an allowed extension reaches the extractor for it. */
  lemma JoinedExtensionSelects(folder: string, docId: string, ext: string)
    requires ext in AllowedExtensions
    ensures SelectExtractor(JoinPath(folder, docId + "." + ext)) ==
      if ext == "pdf" then PdfExtractor else DocxExtractor
  {
    var tail := "." + ext;
    var path := JoinPath(folder, docId + tail);
    assert docId + "." + ext == docId + tail;
    EndsWithAppended(docId, tail);
    EndsWithSuffix(path, docId + tail, tail);
    TailSelectsExtractor(path, ext);
  }

  /**
   * What add_doc does once an upload has passed the checks: save it under path (saved says
   * whether file.save succeeded), read its text and upsert the document row.
   */
  method StoreUpload(store: Store, docId: string, path: string, saved: bool, mtime: int,
                     pdfText: string -> string, docxText: string -> string)
    returns (resp: Response)
    modifies store
    ensures !saved ==> (resp == ServerError("Failed to save file") &&
                        store.documents == old(store.documents))
    ensures saved ==> resp == Created(docId) && store.HashMatches(docId, GetText(path, pdfText, docxText))
    ensures saved && old(store.HashMatches(docId, GetText(path, pdfText, docxText))) ==>
      store.documents == old(store.documents)
    ensures saved && !old(store.HashMatches(docId, GetText(path, pdfText, docxText))) ==>
      store.documents == old(store.documents)[docId :=
        DocRow(path, None, Sha256Text(store.sha, GetText(path, pdfText, docxText)), mtime)]
    ensures store.chunks == old(store.chunks) && store.embeddings == old(store.embeddings)
  {
    if !saved {
      return ServerError("Failed to save file");
    }
    var text := GetText(path, pdfText, docxText);
    var _ := store.UpsertDocument(docId, path, text, mtime as real);
    return Created(docId);
  }

  /**
   * add_doc as written. docId is the fresh uuid4, mtime the current time in whole seconds.
   * An accepted upload is always recorded with the text "Untitled".
   */
  method AddDoc(store: Store, hasFilePart: bool, filename: string, folder: string, docId: string,
                saved: bool, mtime: int, pdfText: string -> string, docxText: string -> string)
    returns (resp: Response)
    requires IsUuid(docId)
    modifies store
    ensures UploadRejection(hasFilePart, filename).Some? ==>
      resp == UploadRejection(hasFilePart, filename).value && store.documents == old(store.documents)
    ensures UploadRejection(hasFilePart, filename).None? && !saved ==>
      resp == ServerError("Failed to save file") && store.documents == old(store.documents)
    ensures UploadRejection(hasFilePart, filename).None? && saved ==>
      resp == Created(docId) && store.HashMatches(docId, Untitled)
    ensures UploadRejection(hasFilePart, filename).None? && saved && old(store.HashMatches(docId, Untitled)) ==>
      store.documents == old(store.documents)
    ensures UploadRejection(hasFilePart, filename).None? && saved && !old(store.HashMatches(docId, Untitled)) ==>
      store.documents == old(store.documents)[docId :=
        DocRow(StoredPath(folder, docId), None, Sha256Text(store.sha, Untitled), mtime)]
    ensures store.chunks == old(store.chunks) && store.embeddings == old(store.embeddings)
  {
    var rejection := UploadRejection(hasFilePart, filename);
    if rejection.Some? {
      return rejection.value;
    }
    var path := StoredPath(folder, docId);
    AsWrittenTextIsUntitled(folder, docId, pdfText, docxText);
    resp := StoreUpload(store, docId, path, saved, mtime, pdfText, docxText);
  }

  /** add_doc with the stored path keeping the extension, so the upload's own text is recorded. */
  method AddDocIntended(store: Store, hasFilePart: bool, filename: string, folder: string, docId: string,
                        saved: bool, mtime: int, pdfText: string -> string, docxText: string -> string)
    returns (resp: Response)
    modifies store
    ensures UploadRejection(hasFilePart, filename).Some? ==>
      resp == UploadRejection(hasFilePart, filename).value && store.documents == old(store.documents)
    ensures UploadRejection(hasFilePart, filename).None? && !saved ==>
      resp == ServerError("Failed to save file") && store.documents == old(store.documents)
    ensures UploadRejection(hasFilePart, filename).None? && saved ==>
      var path := IntendedStoredPath(folder, docId, filename);
      var text := if SelectExtractor(path) == PdfExtractor then pdfText(path) else docxText(path);
      resp == Created(docId) && store.HashMatches(docId, text)
    ensures UploadRejection(hasFilePart, filename).None? && saved &&
            old(store.HashMatches(docId, GetText(IntendedStoredPath(folder, docId, filename), pdfText, docxText))) ==>
      store.documents == old(store.documents)
    ensures UploadRejection(hasFilePart, filename).None? && saved &&
            !old(store.HashMatches(docId, GetText(IntendedStoredPath(folder, docId, filename), pdfText, docxText))) ==>
      store.documents == old(store.documents)[docId :=
        DocRow(IntendedStoredPath(folder, docId, filename), None,
               Sha256Text(store.sha, GetText(IntendedStoredPath(folder, docId, filename), pdfText, docxText)), mtime)]
    ensures store.chunks == old(store.chunks) && store.embeddings == old(store.embeddings)
  {
    var rejection := UploadRejection(hasFilePart, filename);
    if rejection.Some? {
      return rejection.value;
    }
    var path := IntendedStoredPath(folder, docId, filename);
    IntendedPathSelectsExtractor(folder, docId, filename);
    resp := StoreUpload(store, docId, path, saved, mtime, pdfText, docxText);
  }
}
