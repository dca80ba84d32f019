/**
 * lib/document-processor.ts: turning an uploaded PDF, DOCX or image into essay text,
 * cleaning that text, and collecting the teacher comments found in it.
 *
 * The three extraction libraries (pdf.js, mammoth, Tesseract), the regular-expression
 * scans for comments and the Gemini call stay outside the model; each enters as what it
 * hands back to this file:
 *   - `Extraction` holds what each library returns for the uploaded bytes (`None` when
 *     it throws);
 *   - `scan(text)` is, for each of the thirteen comment patterns in order, capture group 1
 *     of each of its matches (`None` for a match whose group did not take part);
 *   - `generate(excerpt)` is the model's reply to the prompt built from the excerpt of
 *     the text (`None` when the call throws);
 *   - `parse(t)` is `JSON.parse(t)` (`None` when it throws).
 */
module DocumentProcessor {
  import opened Wrappers
  import opened Text
  import opened Normalize
  import JsonSpan

  /** `ExtractedDocument['metadata']` */
  datatype Metadata = Metadata(fileName: string, fileType: string, pageCount: Option<nat>)

  /** `ExtractedDocument` */
  datatype ExtractedDocument = ExtractedDocument(
    text: string,
    teacherComments: Option<seq<string>>,
    metadata: Option<Metadata>)

  /** What each extraction library returns for the uploaded bytes; `None` when it throws. */
  datatype Extraction = Extraction(
    pdfPages: Option<seq<seq<string>>>,  // the `str` of every text item, page by page
    docxText: Option<string>,            // mammoth's `value`
    ocrText: Option<string>)             // Tesseract's `data.text`

  /** The value `JSON.parse` yields, as far as the comment extraction looks at it. */
  datatype ParsedJson = JsonArray(items: seq<string>) | NotArray

  const PdfError := "Failed to extract text from PDF. Ensure the PDF contains selectable text, not scanned images."
  const DocxError := "Failed to extract text from DOCX"
  const ImageError := "Failed to extract text from image. Ensure the image has clear, readable text."
  const UnsupportedError := "Unsupported file type. Please upload PDF, DOCX, or image files."

  /** How many characters of the text the comment prompt includes (`text.substring(0, 5000)`). */
  const PromptExcerptLength := 5000

  // ---------------------------------------------------------------------------------
  // PDF

  /** One page: its text items joined by a space, then a blank line. */
  function PageText(items: seq<string>): (r: string)
    ensures |r| >= 2 && r[|r| - 2..] == "\n\n"
  {
    Join(items, " ") + "\n\n"
  }

  /** The text the page loop accumulates over `pages`. */
  function PagesText(pages: seq<seq<string>>): string {
    if pages == [] then "" else PagesText(pages[..|pages| - 1]) + PageText(pages[|pages| - 1])
  }

  /** The accumulated text of consecutive page ranges is the concatenation of their texts. */
  lemma {:induction false} PagesTextAppend(p: seq<seq<string>>, q: seq<seq<string>>)
    ensures PagesText(p + q) == PagesText(p) + PagesText(q)
    decreases |q|
  {
    if q == [] {
      assert p + q == p;
    } else {
      var q' := q[..|q| - 1];
      assert (p + q)[..|p + q| - 1] == p + q';
      assert (p + q)[|p + q| - 1] == q[|q| - 1];
      PagesTextAppend(p, q');
    }
  }

  /** Every page contributes its own text and ends with a blank line. */
  lemma PagesTextPage(pages: seq<seq<string>>, k: nat)
    requires k < |pages|
    ensures PagesText(pages) == PagesText(pages[..k]) + PageText(pages[k]) + PagesText(pages[k + 1..])
  {
    var front := pages[..k + 1];
    var back := pages[k + 1..];
    assert pages == front + back;
    PagesTextAppend(front, back);
    PagesPrefixStep(pages, k);
  }

  /** The text of the first `k + 1` pages extends that of the first `k` by page `k`. */
  lemma PagesPrefixStep(pages: seq<seq<string>>, k: nat)
    requires k < |pages|
    ensures PagesText(pages[..k + 1]) == PagesText(pages[..k]) + PageText(pages[k])
  {
    assert pages[..k + 1][..k] == pages[..k];
  }

  /** The accumulated text of at least one page ends with a blank line. */
  lemma PagesTextEnds(pages: seq<seq<string>>)
    requires pages != []
    ensures EndsWith(PagesText(pages), "\n\n")
  {
    var t := PagesText(pages);
    var last := PageText(pages[|pages| - 1]);
    assert t[|t| - |last|..] == last;
    assert last[|last| - 2..] == "\n\n";
    assert t[|t| - 2..] == last[|last| - 2..];
  }

  /** The page loop of `extractTextFromPDF`: `fullText += pageText + '\n\n'` for pages 1 to `numPages`. */
  method AssemblePdfText(pages: seq<seq<string>>) returns (fullText: string)
    ensures fullText == PagesText(pages)
  {
    fullText := "";
    var pageNum := 0;
    while pageNum < |pages|
      invariant 0 <= pageNum <= |pages|
      invariant fullText == PagesText(pages[..pageNum])
    {
      var pageText := Join(pages[pageNum], " ");
      fullText := fullText + pageText + "\n\n";
      assert pages[..pageNum + 1][..pageNum] == pages[..pageNum];
      pageNum := pageNum + 1;
    }
    assert pages[..|pages|] == pages;
  }

  /** The PDF cleanup chain: line breaks, hyphenated words, spaces, blank lines, line joins, paragraph breaks, trim. */
  function CleanPdfText(s: string): (r: string)
    ensures '\r' !in r
    ensures NoDoubleSpace(r) && NoTripleNewline(r)
    ensures IsTrimmed(r)
    ensures forall c :: c in r ==> c in s || c == '\n' || c == ' '
  {
    var a := NormalizeLineBreaks(s);
    var b := JoinHyphenated(a);
    JoinHyphenatedChars(a);
    var e := JoinLines(CollapseNewlines(CollapseSpaces(b)));
    var c := SplitParagraphs(e);
    PdfChainChars(s, a, b, e, c);
    PdfChainRuns(b, e, c);
    Trim(c)
  }

  /** The stages after the space pass keep the text free of double spaces and triple line feeds. */
  lemma PdfChainRuns(b: string, e: string, c: string)
    requires e == JoinLines(CollapseNewlines(CollapseSpaces(b)))
    requires c == SplitParagraphs(e)
    ensures NoDoubleSpace(Trim(c)) && NoTripleNewline(Trim(c))
  {
    var d := CollapseNewlines(CollapseSpaces(b));
    CollapseNewlinesKeepsSpaces(CollapseSpaces(b));
    JoinLinesKeepsSpaces(d);
    JoinLinesKeepsNewlines(d);
    SplitParagraphsKeepsSpaces(e);
    SplitParagraphsKeepsNewlines(e);
    TrimKeepsRuns(c);
  }

  /** What each stage after the hyphen join adds: at most spaces, and nothing in the final trim. */
  lemma PdfChainChars(s: string, a: string, b: string, e: string, c: string)
    requires '\r' !in a && forall ch :: ch in a ==> ch in s || ch == '\n'
    requires forall ch :: ch in b ==> ch in a
    requires e == JoinLines(CollapseNewlines(CollapseSpaces(b)))
    requires c == SplitParagraphs(e)
    ensures '\r' !in Trim(c)
    ensures forall ch :: ch in Trim(c) ==> ch in s || ch == '\n' || ch == ' '
  {
    var d := CollapseNewlines(CollapseSpaces(b));
    assert forall ch :: ch in d ==> ch in b;
    JoinLinesChars(d);
    TrimChars(c);
  }

  /** `extractTextFromPDF`: the cleaned page text with the PDF metadata, or the PDF error. */
  method ExtractTextFromPdf(pages: Option<seq<seq<string>>>) returns (r: Result<ExtractedDocument>)
    ensures pages.None? <==> r.Err?
    ensures r.Err? ==> r.message == PdfError
    ensures r.Ok? ==> r.value.text == CleanPdfText(PagesText(pages.value))
    ensures r.Ok? ==> r.value.teacherComments.None?
    ensures r.Ok? ==> r.value.metadata == Some(Metadata("uploaded.pdf", "pdf", Some(|pages.value|)))
  {
    if pages.None? {
      return Err(PdfError);
    }
    var fullText := AssemblePdfText(pages.value);
    var text := CleanPdfText(fullText);
    r := Ok(ExtractedDocument(text, None, Some(Metadata("uploaded.pdf", "pdf", Some(|pages.value|)))));
  }

  // ---------------------------------------------------------------------------------
  // DOCX and images

  /** The DOCX cleanup chain: line breaks, blank lines, spaces, trim. */
  function CleanDocxText(s: string): (r: string)
    ensures '\r' !in r
    ensures NoTripleNewline(r) && NoDoubleSpace(r)
    ensures IsTrimmed(r)
  {
    CleanDocxFacts(CollapseNewlines(NormalizeLineBreaks(s)));
    Trim(CollapseSpaces(CollapseNewlines(NormalizeLineBreaks(s))))
  }

  lemma CleanDocxFacts(a: string)
    requires '\r' !in a && NoTripleNewline(a)
    ensures var r := Trim(CollapseSpaces(a)); '\r' !in r && NoTripleNewline(r) && NoDoubleSpace(r)
  {
    var b := CollapseSpaces(a);
    CollapseSpacesKeepsNewlines(a);
    TrimChars(b);
    TrimKeepsRuns(b);
  }

  /** Cleaning DOCX text a second time changes nothing. */
  lemma CleanDocxIdempotent(s: string)
    ensures CleanDocxText(CleanDocxText(s)) == CleanDocxText(s)
  {
    var t := CleanDocxText(s);
    CollapseNewlinesStable(t);
    CollapseSpacesStable(t);
    TrimOfTrimmed(t);
  }

  /** `extractTextFromDOCX` */
  function ExtractTextFromDocx(raw: Option<string>): (r: Result<ExtractedDocument>)
    ensures raw.None? <==> r.Err?
    ensures r.Err? ==> r.message == DocxError
    ensures r.Ok? ==> r.value.text == CleanDocxText(raw.value) && r.value.teacherComments.None?
    ensures r.Ok? ==> r.value.metadata == Some(Metadata("uploaded.docx", "docx", None))
  {
    match raw
    case None => Err(DocxError)
    case Some(t) => Ok(ExtractedDocument(CleanDocxText(t), None, Some(Metadata("uploaded.docx", "docx", None))))
  }

  /** The OCR cleanup chain: line breaks, artifacts, whitespace runs, blank lines, trim. */
  function CleanOcrText(s: string): (r: string)
    ensures '|' !in r && '[' !in r && ']' !in r
    ensures forall i :: 0 <= i < |r| && IsSpace(r[i]) ==> r[i] == ' '
    ensures NoDoubleSpace(r)
    ensures IsTrimmed(r)
  {
    CleanOcrFacts(CollapseWhitespace(RemoveArtifacts(NormalizeLineBreaks(s))));
    Trim(CollapseNewlines(CollapseWhitespace(RemoveArtifacts(NormalizeLineBreaks(s)))))
  }

  lemma CleanOcrFacts(a: string)
    requires '|' !in a && '[' !in a && ']' !in a && NoDoubleSpace(a)
    requires forall i :: 0 <= i < |a| && IsSpace(a[i]) ==> a[i] == ' '
    ensures var r := Trim(CollapseNewlines(a));
      && '|' !in r && '[' !in r && ']' !in r && NoDoubleSpace(r)
      && forall i :: 0 <= i < |r| && IsSpace(r[i]) ==> r[i] == ' '
  {
    assert forall i :: 0 <= i < |a| ==> a[i] != '\n';
    NoNewlineNoTriple(a);
    CollapseNewlinesStable(a);
    TrimChars(a);
    TrimKeepsRuns(a);
    TrimKeepsSpaces(a);
  }

  /** `extractTextFromImage` */
  function ExtractTextFromImage(raw: Option<string>): (r: Result<ExtractedDocument>)
    ensures raw.None? <==> r.Err?
    ensures r.Err? ==> r.message == ImageError
    ensures r.Ok? ==> r.value.text == CleanOcrText(raw.value) && r.value.teacherComments.None?
    ensures r.Ok? ==> r.value.metadata == Some(Metadata("uploaded-image", "image", None))
  {
    match raw
    case None => Err(ImageError)
    case Some(t) => Ok(ExtractedDocument(CleanOcrText(t), None, Some(Metadata("uploaded-image", "image", None))))
  }

  // ---------------------------------------------------------------------------------
  // Teacher comments

  /** How many runs of `[.!?]` a comment holds (`comment.match(/[.!?]+/g).length`). */
  function PunctuationRuns(s: string): (n: nat)
    ensures n <= |s|
  {
    if s == [] then 0
    else
      var k := |s| - 1;
      PunctuationRuns(s[..k]) + (if EndsSentence(s[k]) && (k == 0 || !EndsSentence(s[k - 1])) then 1 else 0)
  }

  /** A comment with no sentence punctuation has no runs, and every run needs such a character. */
  lemma {:induction false} PunctuationRunsZero(s: string)
    ensures PunctuationRuns(s) == 0 <==> forall i :: 0 <= i < |s| ==> !EndsSentence(s[i])
  {
    if s != [] {
      var k := |s| - 1;
      PunctuationRunsZero(s[..k]);
      assert forall i :: 0 <= i < k ==> s[..k][i] == s[i];
      if PunctuationRuns(s[..k]) == 0 && EndsSentence(s[k]) && k > 0 {
        assert !EndsSentence(s[k - 1]);
      }
    }
  }

  /** The heuristic filter: longer than 10, shorter than 500, at most five sentence-ending runs. */
  predicate KeepsCandidate(c: string) {
    10 < |c| < 500 && PunctuationRuns(c) <= 5
  }

  /** What one match contributes: `match[1]?.trim()`, when it is there and the filter keeps it. */
  function Accepted(capture: Option<string>): (r: Option<string>)
    ensures r.Some? ==> capture.Some? && r.value == Trim(capture.value) && KeepsCandidate(r.value)
    ensures capture.Some? && KeepsCandidate(Trim(capture.value)) ==> r.Some?
  {
    match capture
    case None => None
    case Some(x) => if KeepsCandidate(Trim(x)) then Some(Trim(x)) else None
  }

  /** The comments one pattern's matches contribute, in match order. */
  function MatchComments(captures: seq<Option<string>>): (r: seq<string>)
    ensures forall i :: 0 <= i < |r| ==> KeepsCandidate(r[i]) && IsTrimmed(r[i])
  {
    if captures == [] then []
    else
      var k := |captures| - 1;
      var a := Accepted(captures[k]);
      MatchComments(captures[..k]) + (if a.Some? then [a.value] else [])
  }

  /** The comments all patterns contribute, pattern by pattern. */
  function Candidates(captures: seq<seq<Option<string>>>): (r: seq<string>)
    ensures forall i :: 0 <= i < |r| ==> KeepsCandidate(r[i]) && IsTrimmed(r[i])
  {
    if captures == [] then [] else Candidates(captures[..|captures| - 1]) + MatchComments(captures[|captures| - 1])
  }

  /** Every match the filter keeps is among the pattern's comments. */
  lemma {:induction false} MatchCommentsComplete(captures: seq<Option<string>>, m: nat)
    requires m < |captures| && Accepted(captures[m]).Some?
    ensures Accepted(captures[m]).value in MatchComments(captures)
    decreases |captures|
  {
    var k := |captures| - 1;
    if m < k {
      var front := captures[..k];
      assert front[m] == captures[m];
      MatchCommentsComplete(front, m);
      MatchCommentsPrefix(captures, Accepted(front[m]).value);
    } else {
      MatchCommentsLast(captures);
    }
  }

  /** The comment of the last match, when the filter keeps it, comes last. */
  lemma MatchCommentsLast(captures: seq<Option<string>>)
    requires captures != [] && Accepted(captures[|captures| - 1]).Some?
    ensures Accepted(captures[|captures| - 1]).value in MatchComments(captures)
  {
    var k := |captures| - 1;
    assert MatchComments(captures) == MatchComments(captures[..k]) + [Accepted(captures[k]).value];
  }

  /** The comments of all matches but the last come first. */
  lemma MatchCommentsPrefix(captures: seq<Option<string>>, c: string)
    requires captures != [] && c in MatchComments(captures[..|captures| - 1])
    ensures c in MatchComments(captures)
  {
  }

  /** Every match of every pattern the filter keeps is among the candidates. */
  lemma {:induction false} CandidatesComplete(captures: seq<seq<Option<string>>>, p: nat, m: nat)
    requires p < |captures| && m < |captures[p]| && Accepted(captures[p][m]).Some?
    ensures Accepted(captures[p][m]).value in Candidates(captures)
    decreases |captures|
  {
    var k := |captures| - 1;
    var c := Accepted(captures[p][m]).value;
    if p < k {
      var front := captures[..k];
      assert front[p] == captures[p];
      CandidatesComplete(front, p, m);
      CandidatesSplit(captures, c);
    } else {
      assert p == k;
      var last := captures[k];
      MatchCommentsComplete(last, m);
      assert c in MatchComments(last);
      CandidatesSplit(captures, c);
    }
  }

  /** The candidates of all patterns but the last come first, then the last one's. */
  lemma CandidatesSplit(captures: seq<seq<Option<string>>>, c: string)
    requires captures != []
    requires c in Candidates(captures[..|captures| - 1]) || c in MatchComments(captures[|captures| - 1])
    ensures c in Candidates(captures)
  {
  }

  /** The first position of `x` in `xs`. */
  function Position(xs: seq<string>, x: string): (i: nat)
    requires x in xs
    ensures i < |xs| && xs[i] == x && x !in xs[..i]
  {
    if xs[0] == x then 0 else 1 + Position(xs[1..], x)
  }

  lemma PositionInPrefix(xs: seq<string>, n: nat, x: string)
    requires n <= |xs| && x in xs[..n]
    ensures Position(xs, x) == Position(xs[..n], x)
  {
    var i := Position(xs[..n], x);
    var j := Position(xs, x);
    assert xs[..n][..i] == xs[..i];
    assert xs[..n][i] == xs[i];
  }

  /** No element occurs twice. */
  predicate Distinct(xs: seq<string>) {
    forall i, j :: 0 <= i < j < |xs| ==> xs[i] != xs[j]
  }

  /**
   * `[...new Set(xs)]`: every element once, at the place of its first occurrence, so the
   * result keeps the order of first occurrences.
   */
  function Dedup(xs: seq<string>): (r: seq<string>)
    ensures Distinct(r)
    ensures forall x :: x in r <==> x in xs
    ensures forall i, j :: 0 <= i < j < |r| ==> Position(xs, r[i]) < Position(xs, r[j])
  {
    if xs == [] then []
    else
      var n := |xs| - 1;
      var d := Dedup(xs[..n]);
      assert forall x :: x in xs <==> x in xs[..n] || x == xs[n] by {
        assert xs == xs[..n] + [xs[n]];
      }
      DedupPositions(xs, d);
      if xs[n] in d then d else d + [xs[n]]
  }

  lemma DedupPositions(xs: seq<string>, d: seq<string>)
    requires xs != [] && forall x :: x in d ==> x in xs[..|xs| - 1] && x in xs
    ensures forall i :: 0 <= i < |d| ==> Position(xs, d[i]) == Position(xs[..|xs| - 1], d[i])
    ensures xs[|xs| - 1] !in xs[..|xs| - 1] ==> Position(xs, xs[|xs| - 1]) == |xs| - 1
  {
    var n := |xs| - 1;
    forall i | 0 <= i < |d|
      ensures Position(xs, d[i]) == Position(xs[..n], d[i])
    {
      PositionInPrefix(xs, n, d[i]);
    }
    LastPosition(xs);
  }

  /** An element that first occurs at the end of the list has its position there. */
  lemma LastPosition(xs: seq<string>)
    requires xs != []
    ensures xs[|xs| - 1] !in xs[..|xs| - 1] ==> Position(xs, xs[|xs| - 1]) == |xs| - 1
  {
    var n := |xs| - 1;
    var p := Position(xs, xs[n]);
    assert p < n ==> xs[..n][p] == xs[p];
  }

  /** A list without repeated elements comes back unchanged. */
  lemma {:induction false} DedupDistinct(xs: seq<string>)
    requires Distinct(xs)
    ensures Dedup(xs) == xs
  {
    if xs != [] {
      var n := |xs| - 1;
      assert Distinct(xs[..n]);
      DedupDistinct(xs[..n]);
      assert xs[n] !in xs[..n];
      assert xs[..n] + [xs[n]] == xs;
    }
  }

  /** `comments.filter(c => c.length > 10)` */
  function LongerThanTen(xs: seq<string>): seq<string> {
    if xs == [] then [] else (if |xs[0]| > 10 then [xs[0]] else []) + LongerThanTen(xs[1..])
  }

  /** The filter keeps exactly the comments longer than 10 characters. */
  lemma {:induction false} LongerThanTenMembers(xs: seq<string>)
    ensures forall x :: x in LongerThanTen(xs) <==> x in xs && |x| > 10
  {
    if xs != [] {
      LongerThanTenMembers(xs[1..]);
      assert forall x :: x in xs <==> x == xs[0] || x in xs[1..];
    }
  }

  /** The last step of `extractComments`: longer than 10 characters, and every one once. */
  function MergeComments(heuristic: seq<string>, ai: seq<string>): (r: seq<string>)
    ensures Distinct(r)
    ensures forall c :: c in r <==> (c in heuristic || c in ai) && |c| > 10
  {
    LongerThanTenMembers(heuristic + ai);
    Dedup(LongerThanTen(heuristic + ai))
  }

  lemma {:induction false} LongerThanTenAppend(a: seq<string>, b: seq<string>)
    ensures LongerThanTen(a + b) == LongerThanTen(a) + LongerThanTen(b)
    decreases |a|
  {
    if a == [] {
      assert a + b == b;
    } else {
      assert (a + b)[1..] == a[1..] + b;
      LongerThanTenAppend(a[1..], b);
    }
  }

  /** In a concatenation, an element first occurs in the front part exactly when it occurs there at all. */
  lemma PositionAppend(p: seq<string>, q: seq<string>, x: string)
    requires x in p + q
    ensures x in p <==> Position(p + q, x) < |p|
  {
    var xs := p + q;
    var i := Position(xs, x);
    assert xs[..|p|] == p;
    assert i >= |p| ==> xs[..i][..|p|] == p;
    assert i < |p| ==> xs[i] == p[i];
  }

  /**
   * The merged list keeps the heuristic comments ahead of the ones only the model found:
   * whatever precedes a comment of the heuristic list is itself one of them.
   */
  lemma HeuristicBeforeAi(heuristic: seq<string>, ai: seq<string>, i: nat, j: nat)
    requires i < j < |MergeComments(heuristic, ai)|
    requires MergeComments(heuristic, ai)[j] in heuristic
    ensures MergeComments(heuristic, ai)[i] in heuristic
  {
    var r := MergeComments(heuristic, ai);
    var front, back := LongerThanTen(heuristic), LongerThanTen(ai);
    LongerThanTenAppend(heuristic, ai);
    LongerThanTenMembers(heuristic);
    assert r[j] in front;
    assert r[i] in front + back;
    PositionAppend(front, back, r[j]);
    PositionAppend(front, back, r[i]);
  }

  /** The part of the text the comment prompt includes. */
  function PromptExcerpt(text: string): (e: string)
    ensures |e| <= PromptExcerptLength && StartsWith(text, e)
    ensures |text| <= PromptExcerptLength ==> e == text
  {
    if |text| <= PromptExcerptLength then text else text[..PromptExcerptLength]
  }

  /**
   * `extractCommentsWithAI`, given the model's reply: the array the JSON-looking span of the
   * reply parses to; `[]` when the call fails, no span is found, parsing fails or the value
   * is not an array.
   */
  function AiComments(reply: Option<string>, parse: string -> Option<ParsedJson>): (r: seq<string>)
    ensures r != [] ==> reply.Some? && JsonSpan.FindSpan(reply.value, JsonSpan.LazyArrayShape).Some?
    ensures r != [] ==>
      var sp := JsonSpan.FindSpan(reply.value, JsonSpan.LazyArrayShape).value;
      parse(reply.value[sp.start..sp.end]) == Some(JsonArray(r))
    ensures reply.Some? && JsonSpan.FindSpan(reply.value, JsonSpan.LazyArrayShape).Some? ==>
      var sp := JsonSpan.FindSpan(reply.value, JsonSpan.LazyArrayShape).value;
      var parsed := parse(reply.value[sp.start..sp.end]);
      parsed.Some? && parsed.value.JsonArray? ==> r == parsed.value.items
  {
    match reply
    case None => []
    case Some(t) =>
      match JsonSpan.FindSpan(t, JsonSpan.LazyArrayShape)
      case None => []
      case Some(sp) =>
        match parse(t[sp.start..sp.end])
        case Some(JsonArray(items)) => items
        case _ => []
  }

  /**
   * The heuristic half of `extractComments`: for every pattern, in order, every match whose
   * trimmed group passes the filter is pushed onto `found`.
   */
  method HeuristicComments(patterns: seq<seq<Option<string>>>) returns (found: seq<string>)
    ensures found == Candidates(patterns)
  {
    found := [];
    var p := 0;
    while p < |patterns|
      invariant 0 <= p <= |patterns|
      invariant found == Candidates(patterns[..p])
    {
      found := PushMatches(found, patterns[p]);
      CandidatesStep(patterns, p);
      p := p + 1;
    }
    assert patterns[..p] == patterns;
  }

  /** The inner loop over one pattern's matches: each accepted group is pushed onto `found`. */
  method PushMatches(found0: seq<string>, matches: seq<Option<string>>) returns (found: seq<string>)
    ensures found == found0 + MatchComments(matches)
  {
    found := found0;
    var m := 0;
    while m < |matches|
      invariant 0 <= m <= |matches|
      invariant found == found0 + MatchComments(matches[..m])
    {
      PushStep(found0, found, matches, m);
      var comment := Accepted(matches[m]);
      if comment.Some? {
        found := found + [comment.value];
      }
      m := m + 1;
    }
    assert matches[..m] == matches;
  }

  /** `extractComments(text)` */
  method ExtractComments(
    text: string,
    scan: string -> seq<seq<Option<string>>>,
    generate: string -> Option<string>,
    parse: string -> Option<ParsedJson>)
    returns (comments: seq<string>)
    ensures comments == MergeComments(Candidates(scan(text)), AiComments(generate(PromptExcerpt(text)), parse))
    ensures Distinct(comments)
    ensures forall c :: c in comments ==> |c| > 10
  {
    var found := HeuristicComments(scan(text));
    var ai := AiComments(generate(PromptExcerpt(text)), parse);
    comments := MergeComments(found, ai);
    MergeCommentsFacts(found, ai);
  }

  lemma MergeCommentsFacts(heuristic: seq<string>, ai: seq<string>)
    ensures Distinct(MergeComments(heuristic, ai))
    ensures forall c :: c in MergeComments(heuristic, ai) ==> |c| > 10
  {
  }

  /** One iteration of the inner loop keeps `found` equal to the comments of the matches seen so far. */
  lemma PushStep(found0: seq<string>, found: seq<string>, captures: seq<Option<string>>, m: nat)
    requires m < |captures| && found == found0 + MatchComments(captures[..m])
    ensures var a := Accepted(captures[m]);
      (if a.Some? then found + [a.value] else found) == found0 + MatchComments(captures[..m + 1])
  {
    MatchCommentsStep(captures, m);
    var a := Accepted(captures[m]);
    if a.Some? {
      assert found + [a.value] == found0 + (MatchComments(captures[..m]) + [a.value]);
    } else {
      assert MatchComments(captures[..m]) + [] == MatchComments(captures[..m]);
    }
  }

  lemma MatchCommentsStep(captures: seq<Option<string>>, m: nat)
    requires m < |captures|
    ensures MatchComments(captures[..m + 1])
      == MatchComments(captures[..m]) + (if Accepted(captures[m]).Some? then [Accepted(captures[m]).value] else [])
  {
    assert captures[..m + 1][..m] == captures[..m];
  }

  lemma CandidatesStep(captures: seq<seq<Option<string>>>, p: nat)
    requires p < |captures|
    ensures Candidates(captures[..p + 1]) == Candidates(captures[..p]) + MatchComments(captures[p])
  {
    assert captures[..p + 1][..p] == captures[..p];
    assert captures[p][..|captures[p]|] == captures[p];
  }

  // ---------------------------------------------------------------------------------
  // Dispatch

  datatype FileKind = Pdf | Docx | Image

  /** The file type the extension of the lower-cased file name selects, tested in the order `processUploadedFile` tests them. */
  function FileKindOf(name: string): (k: Option<FileKind>)
    ensures k == Some(Pdf) <==> EndsWith(ToLower(name), ".pdf")
    ensures k == Some(Docx) <==>
      !EndsWith(ToLower(name), ".pdf") && (EndsWith(ToLower(name), ".docx") || EndsWith(ToLower(name), ".doc"))
    ensures k == None <==>
      !(EndsWith(ToLower(name), ".pdf") || EndsWith(ToLower(name), ".docx") || EndsWith(ToLower(name), ".doc")
        || EndsWith(ToLower(name), ".jpg") || EndsWith(ToLower(name), ".jpeg") || EndsWith(ToLower(name), ".png"))
  {
    var n := ToLower(name);
    if EndsWith(n, ".pdf") then Some(Pdf)
    else if EndsWith(n, ".docx") || EndsWith(n, ".doc") then Some(Docx)
    else if EndsWith(n, ".jpg") || EndsWith(n, ".jpeg") || EndsWith(n, ".png") then Some(Image)
    else None
  }

  /** The dispatch ignores letter case: "ESSAY.PDF" is read as a PDF. */
  lemma FileKindIgnoresCase(name: string)
    ensures FileKindOf(ToLower(name)) == FileKindOf(name)
  {
    ToLowerIdempotent(name);
  }

  /** `processUploadedFile`: dispatch on the extension, attach the comments of non-empty text, keep the real file name. */
  method ProcessUploadedFile(
    name: string,
    extraction: Extraction,
    scan: string -> seq<seq<Option<string>>>,
    generate: string -> Option<string>,
    parse: string -> Option<ParsedJson>)
    returns (r: Result<ExtractedDocument>)
    ensures FileKindOf(name).None? ==> r == Err(UnsupportedError)
    ensures FileKindOf(name) == Some(Pdf) ==> (r.Err? <==> extraction.pdfPages.None?)
    ensures FileKindOf(name) == Some(Pdf) && r.Ok? ==>
      r.value.text == CleanPdfText(PagesText(extraction.pdfPages.value))
      && r.value.metadata == Some(Metadata(name, "pdf", Some(|extraction.pdfPages.value|)))
    ensures FileKindOf(name) == Some(Docx) ==> (r.Err? <==> extraction.docxText.None?)
    ensures FileKindOf(name) == Some(Docx) && r.Ok? ==>
      r.value.text == CleanDocxText(extraction.docxText.value) && r.value.metadata == Some(Metadata(name, "docx", None))
    ensures FileKindOf(name) == Some(Image) ==> (r.Err? <==> extraction.ocrText.None?)
    ensures FileKindOf(name) == Some(Image) && r.Ok? ==>
      r.value.text == CleanOcrText(extraction.ocrText.value) && r.value.metadata == Some(Metadata(name, "image", None))
    ensures r.Err? ==> r.message in {UnsupportedError, PdfError, DocxError, ImageError}
    ensures FileKindOf(name) == Some(Pdf) && r.Err? ==> r.message == PdfError
    ensures FileKindOf(name) == Some(Docx) && r.Err? ==> r.message == DocxError
    ensures FileKindOf(name) == Some(Image) && r.Err? ==> r.message == ImageError
    ensures r.Ok? ==> (r.value.teacherComments.Some? <==> r.value.text != [])
    ensures r.Ok? && r.value.text != [] ==>
      r.value.teacherComments.value
        == MergeComments(Candidates(scan(r.value.text)), AiComments(generate(PromptExcerpt(r.value.text)), parse))
  {
    var kind := FileKindOf(name);
    var result: Result<ExtractedDocument>;
    match kind {
      case None =>
        return Err(UnsupportedError);
      case Some(Pdf) =>
        result := ExtractTextFromPdf(extraction.pdfPages);
      case Some(Docx) =>
        result := ExtractTextFromDocx(extraction.docxText);
      case Some(Image) =>
        result := ExtractTextFromImage(extraction.ocrText);
    }
    if result.Err? {
      return result;
    }
    var doc := result.value;
    if doc.text != [] {
      var comments := ExtractComments(doc.text, scan, generate, parse);
      doc := doc.(teacherComments := Some(comments));
    }
    if doc.metadata.Some? {
      doc := doc.(metadata := Some(doc.metadata.value.(fileName := name)));
    }
    r := Ok(doc);
  }
}
