/**
 * Turning a PDF into the text handed to the extractor: one block per page,
 * each introduced by a page marker, with a placeholder for pages that give
 * no text. Failures do not propagate; they come back as text with a fixed
 * prefix that the extractor recognises.
 */
module PageText {
  import opened Basics

  /** What the PDF library gives for one page: its text (None when it finds none), or an exception. */
  datatype PageExtraction = Extracted(text: Option<string>) | ExtractRaised(exc: Exc)

  /** Opening the document either fails or yields its pages in order. */
  datatype PdfInput = OpenFailed(exc: Exc) | Opened(pages: seq<PageExtraction>)

  const ErrorPrefix := "Error processing PDF with pdfplumber:"

  function ErrorText(e: Exc): (r: string)
    ensures StartsWith(r, ErrorPrefix)
  {
    ErrorPrefix + " " + e.typeName + " - " + e.message
  }

  /** "\n--- PAGE <n> ---\n" for the page at position i (n = i + 1). */
  function PageMarker(i: nat): string {
    "\n--- PAGE " + NatToString(i + 1) + " ---\n"
  }

  /** The text of one page: the placeholder when there is none, else the text without "None". */
  function PageBody(i: nat, text: Option<string>): string {
    if text.None? then "[INFO: Page " + NatToString(i + 1) + " yielded no text directly]"
    else ReplaceAll(text.value, "None", "")
  }

  function PageBlock(i: nat, text: Option<string>): string {
    PageMarker(i) + PageBody(i, text)
  }

  /** The first `n` pages all gave text (or nothing) rather than raising. */
  predicate ExtractedBefore(pages: seq<PageExtraction>, n: nat) {
    n <= |pages| && forall j :: 0 <= j < n ==> pages[j].Extracted?
  }

  /** The blocks of the first `n` pages, concatenated in page order. */
  function JoinedPages(pages: seq<PageExtraction>, n: nat): string
    requires ExtractedBefore(pages, n)
  {
    if n == 0 then ""
    else JoinedPages(pages, n - 1) + PageBlock(n - 1, pages[n - 1].text)
  }

  /** The first page at position `i` or later whose extraction raised, if any. */
  function FirstRaisedFrom(pages: seq<PageExtraction>, i: nat): (r: Option<nat>)
    requires i <= |pages|
    ensures r.None? ==> forall j :: i <= j < |pages| ==> pages[j].Extracted?
    ensures r.Some? ==>
      (i <= r.value < |pages| && pages[r.value].ExtractRaised?
       && forall j :: i <= j < r.value ==> pages[j].Extracted?)
    decreases |pages| - i
  {
    if i == |pages| then None
    else if pages[i].ExtractRaised? then Some(i)
    else FirstRaisedFrom(pages, i + 1)
  }

  /** What the preprocessing step returns for a document. */
  function Preprocessed(pdf: PdfInput): string {
    match pdf
    case OpenFailed(e) => ErrorText(e)
    case Opened(pages) =>
      match FirstRaisedFrom(pages, 0)
      case Some(k) => ErrorText(pages[k].exc)
      case None => JoinedPages(pages, |pages|)
  }

  /**
   * Extracts the text of every page in order; the first exception ends
   * the loop and its description is returned instead.
   */
  method PreprocessPdfText(pdf: PdfInput) returns (text: string)
    ensures text == Preprocessed(pdf)
  {
    if pdf.OpenFailed? {
      return ErrorText(pdf.exc);
    }
    var pages := pdf.pages;
    var parts: seq<string> := [];
    var i := 0;
    while i < |pages|
      invariant ExtractedBefore(pages, i)
      invariant FirstRaisedFrom(pages, 0) == FirstRaisedFrom(pages, i)
      invariant Concat(parts) == JoinedPages(pages, i)
    {
      if pages[i].ExtractRaised? {
        return ErrorText(pages[i].exc);
      }
      var pageText := PageBody(i, pages[i].text);
      ghost var before := parts;
      parts := parts + [PageMarker(i) + pageText];
      assert parts[..|parts| - 1] == before;
      i := i + 1;
    }
    text := Concat(parts);
  }

  /** The full text begins with the marker of page 1, unless there are no pages. */
  lemma {:induction false} JoinedPagesStart(pages: seq<PageExtraction>, n: nat)
    requires ExtractedBefore(pages, n)
    ensures n == 0 ==> JoinedPages(pages, n) == ""
    ensures n > 0 ==> StartsWith(JoinedPages(pages, n), PageMarker(0))
  {
    if n > 1 {
      JoinedPagesStart(pages, n - 1);
      PrefixExtends(JoinedPages(pages, n - 1), PageBlock(n - 1, pages[n - 1].text), PageMarker(0));
    } else if n == 1 {
      assert JoinedPages(pages, 1) == PageBlock(0, pages[0].text);
      PrefixExtends(PageMarker(0), PageBody(0, pages[0].text), PageMarker(0));
    }
  }

  lemma PrefixExtends(a: string, b: string, p: string)
    requires StartsWith(a, p)
    ensures StartsWith(a + b, p)
  {
    assert (a + b)[..|p|] == a[..|p|];
  }

  /**
   * A successful result can never be mistaken for a failure: it is empty
   * or starts with a newline, while a failure starts with the error
   * prefix. A failure always carries the prefix.
   */
  lemma SuccessAndFailureDistinct(pdf: PdfInput)
    ensures var ok := pdf.Opened? && ExtractedBefore(pdf.pages, |pdf.pages|);
      ok == !StartsWith(Preprocessed(pdf), ErrorPrefix)
    ensures pdf.Opened? && ExtractedBefore(pdf.pages, |pdf.pages|) ==>
      Preprocessed(pdf) == "" || StartsWith(Preprocessed(pdf), PageMarker(0))
  {
    if pdf.Opened? && ExtractedBefore(pdf.pages, |pdf.pages|) {
      JoinedPagesStart(pdf.pages, |pdf.pages|);
      var r := Preprocessed(pdf);
      if |r| > 0 {
        assert r[0] == '\n';
        assert ErrorPrefix[0] == 'E';
      }
    }
  }

  /** One left-to-right pass does not remove occurrences that the removal itself creates. */
  lemma SinglePassMayLeaveNone()
    ensures PageBody(0, Some("NNoneone")) == "None"
  {
    assert ReplaceAll("one", "None", "") == "one";
    assert ReplaceAll("Noneone", "None", "") == "one";
    assert ReplaceAll("NNoneone", "None", "") == "None";
  }
}
