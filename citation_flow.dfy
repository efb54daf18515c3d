/** How a page number travels from an ingested page to the viewer: the
    server writes `[Page N]` in front of each grounding entry
    (`backend/rag_engine.py`); when the answer repeats that tag verbatim, the
    browser turns it into a span (`formatCitations`) and a click on the span
    moves the PDF frame to page N (`jumpToPage`). What the language model
    writes is not part of this model. */
module CitationFlow {
  import opened Text
  import opened Documents
  import opened Citations
  import RagEngine
  import FileProcessor

  /** The tag the server writes for a page number. */
  function PageTag(page: nat): string {
    TagOpen + NatToString(page) + "]"
  }

  /** A server tag is linked as one citation carrying the page's digits,
      and scanning resumes right after it. */
  lemma PageTagIsLinked(page: nat, rest: string)
    ensures Tokenize(PageTag(page) + rest) == [Citation(NatToString(page))] + Tokenize(rest)
  {
    TokenizeOfTag(NatToString(page), rest);
  }

  /** The grounding entry of a document numbered with page `p >= 0` starts
      with a link whose click handler receives `p` again. */
  lemma ContextEntryLinksPage(d: Document)
    requires "page" in d.metadata && d.metadata["page"].IntValue? && d.metadata["page"].i >= 0
    ensures var page := d.metadata["page"].i;
            Tokenize(RagEngine.ContextEntry(d)) == [Citation(NatToString(page))] + Tokenize(" " + d.pageContent)
            && HandlerPageNumber(NatToString(page)) == page
  {
    var page := d.metadata["page"].i;
    assert RagEngine.PageLabel(d.metadata) == NatToString(page);
    assert RagEngine.ContextEntry(d) == PageTag(page) + (" " + d.pageContent);
    PageTagIsLinked(page, " " + d.pageContent);
    HandlerReadsRenderedPage(page);
  }

  /** A document without a page number is cited as `[Page ?]`, which is not
      linked: the entry's first piece is its plain `[`. */
  lemma MissingPageNotLinked(d: Document)
    requires "page" !in d.metadata
    ensures Tokenize(RagEngine.ContextEntry(d))[0] == Plain('[')
  {
    var entry := RagEngine.ContextEntry(d);
    assert entry == TagOpen + "?" + "]" + (" " + d.pageContent);
    assert !IsDigit("?"[0]);
    NonNumericTagNotMatched("?", " " + d.pageContent);
    TokenizePlain(entry);
  }

  /** Every page document `process_pdf` builds is numbered, so its grounding
      entry links to its own page. */
  lemma IngestedPageIsLinked(filePath: string, page: FileProcessor.PageInput, pageNum: nat)
    ensures var d := FileProcessor.PageDocument(filePath, page, pageNum);
            Tokenize(RagEngine.ContextEntry(d)) == [Citation(NatToString(pageNum))] + Tokenize(" " + d.pageContent)
            && HandlerPageNumber(NatToString(pageNum)) == pageNum
  {
    FileProcessor.PageMetadataFields(filePath, pageNum);
    ContextEntryLinksPage(FileProcessor.PageDocument(filePath, page, pageNum));
  }

  /** Clicking the link in front of a numbered entry shows that page of the
      loaded PDF. */
  method FollowEntryLink(viewer: Viewer, d: Document) returns (alert: Option<string>)
    requires "page" in d.metadata && d.metadata["page"].IntValue? && d.metadata["page"].i >= 0
    modifies viewer
    ensures viewer.currentPdfFile == old(viewer.currentPdfFile)
    ensures old(viewer.HasFile()) ==>
              viewer.frameSrc == PageUrl(viewer.currentPdfFile.value, d.metadata["page"].i) && alert == None
    ensures !old(viewer.HasFile()) ==> viewer.frameSrc == old(viewer.frameSrc) && alert == Some(NoPdfMessage)
  {
    ContextEntryLinksPage(d);
    TokenizeDigits(RagEngine.ContextEntry(d));
    var digits := Tokenize(RagEngine.ContextEntry(d))[0].digits;
    alert := viewer.ClickCitation(digits);
  }
}
