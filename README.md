# insight-doc-ai: a verified model of ingestion, retrieval and citation linking

This project models, in Dafny, the core of a document question-answering
service. The service ingests a PDF or Word file, retrieves the pages relevant
to a question, and streams an answer that cites pages. The model covers
three pieces:

- **Ingestion** (`backend/file_processor.py`, module `FileProcessor`):
  - the extension check of `SecurityCheck.validate_file`, using
    `os.path.splitext` and `str.lower`;
  - the output path of `FileConverter.docx_to_pdf`;
  - the fallback text of `MultimodalIngestor._get_image_description`;
  - the page documents that `MultimodalIngestor.process_pdf` builds: page
    text, a newline, then one `[Visual Diagram k Description]` annotation per
    image that could be read, with metadata `{source: basename, page: i+1}`.
- **Retrieval** (`backend/rag_engine.py`, module `RagEngine`):
  - `RAGEngine._rerank_results`: it builds the passages, sorts the
    reranker's results by descending score, keeps the first `top_n` and
    rebuilds documents from them;
  - the grounding context that `RAGEngine.stream_answer` joins from the
    kept documents as `[Page p] content` entries.
- **Citation linking** (`static/script.js`, module `Citations`):
  - `formatCitations`, which wraps every `[Page N]` in a clickable span;
  - `jumpToPage`, which points the PDF frame at `#page=N`.
  - Module `CitationFlow` connects the pieces. The grounding context goes
    to the language model, not to `formatCitations`; the answer links a page
    only when it repeats an entry's `[Page N]` tag. For such a repeated tag,
    a page number written by ingestion becomes a link, and clicking the link
    shows that page.

Helper modules:

- `Text`: decimal rendering, Python `strip`, ASCII `lower`, `rfind` and
  `join`.
- `Seqs`: mapping over sequences and multiset facts.
- `Documents`: the LangChain `Document`, whose metadata is a map from
  strings to integer or string values.

Foreign components become inputs of the model:

- the vector store and FlashRank reranker (the scored results are a
  parameter);
- PyMuPDF (whether the file opens, each page's text and image list);
- PIL and image extraction (whether each image could be read);
- the Gemini vision model (its reply, or an error);
- docx2pdf (whether the conversion succeeded).

Paths follow POSIX `os.path`.

Error behaviour of the retrieval code:

- `_rerank_results` has no fallback when the reranker raises; the exception
  propagates to the caller.
- `stream_answer` yields no diagnostic fragment when generation fails.

## Model

| member | source | states |
|---|---|---|
| RagEngine.Passages | backend/rag_engine.py:61-64 | one passage per retrieved document, in order, with that document's text and metadata; the id is the decimal rendering of its position |
| RagEngine.PassageIdsDistinct | backend/rag_engine.py:61-64 | passages of one retrieval never share an id, even for equal documents |
| RagEngine.SortByScoreDesc | backend/rag_engine.py:69 | the sorted results are a permutation of the reranker's results with non-increasing scores |
| RagEngine.SortByScoreDescStable | backend/rag_engine.py:69 | the sort is stable: for every score, the results with that score keep the reranker's order |
| RagEngine.SliceTo | backend/rag_engine.py:69 | Python `[:n]`: the first `min(n, len)` elements, or all but the last `-n` for negative `n` |
| RagEngine.Select | backend/rag_engine.py:69 | the kept results number `min(top_n, len)`, are sorted by descending score, and are drawn from the results |
| RagEngine.SelectStable | backend/rag_engine.py:69 | for every score, the kept results with that score are the first ones of that score in reranker order |
| RagEngine.SelectKeepsBest | backend/rag_engine.py:69 | no dropped result scores higher than any kept result |
| RagEngine.Rerank | backend/rag_engine.py:56-76 | `top_n >= 0` keeps `min(top_n, len(results))` documents, each rebuilt from a reranker result, none more often than its result occurs |
| RagEngine.RerankResults | backend/rag_engine.py:56-76 | the append loop returns one document per kept result, in sorted order; when the reranker returned each passage once, the documents are drawn from the retrieved ones and number `min(top_n, len(initial_docs))` |
| RagEngine.RerankFromRetrieved | backend/rag_engine.py:61-76 | every returned document is a retrieved document, returned no more often than it was retrieved |
| RagEngine.RerankLength | backend/rag_engine.py:61-76 | with one result per retrieved document, exactly `min(top_n, len(initial_docs))` documents come back |
| RagEngine.PageLabel | backend/rag_engine.py:91 | a document without a page number is labelled `?`; a non-negative page number is labelled with its decimal digits |
| RagEngine.ContextEntry | backend/rag_engine.py:91 | an entry opens with `[Page ` and ends with `] ` followed by the document's content |
| RagEngine.ContextText | backend/rag_engine.py:90-92 | no documents give the empty context; one document gives its entry alone |
| RagEngine.ContextTextSplit | backend/rag_engine.py:90-92 | the context splits at any inner position into the two parts' contexts with one blank line between them |
| RagEngine.ContextTextAppend | backend/rag_engine.py:90-92 | one more document appends a blank line and its entry |
| RagEngine.ContextTextLength | backend/rag_engine.py:90-92 | the context is as long as its entries plus two characters between each pair |
| RagEngine.AnswerContextEntries | backend/rag_engine.py:83-92 | the answer is grounded on `min(3, retrieved)` documents, and an empty retrieval gives an empty context |
| RagEngine.SingleBestContext | backend/rag_engine.py:69-92 | with `top_n = 1` and one result outscoring all others, the context is exactly that result's `[Page p] content` entry |
| Text.Strip | backend/file_processor.py:55 | `strip()` removes exactly the leading and trailing whitespace and keeps the middle unchanged |
| Text.Lower | backend/file_processor.py:18 | `lower()` keeps the length and lower-cases each ASCII letter |
| FileProcessor.Basename | backend/file_processor.py:111 | `os.path.basename` is the longest suffix without a separator |
| FileProcessor.SplitExt | backend/file_processor.py:17 | `splitext` parts concatenate to the path; the extension is empty, or it is a dot plus non-dot, non-separator characters after a final component that is not all dots |
| FileProcessor.SplitExtOfStemAndExtension | backend/file_processor.py:17 | every stem and extension pair is split back into exactly that pair |
| FileProcessor.SplitExtEmptyIff | backend/file_processor.py:17 | `splitext` finds no extension exactly when no suffix is an extension after a stem |
| FileProcessor.ValidateFile | backend/file_processor.py:12-18 | a path passes exactly when it ends in `.pdf` or `.docx`, in any letter case, after a stem |
| FileProcessor.ValidateFileIgnoresCase | backend/file_processor.py:18 | `name.PDF` passes |
| FileProcessor.ValidateFileUsesLastExtension | backend/file_processor.py:17-18 | only the last extension decides: `x.pdf.exe` is judged by `.exe` |
| FileProcessor.ValidateFileRejectsNoDot | backend/file_processor.py:16-18 | a final component without a dot is rejected |
| FileProcessor.ValidateFileRejectsDotFile | backend/file_processor.py:16-18 | a hidden file such as `uploads/.pdf` is rejected |
| FileProcessor.DocxToPdf | backend/file_processor.py:27-39 | a failed conversion returns the input path; a successful one returns the input's `splitext` stem followed by `.pdf`, which `splitext` splits back into that stem and `.pdf` whenever the stem is one (so not for `dir/`, which becomes `dir/.pdf`) |
| FileProcessor.DocxToPdfKeepsValid | backend/file_processor.py:16-39 | a path that passed the check still passes after conversion, and keeps its stem |
| FileProcessor.ImageDescription | backend/file_processor.py:52-58 | a failed vision call gives `Image analysis failed.`; otherwise the infix of the reply left after removing all leading and all trailing whitespace, and nothing more |
| FileProcessor.AnnotationsAppend | backend/file_processor.py:88-103 | annotating a list in two parts gives the same text, with labels continuing across the parts |
| FileProcessor.AnnotationLabelIsListPosition | backend/file_processor.py:88-103 | the image at list index `k` is labelled `k+1`, even when earlier images failed |
| FileProcessor.Annotation | backend/file_processor.py:88-103 | an image adds nothing exactly when it could not be extracted; otherwise its annotation ends with its description and a newline |
| FileProcessor.VisualContext | backend/file_processor.py:88-105 | a page's annotations are empty exactly when none of its images could be extracted |
| FileProcessor.VisionFailureIsAnnotated | backend/file_processor.py:56-102 | an image whose description failed is still annotated, with the fallback text |
| FileProcessor.DescribeImages | backend/file_processor.py:85-103 | the image loop builds exactly the page's annotations, in image-list order |
| FileProcessor.PageDocument | backend/file_processor.py:106-112 | a page's content is its text, a newline and its annotations; its metadata holds the base name as `source` and the page number as `page` |
| FileProcessor.ProcessPdf | backend/file_processor.py:60-115 | an unopenable file gives no documents; otherwise one document per page, in order, with content `text + "\n" + annotations` and metadata of the base name and page `i+1` |
| FileProcessor.PageMetadataFields | backend/file_processor.py:111-112 | page metadata holds exactly `source` (the base name) and `page` (the page number) |
| Citations.MatchAtIsTag | static/script.js:150 | the pattern matches at a position exactly when `[Page ` is followed by one or more ASCII digits and `]`, and the digit count is unique |
| Citations.TagIsMatched | static/script.js:150 | `[Page N]` with digits N matches, whatever follows |
| Citations.TokenizeDigits | static/script.js:150-153 | every linked piece carries the one or more ASCII digits that `\d+` matched |
| Citations.NoMatchInsideMatch | static/script.js:150 | no match starts strictly inside another match, so matches never overlap |
| Citations.TokenizeLinksEveryMatch | static/script.js:150-153 | every position where the pattern matches starts a linked piece carrying that match's digits |
| Citations.TokenizeResumesAtPiece | static/script.js:150-153 | the scan is left to right: restarted at the offset where any piece begins, it reads exactly the remaining pieces |
| Citations.TokenizePieceAt | static/script.js:150-153 | each piece sits where the scan read it: a kept character at a position where the pattern does not match, a link at a position where it matches, with the matched digits |
| Citations.SourceOfTokenize | static/script.js:150-153 | the scan keeps all text: text between matches and each matched tag are verbatim, so removing the spans gives back the input |
| Citations.TokenizeFindsCitation | static/script.js:150-153 | the scan links something exactly when the pattern matches somewhere |
| Citations.FormatCitations | static/script.js:149-154 | the output is never shorter, and it equals the input exactly when the input holds no `[Page N]` |
| Citations.SpanHasCitation | static/script.js:152 | each inserted span contains its own `[Page N]` match, whatever follows it |
| Citations.RenderKeepsCitations | static/script.js:152 | output in which something was linked still holds some `[Page N]` match |
| Citations.FormatNotIdempotent | static/script.js:149-154 | formatting formatted HTML again changes it: spans get wrapped a second time |
| Citations.NonNumericTagUnchanged | static/script.js:150 | tags like `[Page ?]` and `[Page ]` are left as they are |
| Citations.HandlerPageNumber | static/script.js:152 | the handler's argument is the decimal value of the digits, except that a leading `0` followed by octal digits only reads as an octal number |
| Citations.HandlerReadsRenderedPage | static/script.js:152 | the handler receives the page number whose decimal digits are in the tag |
| Citations.LeadingZeroReadsOctal | static/script.js:152 | `[Page 010]` reaches the handler as 8, because `jumpToPage(010)` is a legacy octal literal |
| Citations.PageUrl | static/script.js:158 | the frame address is the file, `#page=`, then digits that read back as the page number |
| Citations.Viewer.constructor | static/script.js:2 | no PDF is loaded at start |
| Citations.Viewer.JumpToPage | static/script.js:156-168 | with a loaded file, the frame shows `file#page=N`; with none, the frame is unchanged and the alert text is returned; the loaded file never changes |
| Citations.Viewer.ClickCitation | static/script.js:152-158 | clicking a span jumps to the page number its handler receives |
| CitationFlow.PageTagIsLinked | static/script.js:150-152 | the tag the server writes for page `p` becomes one link with the digits of `p`, and scanning resumes after it |
| CitationFlow.ContextEntryLinksPage | backend/rag_engine.py:91 | a grounding entry for page `p >= 0` starts with a link whose handler receives `p` |
| CitationFlow.MissingPageNotLinked | backend/rag_engine.py:91 | the `[Page ?]` entry of a page-less document is not linked |
| CitationFlow.IngestedPageIsLinked | backend/file_processor.py:111 | every ingested page's entry links to its own page number |
| CitationFlow.FollowEntryLink | static/script.js:152-158 | clicking the link of a numbered entry shows that page of the loaded PDF |

## Left out

- The vector store, the FlashRank model, the Gemini models, PyMuPDF, PIL and
  docx2pdf are external libraries. Their outputs are parameters.
- `ingest_document` is a single call into the vector store.
- The prompt template and the token streaming of `stream_answer`
  (`backend/rag_engine.py:94-121`) are calls into the language model.
- What the language model writes is not modelled. The `CitationFlow` lemmas
  apply to an answer that repeats a grounding entry's `[Page N]` tag
  verbatim; whether it does is up to the model.
- The broad retrieval of `k = 10` documents is a vector-store query. The
  retrieved documents are an input.
- Console logging (`print`) has no effect on results.
- Relevance scores are modelled as integers, not floats. Only their order
  matters to the sort.
- RagEngine.RerankFromRetrieved: assumes that the reranker returns each given
  passage exactly once and unaltered. The reranker is foreign code, so this
  is an assumption about it.
- Metadata values are integers or strings. Python `str()` of other types is
  not modelled.
- `Text.Lower` lower-cases ASCII letters only. Python's full Unicode lower
  could map a non-ASCII character into `.pdf`/`.docx` letters. No character
  does that, so the verdict of the check is unaffected.
- Paths use the POSIX separator `/`. Windows `os.path` semantics are not
  modelled.
- An exception from `page.get_text()` propagates out of `process_pdf` in the
  source. It is not modelled.
- `main.py`, which decides when `docx_to_pdf` is called, is not part of this
  model.
- `innerHTML` is treated as a plain string. The browser's re-parsing and
  re-serialisation of HTML on assignment are not modelled.
- The `sendMessage` read loop (`static/script.js:126-133`) is UI code. It
  appends each chunk to `innerHTML` and re-applies `formatCitations`. Its
  consequence, wrapping again, is stated by `Citations.FormatNotIdempotent`.
- Citations.HandlerPageNumber: the page number is an unbounded natural.
  JavaScript numbers lose precision from 2^53 and print in exponent form
  from 10^21.
- The mobile scroll in `jumpToPage` (`static/script.js:159-164`) is UI.
  Uploading a file, which sets `currentPdfFile` (`static/script.js:77-78`),
  is UI too.
