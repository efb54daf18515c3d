/** The ingestion helpers of `backend/file_processor.py`: the extension check
    of `SecurityCheck.validate_file`, the output path of
    `FileConverter.docx_to_pdf`, the description fallback of
    `MultimodalIngestor._get_image_description` and the page records built by
    `MultimodalIngestor.process_pdf`.

    PyMuPDF, PIL, docx2pdf and the Gemini vision model are not part of this
    model: whether the file opens, each page's text, whether each image could
    be extracted, what the vision model answered and whether the conversion
    succeeded are inputs. Paths follow POSIX `os.path` (separator `/`). */
module FileProcessor {
  import opened Text
  import opened Documents

  // ---------------------------------------------------------------------------
  // os.path.basename and os.path.splitext
  // ---------------------------------------------------------------------------

  /** `os.path.basename`: the longest suffix of `p` without a separator. */
  function Basename(p: string): (name: string)
    ensures |name| <= |p| && name == p[|p| - |name|..]
    ensures '/' !in name
    ensures |name| < |p| ==> p[|p| - |name| - 1] == '/'
  {
    p[RFind(p, '/') + 1..]
  }

  predicate AllDots(s: string) {
    forall i :: 0 <= i < |s| ==> s[i] == '.'
  }

  /** A file extension as `splitext` reports it: a dot followed by characters
      that are neither dots nor separators. */
  predicate IsExtension(e: string) {
    |e| >= 1 && e[0] == '.' && forall i :: 1 <= i < |e| ==> e[i] != '.' && e[i] != '/'
  }

  /** A stem that an extension may follow: its final component holds a
      character other than a dot (leading dots do not start an extension). */
  predicate HasStem(root: string) {
    !AllDots(Basename(root))
  }

  /** `RFind` is determined by its contract. */
  lemma RFindIs(s: string, c: char, r: int)
    requires -1 <= r < |s|
    requires r >= 0 ==> s[r] == c
    requires forall k :: r < k < |s| ==> s[k] != c
    ensures RFind(s, c) == r
  {
  }

  /** `os.path.splitext`: splits at the last dot of the final component unless
      everything before that dot in the component is dots. */
  function SplitExt(p: string): (parts: (string, string))
    ensures parts.0 + parts.1 == p
    ensures parts.1 == [] || (IsExtension(parts.1) && HasStem(parts.0))
  {
    var sepIndex := RFind(p, '/');
    var dotIndex := RFind(p, '.');
    if dotIndex > sepIndex && !AllDots(p[sepIndex + 1..dotIndex]) then
      SplitAtLastDot(p, sepIndex, dotIndex);
      (p[..dotIndex], p[dotIndex..])
    else
      (p, "")
  }

  lemma ExtensionAfterLastDot(p: string, sepIndex: int, dotIndex: int)
    requires sepIndex == RFind(p, '/') && dotIndex == RFind(p, '.') && sepIndex < dotIndex
    ensures IsExtension(p[dotIndex..])
  {
    var e := p[dotIndex..];
    forall i | 1 <= i < |e| ensures e[i] != '.' && e[i] != '/' {
      assert e[i] == p[dotIndex + i];
    }
  }

  /** The final component of a prefix that extends past the last separator. */
  lemma BasenameOfPrefix(p: string, sepIndex: int, end: nat)
    requires sepIndex == RFind(p, '/') && sepIndex < end <= |p|
    ensures Basename(p[..end]) == p[sepIndex + 1..end]
  {
    RFindPrefix(p, '/', end);
  }

  lemma SplitAtLastDot(p: string, sepIndex: int, dotIndex: int)
    requires sepIndex == RFind(p, '/') && dotIndex == RFind(p, '.') && sepIndex < dotIndex
    requires !AllDots(p[sepIndex + 1..dotIndex])
    ensures IsExtension(p[dotIndex..]) && HasStem(p[..dotIndex])
    ensures p[..dotIndex] + p[dotIndex..] == p
  {
    BasenameOfPrefix(p, sepIndex, dotIndex);
    ExtensionAfterLastDot(p, sepIndex, dotIndex);
  }

  /** Every split into a stem and an extension is the one `splitext` finds. */
  lemma SplitExtOfStemAndExtension(stem: string, ext: string)
    requires HasStem(stem) && IsExtension(ext)
    ensures SplitExt(stem + ext) == (stem, ext)
  {
    var p := stem + ext;
    var s := RFind(stem, '/');
    LastSeparatorInStem(stem, ext);
    LastDotStartsExtension(stem, ext);
    assert p[s + 1..|stem|] == Basename(stem);
    assert p[..|stem|] == stem && p[|stem|..] == ext;
  }

  lemma LastSeparatorInStem(stem: string, ext: string)
    requires IsExtension(ext)
    ensures RFind(stem + ext, '/') == RFind(stem, '/')
  {
    var p := stem + ext;
    var s := RFind(stem, '/');
    forall k | s < k < |p| ensures p[k] != '/' {
      if k < |stem| { assert p[k] == stem[k]; } else { assert p[k] == ext[k - |stem|]; }
    }
    RFindIs(p, '/', s);
  }

  lemma LastDotStartsExtension(stem: string, ext: string)
    requires IsExtension(ext)
    ensures RFind(stem + ext, '.') == |stem|
  {
    var p := stem + ext;
    forall k | |stem| < k < |p| ensures p[k] != '.' {
      assert p[k] == ext[k - |stem|];
    }
    RFindIs(p, '.', |stem|);
  }

  lemma SplitExtAt(p: string, i: nat)
    requires i <= |p| && HasStem(p[..i]) && IsExtension(p[i..])
    ensures SplitExt(p) == (p[..i], p[i..])
  {
    var stem, ext := p[..i], p[i..];
    assert stem + ext == p;
    SplitExtOfStemAndExtension(stem, ext);
  }

  lemma SplitExtWitness(p: string)
    ensures var i := |SplitExt(p).0|;
            i <= |p| && p[..i] == SplitExt(p).0 && p[i..] == SplitExt(p).1
  {
  }

  /** `splitext` finds no extension exactly when no suffix of the path is an
      extension that follows a stem. */
  lemma SplitExtEmptyIff(p: string)
    ensures SplitExt(p).1 == [] <==>
            forall i :: 0 <= i <= |p| ==> !(HasStem(p[..i]) && IsExtension(p[i..]))
  {
    forall i | 0 <= i <= |p| && HasStem(p[..i]) && IsExtension(p[i..]) ensures SplitExt(p).1 == p[i..] {
      SplitExtAt(p, i);
    }
    SplitExtWitness(p);
  }

  // ---------------------------------------------------------------------------
  // SecurityCheck.validate_file
  // ---------------------------------------------------------------------------

  predicate AcceptedExtension(ext: string) {
    ext == ".pdf" || ext == ".docx"
  }

  /** `ext.lower() in {'.pdf', '.docx'}` for the extension `splitext` finds:
      a path passes exactly when it ends in `.pdf` or `.docx`, in any letter
      case, after a final component that is not only dots. */
  function ValidateFile(filePath: string): (ok: bool)
    ensures ok <==>
            exists i :: 0 <= i <= |filePath| && HasStem(filePath[..i]) && AcceptedExtension(Lower(filePath[i..]))
  {
    LastExtensionAcceptedIff(filePath);
    AcceptedExtension(Lower(SplitExt(filePath).1))
  }

  lemma LowerAcceptedIsExtension(e: string)
    requires AcceptedExtension(Lower(e))
    ensures IsExtension(e)
  {
    var l := Lower(e);
    assert LowerChar(e[0]) == l[0] == '.';
    forall i | 1 <= i < |e| ensures e[i] != '.' && e[i] != '/' {
      assert LowerChar(e[i]) == l[i];
    }
  }

  /** The extension `splitext` finds is accepted exactly when some stem is
      followed by an accepted extension. */
  lemma LastExtensionAcceptedIff(p: string)
    ensures AcceptedExtension(Lower(SplitExt(p).1)) <==>
            exists i :: 0 <= i <= |p| && HasStem(p[..i]) && AcceptedExtension(Lower(p[i..]))
  {
    SplitExtWitness(p);
    forall i | 0 <= i <= |p| && HasStem(p[..i]) && AcceptedExtension(Lower(p[i..]))
      ensures SplitExt(p).1 == p[i..]
    {
      LowerAcceptedIsExtension(p[i..]);
      SplitExtAt(p, i);
    }
  }

  /** The check ignores letter case: `report.PDF` passes. */
  lemma ValidateFileIgnoresCase(stem: string)
    requires HasStem(stem)
    ensures ValidateFile(stem + ".PDF")
  {
    SplitExtOfStemAndExtension(stem, ".PDF");
  }

  /** Only the last extension counts: `x.pdf.exe` is judged by `.exe`. */
  lemma ValidateFileUsesLastExtension(stem: string, ext: string)
    requires HasStem(stem) && IsExtension(ext)
    ensures ValidateFile(stem + ext) <==> AcceptedExtension(Lower(ext))
  {
    SplitExtOfStemAndExtension(stem, ext);
  }

  /** A final component without a dot has no extension: `pdf` is rejected. */
  lemma ValidateFileRejectsNoDot(p: string)
    requires '.' !in Basename(p)
    ensures !ValidateFile(p)
  {

  }

  /** A name that starts with its only dot is a hidden file, not an
      extension: `.pdf` and `uploads/.docx` are rejected. */
  lemma ValidateFileRejectsDotFile(dir: string, name: string)
    requires dir == [] || dir[|dir| - 1] == '/'
    requires '.' !in name && '/' !in name
    ensures !ValidateFile(dir + "." + name)
  {
    var p := dir + "." + name;
    assert p[|dir|] == '.';
    assert forall k :: |dir| < k < |p| ==> p[k] == name[k - |dir| - 1];
    RFindIs(p, '.', |dir|);
    RFindIs(p, '/', |dir| - 1);
  }

  // ---------------------------------------------------------------------------
  // FileConverter.docx_to_pdf
  // ---------------------------------------------------------------------------

  /** The path `docx_to_pdf` returns: the input with its extension replaced
      by `.pdf` when the conversion succeeded, the input itself otherwise. */
  function DocxToPdf(docxPath: string, converted: bool): (pdfPath: string)
    ensures !converted ==> pdfPath == docxPath
    ensures converted ==> pdfPath == SplitExt(docxPath).0 + ".pdf"
    ensures converted && HasStem(SplitExt(docxPath).0) ==>
              SplitExt(pdfPath) == (SplitExt(docxPath).0, ".pdf")
  {
    var base := SplitExt(docxPath).0;
    if converted then
      assert HasStem(base) ==> SplitExt(base + ".pdf") == (base, ".pdf") by {
        if HasStem(base) { SplitExtOfStemAndExtension(base, ".pdf"); }
      }
      base + ".pdf"
    else docxPath
  }

  /** A path that passed the check still passes it after conversion, and a
      successful conversion keeps its stem. */
  lemma DocxToPdfKeepsValid(docxPath: string, converted: bool)
    requires ValidateFile(docxPath)
    ensures ValidateFile(DocxToPdf(docxPath, converted))
    ensures converted ==> SplitExt(DocxToPdf(docxPath, converted)) == (SplitExt(docxPath).0, ".pdf")
  {
    var parts := SplitExt(docxPath);
    assert parts.1 != [];
    if converted {
      var pdfPath := DocxToPdf(docxPath, converted);
      assert SplitExt(pdfPath) == (parts.0, ".pdf");
      LowerPdf();
    }
  }

  lemma LowerPdf()
    ensures AcceptedExtension(Lower(".pdf"))
  {
    var l := Lower(".pdf");
    assert l[0] == '.' && l[1] == 'p' && l[2] == 'd' && l[3] == 'f';
    assert l == ".pdf";
  }

  // ---------------------------------------------------------------------------
  // MultimodalIngestor._get_image_description
  // ---------------------------------------------------------------------------

  /** What the vision model call produced: the response text, or an error
      raised by the call or by reading the response. */
  datatype VisionReply = VisionText(text: string) | VisionError

  const AnalysisFailed: string := "Image analysis failed."

  /** The description of one image: the model's text stripped of surrounding
      whitespace, or a fixed fallback when the call failed. */
  function ImageDescription(reply: VisionReply): (d: string)
    ensures reply.VisionError? ==> d == AnalysisFailed
    ensures reply.VisionText? ==>
              LeadingSpaces(reply.text) + |d| <= |reply.text|
              && d == reply.text[LeadingSpaces(reply.text)..LeadingSpaces(reply.text) + |d|]
              && (d != [] ==> !IsPySpace(d[0]) && !IsPySpace(d[|d| - 1]))
              && (forall i :: LeadingSpaces(reply.text) + |d| <= i < |reply.text| ==> IsPySpace(reply.text[i]))
  {
    match reply
    case VisionText(text) => Strip(text)
    case VisionError => AnalysisFailed
  }

  // ---------------------------------------------------------------------------
  // MultimodalIngestor.process_pdf
  // ---------------------------------------------------------------------------

  /** What happened to one image of a page: its bytes could not be extracted
      or opened, or they were sent to the vision model with this reply. */
  datatype ImageOutcome = ExtractionFailed | Extracted(reply: VisionReply)

  /** One page: its text and the outcomes of its images, in image-list order. */
  datatype PageInput = PageInput(text: string, images: seq<ImageOutcome>)

  /** The file could not be opened, or it opened with these pages. */
  datatype PdfInput = OpenFailed | Opened(pages: seq<PageInput>)

  /** The annotation one image adds, labelled with its 1-based position `k`
      in the page's image list; an image that could not be extracted adds
      nothing. */
  function Annotation(k: nat, image: ImageOutcome): (note: string)
    ensures note == "" <==> image.ExtractionFailed?
    ensures image.Extracted? ==>
              |note| > |ImageDescription(image.reply)| + 1
              && note[|note| - |ImageDescription(image.reply)| - 1..] == ImageDescription(image.reply) + "\n"
  {
    match image
    case ExtractionFailed => ""
    case Extracted(reply) =>
      "\n[Visual Diagram " + NatToString(k) + " Description]: " + ImageDescription(reply) + "\n"
  }

  /** The annotations of `images`, labelled from `first` on. */
  function Annotations(images: seq<ImageOutcome>, first: nat): string
  {
    if images == [] then "" else Annotation(first, images[0]) + Annotations(images[1..], first + 1)
  }

  /** The annotations are empty exactly when no image could be extracted. */
  lemma {:induction false} AnnotationsEmptyIff(images: seq<ImageOutcome>, first: nat)
    ensures Annotations(images, first) == "" <==> forall i :: 0 <= i < |images| ==> images[i].ExtractionFailed?
  {
    if images != [] {
      AnnotationsEmptyIff(images[1..], first + 1);
      assert forall i :: 0 < i < |images| ==> images[i] == images[1..][i - 1];
    }
  }

  /** The `visual_context` of a page. */
  function VisualContext(images: seq<ImageOutcome>): (visualContext: string)
    ensures visualContext == "" <==> forall i :: 0 <= i < |images| ==> images[i].ExtractionFailed?
  {
    AnnotationsEmptyIff(images, 1);
    Annotations(images, 1)
  }

  /** Annotating a list in two parts: labels in the second part continue from
      where the first part ends. */
  lemma {:induction false} AnnotationsAppend(a: seq<ImageOutcome>, b: seq<ImageOutcome>, first: nat)
    ensures Annotations(a + b, first) == Annotations(a, first) + Annotations(b, first + |a|)
  {
    if a == [] {
      assert a + b == b;
    } else {
      var head := Annotation(first, a[0]);
      assert (a + b)[0] == a[0];
      assert (a + b)[1..] == a[1..] + b;
      assert Annotations(a + b, first) == head + Annotations(a[1..] + b, first + 1);
      AnnotationsAppend(a[1..], b, first + 1);
      ConcatAssoc(head, Annotations(a[1..], first + 1), Annotations(b, first + |a|));
    }
  }

  lemma AnnotationsSnoc(a: seq<ImageOutcome>, x: ImageOutcome, first: nat)
    ensures Annotations(a + [x], first) == Annotations(a, first) + Annotation(first + |a|, x)
  {
    AnnotationsAppend(a, [x], first);
  }

  /** Annotating one more image of the list appends its annotation. */
  lemma AnnotationsStep(images: seq<ImageOutcome>, k: nat)
    requires k < |images|
    ensures Annotations(images[..k + 1], 1) == Annotations(images[..k], 1) + Annotation(k + 1, images[k])
  {
    assert images[..k + 1] == images[..k] + [images[k]];
    AnnotationsSnoc(images[..k], images[k], 1);
  }

  /** The image at list index `k` is annotated with label `k + 1`, between the
      annotations of the images before it and those after it, whatever
      happened to the earlier images. */
  lemma AnnotationLabelIsListPosition(images: seq<ImageOutcome>, k: nat)
    requires k < |images|
    ensures VisualContext(images) ==
            VisualContext(images[..k]) + Annotation(k + 1, images[k]) + Annotations(images[k + 1..], k + 2)
  {
    assert images == images[..k] + ([images[k]] + images[k + 1..]);
    AnnotationsAppend(images[..k], [images[k]] + images[k + 1..], 1);
  }

  /** A vision-model failure still produces an annotation, with the fallback
      description. */
  lemma VisionFailureIsAnnotated(k: nat)
    ensures Annotation(k, Extracted(VisionError)) ==
            "\n[Visual Diagram " + NatToString(k) + " Description]: Image analysis failed.\n"
  {
  }

  /** The metadata of page `pageNum`: the file's base name and the 1-based
      page number. */
  function PageMetadata(filePath: string, pageNum: int): Metadata {
    map["source" := TextValue(Basename(filePath)), "page" := IntValue(pageNum)]
  }

  /** The `visual_context` loop of `process_pdf` over one page's image list. */
  method DescribeImages(imageList: seq<ImageOutcome>) returns (visualContext: string)
    ensures visualContext == VisualContext(imageList)
  {
    visualContext := "";
    if |imageList| > 0 {
      for imgIndex := 0 to |imageList|
        invariant visualContext == Annotations(imageList[..imgIndex], 1)
      {
        var image := imageList[imgIndex];
        ghost var before := visualContext;
        match image {
          case ExtractionFailed =>
          case Extracted(reply) =>
            var description := ImageDescription(reply);
            visualContext := visualContext
                             + ("\n[Visual Diagram " + NatToString(imgIndex + 1) + " Description]: " + description + "\n");
        }
        assert visualContext == before + Annotation(imgIndex + 1, image);
        AnnotationsStep(imageList, imgIndex);
      }
      assert imageList[..|imageList|] == imageList;
    }
  }

  /** A page document is labelled with its file's base name and its page
      number, and with nothing else. */
  lemma PageMetadataFields(filePath: string, pageNum: int)
    ensures PageMetadata(filePath, pageNum).Keys == {"source", "page"}
    ensures PageMetadata(filePath, pageNum)["source"] == TextValue(Basename(filePath))
    ensures PageMetadata(filePath, pageNum)["page"] == IntValue(pageNum)
  {
  }

  /** The document `process_pdf` builds for one page. */
  function PageDocument(filePath: string, page: PageInput, pageNum: int): (d: Document)
    ensures |d.pageContent| > |page.text| && d.pageContent[..|page.text|] == page.text
    ensures d.pageContent[|page.text|] == '\n' && d.pageContent[|page.text| + 1..] == VisualContext(page.images)
    ensures "page" in d.metadata && d.metadata["page"] == IntValue(pageNum)
    ensures "source" in d.metadata && d.metadata["source"] == TextValue(Basename(filePath))
  {
    PageMetadataFields(filePath, pageNum);
    Document(page.text + "\n" + VisualContext(page.images), PageMetadata(filePath, pageNum))
  }

  /** `process_pdf`: one document per page, in page order, numbered from 1,
      with the page text, a newline and the page's image annotations; no
      document at all when the file cannot be opened. */
  method ProcessPdf(filePath: string, pdf: PdfInput) returns (docs: seq<Document>)
    ensures pdf.OpenFailed? ==> docs == []
    ensures pdf.Opened? ==> |docs| == |pdf.pages|
    ensures pdf.Opened? ==> forall i :: 0 <= i < |docs| ==> docs[i] == PageDocument(filePath, pdf.pages[i], i + 1)
  {
    docs := [];
    if pdf.OpenFailed? {
      return [];
    }
    var pages := pdf.pages;
    for i := 0 to |pages|
      invariant |docs| == i
      invariant forall j :: 0 <= j < i ==> docs[j] == PageDocument(filePath, pages[j], j + 1)
    {
      var pageNum := i + 1;
      var textContent := pages[i].text;
      var visualContext := DescribeImages(pages[i].images);
      var fullContent := textContent + "\n" + visualContext;
      var document := Document(fullContent, PageMetadata(filePath, pageNum));
      assert document == PageDocument(filePath, pages[i], pageNum);
      docs := docs + [document];
    }
  }
}
