/** `read_document_content`: choose how to read an uploaded file from its
    lower-cased extension, then decode it as UTF-8 text, extract the text of
    every PDF page, or refuse it as unsupported. The UTF-8 decoder and the PDF
    parser are foreign code; their outcomes are inputs here. */
module DocumentReader {
  import opened Wrappers
  import opened Text
  import opened Paths

  /** The ten extensions read as UTF-8 text, in the order the source lists them. */
  const TEXT_EXTENSIONS: seq<string> :=
    [".txt", ".md", ".js", ".py", ".cs", ".go", ".html", ".css", ".xml", ".json"]

  const PDF_EXTENSION: string := ".pdf"

  /** What `uploaded_file.read().decode("utf-8")` produced. */
  datatype Utf8Decoding = Decoded(text: string) | DecodeFailed

  /** What PyPDF2 made of the file: the reader could not be built at all, or one
      entry per page holding the page's extracted text, `None` where
      `extract_text` raised. */
  datatype PdfDocument = Unreadable | Pages(pages: seq<Option<string>>)

  /** The three branches of the dispatch. */
  datatype DocumentKind = TextDocument | PdfDocument | UnsupportedDocument

  /** What a call ends with: the text returned, or the message shown (an error
      for a failed read, a warning for an unsupported type) with `None`
      returned. */
  datatype ReadOutcome =
    | Content(text: string)
    | TextReadError
    | PdfReadError
    | UnsupportedType(warning: string)

  /** The function's Python return value. */
  function Returned(o: ReadOutcome): (r: Option<string>)
    ensures r.Some? <==> o.Content?
    ensures o.Content? ==> r == Some(o.text)
  {
    if o.Content? then Some(o.text) else None
  }

  /** `os.path.splitext(name)[1].lower()`. The extension is empty, or it is the lower-cased final characters of
      the name: a dot followed by neither dots nor separators. */
  function FileExtension(name: string): (r: string)
    ensures |r| == |SplitExt(name).1| <= |name| && r == Lower(name[|name| - |r|..])
    ensures r == "" || ValidExt(r)
    ensures forall i :: 0 <= i < |r| ==> !('A' <= r[i] <= 'Z')
  {
    var (root, ext) := SplitExt(name);
    assert name[|name| - |ext|..] == ext;
    LowerKeepsShape(ext);
    Lower(ext)
  }

  /** Cut into a root with a stem and a well-formed extension, a name's
      extension is that extension lower-cased. */
  lemma FileExtensionOfCut(stem: string, ext: string)
    requires HasStem(stem) && ValidExt(ext)
    ensures FileExtension(stem + ext) == Lower(ext)
  {
    SplitExtUnique(stem + ext, stem, ext);
    assert (stem + ext)[|stem + ext| - |ext|..] == ext;
  }

  /** The branch taken: text exactly for the ten listed extensions, PDF
      exactly for ".pdf", and only a name with a real extension is read at all. */
  function KindOf(name: string): (r: DocumentKind)
    ensures r == TextDocument <==> FileExtension(name) in TEXT_EXTENSIONS
    ensures r == PdfDocument <==> FileExtension(name) == PDF_EXTENSION
    ensures r != UnsupportedDocument ==> SplitExt(name).1 != ""
  {
    var ext := FileExtension(name);
    if ext in TEXT_EXTENSIONS then TextDocument
    else if ext == PDF_EXTENSION then PdfDocument
    else UnsupportedDocument
  }

  /** The extensions the unsupported-type warning names: the list without its
      first two entries. */
  function WarnedExtensions(): (r: seq<string>)
    ensures r == [".js", ".py", ".cs", ".go", ".html", ".css", ".xml", ".json"]
    ensures ".txt" !in r && ".md" !in r
  {
    TEXT_EXTENSIONS[2..]
  }

  /** The warning: fixed text naming TXT, PDF and MD, then, in parentheses,
      the eight code extensions in list order, separated by ", ". */
  function UnsupportedWarning(): (r: string)
    ensures r == "Unsupported file type. Please upload TXT, PDF, MD, or code files ("
      + Join([".js", ".py", ".cs", ".go", ".html", ".css", ".xml", ".json"], ", ") + ")."
  {
    "Unsupported file type. Please upload TXT, PDF, MD, or code files ("
      + Join(WarnedExtensions(), ", ") + ")."
  }

  predicate AllExtracted(pages: seq<Option<string>>)
  {
    forall i :: 0 <= i < |pages| ==> pages[i].Some?
  }

  function PageTexts(pages: seq<Option<string>>): (r: seq<string>)
    requires AllExtracted(pages)
    ensures |r| == |pages| && forall i :: 0 <= i < |pages| ==> pages[i] == Some(r[i])
  {
    seq(|pages|, i requires 0 <= i < |pages| && AllExtracted(pages) => pages[i].value)
  }

  /** The text of a PDF: every page's text, in page order, with nothing between
      pages; no text at all as soon as the reader or any page fails. */
  function PdfText(doc: PdfDocument): Option<string>
  {
    if doc.Pages? && AllExtracted(doc.pages) then Some(Concat(PageTexts(doc.pages))) else None
  }

  /** The `.pdf` branch: `text += page.extract_text()` over the pages in order,
      abandoned with `None` on the first exception. */
  method ReadPdfText(doc: PdfDocument) returns (r: Option<string>)
    ensures r == PdfText(doc)
  {
    if doc.Unreadable? {
      return None;
    }
    var pages := doc.pages;
    var text := "";
    var i := 0;
    while i < |pages|
      invariant 0 <= i <= |pages|
      invariant AllExtracted(pages[..i])
      invariant text == Concat(PageTexts(pages[..i]))
    {
      var page := pages[i];
      if page.None? {
        assert !AllExtracted(pages);
        return None;
      }
      assert PageTexts(pages[..i + 1]) == PageTexts(pages[..i]) + [page.value];
      text := text + page.value;
      i := i + 1;
    }
    assert pages[..i] == pages;
    return Some(text);
  }

  /** `read_document_content(uploaded_file)`, with the decoder's and the PDF
      parser's outcomes for this file given. */
  method ReadDocumentContent(name: string, decoding: Utf8Decoding, pdf: PdfDocument)
    returns (outcome: ReadOutcome)
    ensures KindOf(name) == TextDocument ==>
      outcome == if decoding.Decoded? then Content(decoding.text) else TextReadError
    ensures KindOf(name) == PdfDocument ==>
      outcome == if PdfText(pdf).Some? then Content(PdfText(pdf).value) else PdfReadError
    ensures KindOf(name) == UnsupportedDocument ==> outcome == UnsupportedType(UnsupportedWarning())
    ensures KindOf(name) == TextDocument ==>
      Returned(outcome) == if decoding.Decoded? then Some(decoding.text) else None
    ensures KindOf(name) == PdfDocument ==> Returned(outcome) == PdfText(pdf)
    ensures KindOf(name) == UnsupportedDocument ==> Returned(outcome) == None
  {
    var extension := FileExtension(name);
    if extension in TEXT_EXTENSIONS {
      match decoding
      case Decoded(text) => outcome := Content(text);
      case DecodeFailed => outcome := TextReadError;
    } else if extension == PDF_EXTENSION {
      var text := ReadPdfText(pdf);
      outcome := if text.Some? then Content(text.value) else PdfReadError;
    } else {
      outcome := UnsupportedType(UnsupportedWarning());
    }
  }

  /** The lower-cased extension ignores case: names that agree once
      lower-cased ("A.TXT" and "a.txt") have the same one. */
  lemma ExtensionIgnoresCase(a: string, b: string)
    requires Lower(a) == Lower(b)
    ensures FileExtension(a) == FileExtension(b)
  {
    ExtOfLower(a);
    ExtOfLower(b);
  }

  /** Dispatch ignores case: names that agree once lower-cased are read the
      same way. */
  lemma KindIgnoresCase(a: string, b: string)
    requires Lower(a) == Lower(b)
    ensures KindOf(a) == KindOf(b)
  {
    ExtensionIgnoresCase(a, b);
  }

  /** A name whose dots all come before its other characters (no dot at all,
      or only leading dots as in ".json") has an empty extension and is
      unsupported. */
  lemma LeadingDotsOnlyUnsupported(name: string)
    requires forall i, j :: 0 <= i < j < |name| && name[i] != '.' ==> name[j] != '.'
    ensures SplitExt(name).1 == "" && KindOf(name) == UnsupportedDocument
  {
    assert FileExtension(name) == "";
  }

  /** A name that ends in a listed extension after some stem, in any mix of
      case, is read as text, and one ending in ".pdf" likewise as a PDF. */
  lemma KindOfEnding(stem: string, ext: string)
    requires HasStem(stem) && ValidExt(ext)
    ensures Lower(ext) in TEXT_EXTENSIONS ==> KindOf(stem + ext) == TextDocument
    ensures Lower(ext) == PDF_EXTENSION ==> KindOf(stem + ext) == PdfDocument
    ensures Lower(ext) !in TEXT_EXTENSIONS && Lower(ext) != PDF_EXTENSION ==>
      KindOf(stem + ext) == UnsupportedDocument
  {
    SplitExtUnique(stem + ext, stem, ext);
  }

  /** A readable PDF's text holds each page's text at the place where the pages
      before it end, and its length is the sum of the pages' lengths. */
  lemma PdfTextInPageOrder(pages: seq<Option<string>>, k: nat)
    requires AllExtracted(pages) && k < |pages|
    ensures PdfText(Pages(pages)) == Some(
      Concat(PageTexts(pages[..k])) + pages[k].value + Concat(PageTexts(pages[k + 1..])))
    ensures |PdfText(Pages(pages)).value| == TotalLength(PageTexts(pages))
  {
    var texts := PageTexts(pages);
    ConcatAt(texts, k);
    assert texts[..k] == PageTexts(pages[..k]);
    assert texts[k + 1..] == PageTexts(pages[k + 1..]);
    ConcatLength(texts);
  }

  /** A PDF yields text exactly when the reader and every page succeed, so a
      failure never leaks the text of the pages read before it. */
  lemma PdfTextAllOrNothing(doc: PdfDocument)
    ensures PdfText(doc).Some? <==> doc.Pages? && AllExtracted(doc.pages)
    ensures doc.Pages? && (exists i :: 0 <= i < |doc.pages| && doc.pages[i].None?) ==>
      PdfText(doc) == None
  {
  }

  /** A two-page document reads as page one's text followed by page two's. */
  lemma TwoPagePdf(first: string, second: string)
    ensures PdfText(Pages([Some(first), Some(second)])) == Some(first + second)
  {
    var pages := [Some(first), Some(second)];
    assert AllExtracted(pages);
    var texts := PageTexts(pages);
    assert texts == [first, second];
    assert texts[..1] == [first] && [first][..0] == [];
    assert Concat([first]) == Concat([]) + first;
    assert Concat([first]) == first;
    assert Concat(texts) == first + second;
    assert Concat(texts) == Concat([first]) + second;
    assert PdfText(Pages(pages)) == Some(Concat(texts));
  }

  /** Upper- and lower-case spellings of a text extension are both read as text. */
  lemma UpperCaseTextExample()
    ensures KindOf("A.TXT") == KindOf("a.txt") == TextDocument
  {
    assert "a"[0] != '.';
    assert ValidExt(".txt");
    SplitExtUnique("a.txt", "a", ".txt");
    assert Lower(".txt") == ".txt";
    assert FileExtension("a.txt") == ".txt";
    assert KindOf("a.txt") == TextDocument;
    assert Lower("A.TXT") == "a.txt" by {
      assert forall i :: 0 <= i < 5 ==> Lower("A.TXT")[i] == "a.txt"[i];
    }
    KindIgnoresCase("A.TXT", "a.txt");
  }

  lemma PdfExample()
    ensures KindOf("report.pdf") == PdfDocument
  {
    assert "report"[0] != '.';
    assert ValidExt(".pdf");
    SplitExtUnique("report.pdf", "report", ".pdf");
    assert Lower(".pdf") == ".pdf";
  }

  lemma UnsupportedExamples()
    ensures KindOf("image.png") == UnsupportedDocument
    ensures KindOf(".json") == UnsupportedDocument
    ensures KindOf("notes") == UnsupportedDocument
  {
    assert "image"[0] != '.';
    assert ValidExt(".png");
    SplitExtUnique("image.png", "image", ".png");
    assert Lower(".png") == ".png";
    LeadingDotsOnlyUnsupported(".json");
    LeadingDotsOnlyUnsupported("notes");
  }
}
