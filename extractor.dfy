/**
 * `extract_text`: the text of an uploaded file, chosen by the ending of its
 * name. The parsers it calls are outside the model: an upload carries what
 * each of them would produce for it, or the error it would raise.
 */
module Extractor {
  import opened Wrappers

  /** An uploaded file and what the PDF reader, the DOCX reader and the UTF-8 decoder make of it. */
  datatype Upload = Upload(
    name: string,
    /** the value `page.extract_text()` returns for each page, in order, or the reader's error */
    pdfPages: Result<seq<Option<string>>, string>,
    /** `docx2txt.process(file)`, or its error */
    docxText: Result<string, string>,
    /** `file.read().decode("utf-8")`, or its error */
    decodedText: Result<string, string>)

  /** `name.endswith(suffix)` */
  predicate EndsWith(name: string, suffix: string) {
    |suffix| <= |name| && name[|name| - |suffix|..] == suffix
  }

  /** A name ends in at most one of `.pdf`, `.docx` and `.txt`, so the order of the tests does not matter. */
  lemma SuffixesAreExclusive(name: string)
    ensures !(EndsWith(name, ".pdf") && EndsWith(name, ".docx"))
    ensures !(EndsWith(name, ".pdf") && EndsWith(name, ".txt"))
    ensures !(EndsWith(name, ".docx") && EndsWith(name, ".txt"))
  {
    if |name| > 0 {
      var last := name[|name| - 1];
      assert EndsWith(name, ".pdf") ==> last == ".pdf"[3];
      assert EndsWith(name, ".docx") ==> last == ".docx"[4];
      assert EndsWith(name, ".txt") ==> last == ".txt"[3];
    }
  }

  /** `page.extract_text() or ""`: a page without text contributes nothing. */
  function PageText(page: Option<string>): string {
    match page
    case None => ""
    case Some(t) => t
  }

  /** The texts of the pages, one after the other. */
  function ConcatPages(pages: seq<Option<string>>): string {
    if pages == [] then "" else ConcatPages(pages[..|pages| - 1]) + PageText(pages[|pages| - 1])
  }

  /** The texts of the pages that have one. */
  function PresentTexts(pages: seq<Option<string>>): (texts: seq<string>)
    ensures |texts| <= |pages|
  {
    if pages == [] then []
    else match pages[0]
      case None => PresentTexts(pages[1..])
      case Some(t) => [t] + PresentTexts(pages[1..])
  }

  /** Strings one after the other. */
  function Flatten(texts: seq<string>): string {
    if texts == [] then "" else texts[0] + Flatten(texts[1..])
  }

  /** The text of a document splits where the document is split. */
  lemma {:induction false} ConcatPagesAppend(front: seq<Option<string>>, back: seq<Option<string>>)
    ensures ConcatPages(front + back) == ConcatPages(front) + ConcatPages(back)
    decreases |back|
  {
    if back != [] {
      var last := back[|back| - 1];
      var init := back[..|back| - 1];
      assert front + back == (front + init) + [last];
      assert (front + back)[..|front + back| - 1] == front + init;
      ConcatPagesAppend(front, init);
    } else {
      assert front + back == front;
    }
  }

  /** The text of a document is the texts of its pages with text, in order: a page without text leaves no trace. */
  lemma {:induction false} ConcatPagesIsPresentTexts(pages: seq<Option<string>>)
    ensures ConcatPages(pages) == Flatten(PresentTexts(pages))
  {
    if pages != [] {
      ConcatPagesIsPresentTexts(pages[1..]);
      assert pages == [pages[0]] + pages[1..];
      ConcatPagesAppend([pages[0]], pages[1..]);
      assert ConcatPages([pages[0]]) == PageText(pages[0]) by {
        assert [pages[0]][..0] == [];
      }
      match pages[0]
      case None =>
      case Some(t) =>
        assert ([t] + PresentTexts(pages[1..]))[1..] == PresentTexts(pages[1..]);
    }
  }

  /** The PDF branch: append the text of each page in turn. */
  method PdfText(pages: seq<Option<string>>) returns (text: string)
    ensures text == ConcatPages(pages)
  {
    text := "";
    var i := 0;
    while i < |pages|
      invariant 0 <= i <= |pages|
      invariant text == ConcatPages(pages[..i])
    {
      assert pages[..i + 1][..i] == pages[..i];
      text := text + PageText(pages[i]);
      i := i + 1;
    }
    assert pages[..|pages|] == pages;
  }

  /** What `extract_text` returns for an upload, or the error a parser raises. */
  function ExtractedText(file: Upload): Result<string, string> {
    if EndsWith(file.name, ".pdf") then
      match file.pdfPages
      case Success(pages) => Success(ConcatPages(pages))
      case Failure(e) => Failure(e)
    else if EndsWith(file.name, ".docx") then file.docxText
    else if EndsWith(file.name, ".txt") then file.decodedText
    else Success("")
  }

  /** `extract_text(file)` */
  method ExtractText(file: Upload) returns (r: Result<string, string>)
    ensures r == ExtractedText(file)
  {
    if EndsWith(file.name, ".pdf") {
      match file.pdfPages
      case Failure(e) =>
        r := Failure(e);
      case Success(pages) =>
        var text := PdfText(pages);
        r := Success(text);
    } else if EndsWith(file.name, ".docx") {
      r := file.docxText;
    } else if EndsWith(file.name, ".txt") {
      r := file.decodedText;
    } else {
      r := Success("");
    }
  }

  /** A PDF upload that the reader opens gives the texts of its pages with text, in order. */
  lemma PdfUploadGivesPageTexts(file: Upload)
    requires EndsWith(file.name, ".pdf") && file.pdfPages.Success?
    ensures ExtractedText(file) == Success(Flatten(PresentTexts(file.pdfPages.value)))
  {
    ConcatPagesIsPresentTexts(file.pdfPages.value);
  }

  /** A `.docx` upload gives what the DOCX reader gives, whatever the PDF reader would make of it. */
  lemma DocxUploadGivesDocxText(file: Upload)
    requires EndsWith(file.name, ".docx")
    ensures ExtractedText(file) == file.docxText
  {
    SuffixesAreExclusive(file.name);
  }

  /** A `.txt` upload gives its UTF-8 decoding. */
  lemma TxtUploadGivesDecodedText(file: Upload)
    requires EndsWith(file.name, ".txt")
    ensures ExtractedText(file) == file.decodedText
  {
    SuffixesAreExclusive(file.name);
  }

  /** Any other upload gives the empty text, without calling a parser. */
  lemma OtherUploadGivesEmptyText(file: Upload)
    requires !EndsWith(file.name, ".pdf") && !EndsWith(file.name, ".docx") && !EndsWith(file.name, ".txt")
    ensures ExtractedText(file) == Success("")
  {
  }

  /** A failure comes only from the parser of the file's own kind. */
  lemma FailureComesFromItsParser(file: Upload)
    requires ExtractedText(file).Failure?
    ensures (EndsWith(file.name, ".pdf") && file.pdfPages.Failure?) ||
            (EndsWith(file.name, ".docx") && file.docxText.Failure?) ||
            (EndsWith(file.name, ".txt") && file.decodedText.Failure?)
  {
  }
}
