/** `extract_text_from_pdf` of backend/app/models.py: read the text layer of every page, and when
    that yields only whitespace (and the fallback is enabled) append what OCR reads from each page. */
module PdfText {
  import opened Wrappers
  import opened Text
  import opened Pages

  /** One page of an opened document: the text its text layer yields (`page.get_text()`) and the
      text the OCR engine reads from its rendering (`image_to_string` of the 200 dpi pixmap). */
  datatype ScannedPage = ScannedPage(embedded: string, recognized: string)

  /** The file at `path` as the PDF library sees it. Opening an unreadable file raises, and the
      function does not catch that. */
  datatype Document = Unopenable | Opened(pages: seq<ScannedPage>)

  datatype OpenError = CannotOpen

  /** The returned pair `(text, used_ocr)`. */
  datatype Extraction = Extraction(text: string, usedOcr: bool)

  function EmbeddedTexts(pages: seq<ScannedPage>): (ts: seq<string>)
    ensures |ts| == |pages| && forall i :: 0 <= i < |pages| ==> ts[i] == pages[i].embedded
  {
    seq(|pages|, i requires 0 <= i < |pages| => pages[i].embedded)
  }

  function RecognizedTexts(pages: seq<ScannedPage>): (ts: seq<string>)
    ensures |ts| == |pages| && forall i :: 0 <= i < |pages| ==> ts[i] == pages[i].recognized
  {
    seq(|pages|, i requires 0 <= i < |pages| => pages[i].recognized)
  }

  /** The text of the direct pass. */
  function DirectText(pages: seq<ScannedPage>): string
  {
    JoinPages(EmbeddedTexts(pages))
  }

  /** What the function returns for an opened document. OCR runs exactly when it is enabled and
      every page's text layer is blank; it never replaces the direct text, it only follows it; and
      with OCR disabled the direct text comes back unchanged with the flag down. */
  function Extracted(pages: seq<ScannedPage>, ocrIfEmpty: bool): (r: Extraction)
    ensures r.usedOcr <==> ocrIfEmpty && forall i :: 0 <= i < |pages| ==> IsBlank(pages[i].embedded)
    ensures r.usedOcr ==> r.text == DirectText(pages) + JoinPages(RecognizedTexts(pages))
    ensures !r.usedOcr ==> r.text == DirectText(pages)
    ensures !ocrIfEmpty ==> !r.usedOcr
  {
    JoinBlankIff(EmbeddedTexts(pages));
    var direct := DirectText(pages);
    if ocrIfEmpty && IsBlank(direct) then Extraction(direct + JoinPages(RecognizedTexts(pages)), true)
    else Extraction(direct, false)
  }

  /** The function body: a direct pass over the pages, then, when its text is blank and the
      fallback is enabled, an OCR pass appending to that text. */
  method ExtractTextFromPdf(doc: Document, ocrIfEmpty: bool) returns (r: Result<Extraction, OpenError>)
    ensures doc.Unopenable? ==> r == Failure(CannotOpen)
    ensures doc.Opened? ==> r == Success(Extracted(doc.pages, ocrIfEmpty))
  {
    if doc.Unopenable? {
      return Failure(CannotOpen);
    }
    var pages := doc.pages;
    var text := AppendPages(EmbeddedTexts(pages), "");
    assert text == DirectText(pages);
    var usedOcr := false;
    if ocrIfEmpty && IsBlank(text) {
      usedOcr := true;
      text := AppendPages(RecognizedTexts(pages), text);
    }
    return Success(Extraction(text, usedOcr));
  }

  /** One pass over the pages, appending to `text0` every non-empty page text (the text layer, or
      the OCR reading) followed by a newline. */
  method AppendPages(texts: seq<string>, text0: string) returns (text: string)
    ensures text == text0 + JoinPages(texts)
  {
    text := text0;
    for i := 0 to |texts|
      invariant text == text0 + JoinPages(texts[..i])
    {
      var pageText := texts[i];
      JoinPrefixStep(texts, i);
      AppendAssoc(text0, JoinPages(texts[..i]), Piece(pageText));
      if pageText != "" {
        text := text + (pageText + "\n");
      }
    }
    assert texts[..|texts|] == texts;
  }

  /** Whether or not OCR runs, the direct-pass text is a prefix of the result, and that prefix is the
      in-order concatenation of the non-empty page texts, each followed by a newline. */
  lemma DirectTextIsPrefix(pages: seq<ScannedPage>, ocrIfEmpty: bool)
    ensures var t := Extracted(pages, ocrIfEmpty).text;
      DirectText(pages) <= t
      && DirectText(pages) == JoinPages(Seqs.Filter(EmbeddedTexts(pages), NonEmpty))
  {
    JoinSkipsEmptyPages(EmbeddedTexts(pages));
  }

  /** An empty text is a legitimate result even after OCR ran: a one-page scan whose text layer and
      OCR reading are both empty. */
  lemma EmptyTextAfterOcr()
    ensures Extracted([ScannedPage("", "")], true) == Extraction("", true)
  {
    assert EmbeddedTexts([ScannedPage("", "")]) == [""];
    assert RecognizedTexts([ScannedPage("", "")]) == [""];
  }

  /** A whitespace-only text layer is replaced by nothing: it stays at the front of the result when
      OCR is appended after it. */
  lemma WhitespaceLayerKept(ocrText: string)
    ensures Extracted([ScannedPage(" ", ocrText)], true).text == " \n" + Piece(ocrText)
  {
    var pages := [ScannedPage(" ", ocrText)];
    assert EmbeddedTexts(pages) == [" "];
    assert RecognizedTexts(pages) == [ocrText];
    assert JoinPages([" "]) == " \n";
    assert IsBlank(" \n") by { assert IsSpace(' ') && IsSpace('\n'); }
  }
}
