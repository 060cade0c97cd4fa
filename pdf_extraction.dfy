/** The control flow of `extract_text_from_pdf` (app.py:65-93): a direct pass
    over the pages' text layers, an OCR fallback when that pass finds only
    whitespace, a sentinel when OCR is unavailable, and an error-prefixed
    string when the document cannot be read. The PDF reader, the rasteriser
    and the OCR engine are replaced by the outcomes they produce. */
module PdfExtraction {
  import opened StrBuiltins

  datatype Option<T> = None | Some(value: T)

  /** What `page.extract_text()` gave for one page: its text (the empty string
      stands for both `None` and `""`), or the description of the exception it
      raised. */
  datatype PageText = Text(text: string) | ExtractError(cause: string)

  /** `PdfReader(filepath)` and its `pages`: the description of the exception
      raised while opening the file, or what each page gave. */
  datatype Reader = OpenFailed(cause: string) | Opened(pages: seq<PageText>)

  /** `pytesseract.image_to_string(page)` on one page image: the recognised
      text, or an exception. */
  datatype OcrPage = Recognised(text: string) | OcrError

  /** `convert_from_path(filepath)`: an exception (rasterisation not available),
      or one image per page. */
  datatype Ocr = RasterFailed | Rasterised(images: seq<OcrPage>)

  /** The prefix of the string returned when reading the PDF fails (app.py:91). */
  const ErrorMarker: string := "\U{274C} Error extracting PDF: "

  /** The message telling that OCR is not available. */
  const OcrNotice: string := "\U{26A0}\U{FE0F} OCR not available in hosted version."

  /** The text appended when OCR fails (app.py:88): a newline, then the message. */
  const OcrSentinel: string := "\n" + OcrNotice

  /** Concatenation regrouped, proved once for any strings so that no proof
      has to compare the characters of the constants above one by one. */
  lemma AppendAssociative(a: string, b: string, c: string)
    ensures (a + b) + c == a + (b + c)
  {
  }

  lemma AppendEmpty(a: string)
    ensures [] + a == a && a + [] == a
  {
  }

  /** What one page adds in the direct pass (app.py:77-79): nothing for a page
      without text, otherwise its text terminated by a newline. */
  function Contribution(p: PageText): string {
    if p.Text? && p.text != "" then p.text + "\n" else ""
  }

  /** The direct pass's text: every page's non-empty text followed by a
      newline, in page order. */
  function DirectText(pages: seq<PageText>): string {
    if pages == [] then "" else Contribution(pages[0]) + DirectText(pages[1..])
  }

  /** The direct text is empty exactly when no page has text, and otherwise
      ends with the newline of its last page. */
  lemma {:induction false} DirectTextEmpty(pages: seq<PageText>)
    ensures DirectText(pages) == [] <==> forall k :: 0 <= k < |pages| ==> !pages[k].Text? || pages[k].text == []
    ensures DirectText(pages) == [] || DirectText(pages)[|DirectText(pages)| - 1] == '\n'
  {
    if pages != [] {
      DirectTextEmpty(pages[1..]);
      assert forall k :: 1 <= k < |pages| ==> pages[k] == pages[1..][k - 1];
    }
  }

  /** The cause of the first page whose extraction raised, if any. */
  function FirstPageError(pages: seq<PageText>): (r: Option<string>)
    ensures r.None? <==> forall k :: 0 <= k < |pages| ==> pages[k].Text?
  {
    if pages == [] then None
    else if pages[0].ExtractError? then Some(pages[0].cause)
    else
      var r := FirstPageError(pages[1..]);
      assert forall k :: 1 <= k < |pages| ==> pages[k] == pages[1..][k - 1];
      r
  }

  /** The cause reported is that of the first page that raised. */
  lemma {:induction false} FirstPageErrorIsFirst(pages: seq<PageText>, k: nat)
    requires k < |pages| && pages[k].ExtractError?
    requires forall j :: 0 <= j < k ==> pages[j].Text?
    ensures FirstPageError(pages) == Some(pages[k].cause)
  {
    if k > 0 {
      assert pages[1..][k - 1] == pages[k];
      FirstPageErrorIsFirst(pages[1..], k - 1);
    }
  }

  /** The number of page images recognised before the first OCR exception. */
  function FirstOcrError(images: seq<OcrPage>): (n: nat)
    ensures n <= |images|
    ensures forall j :: 0 <= j < n ==> images[j].Recognised?
    ensures n < |images| ==> images[n].OcrError?
  {
    if images == [] || images[0].OcrError? then 0 else 1 + FirstOcrError(images[1..])
  }

  function PageOcrText(p: OcrPage): string {
    if p.Recognised? then p.text else ""
  }

  /** The recognised texts concatenated in page order, with no separator. */
  function RecognisedText(images: seq<OcrPage>): string {
    if images == [] then "" else PageOcrText(images[0]) + RecognisedText(images[1..])
  }

  /** The OCR text is empty exactly when every page image gave empty text. */
  lemma {:induction false} RecognisedTextEmpty(images: seq<OcrPage>)
    ensures RecognisedText(images) == [] <==> forall k :: 0 <= k < |images| ==> PageOcrText(images[k]) == []
  {
    if images != [] {
      RecognisedTextEmpty(images[1..]);
      assert forall k :: 1 <= k < |images| ==> images[k] == images[1..][k - 1];
    }
  }

  /** Rasterising the document raised, or some page image made the OCR
      engine raise. */
  predicate OcrFailed(ocr: Ocr) {
    ocr.RasterFailed? || FirstOcrError(ocr.images) < |ocr.images|
  }

  /** The recognised text of the page images read before OCR stopped, in page
      order: all of them when nothing raised, none when rasterising raised. */
  function OcrPartial(ocr: Ocr): string {
    match ocr
    case RasterFailed => ""
    case Rasterised(images) => RecognisedText(images[..FirstOcrError(images)])
  }

  /** What the OCR fallback appends to the accumulator (app.py:83-88): the
      recognised text, then the sentinel when rasterising or recognising
      raised. */
  function OcrAppended(ocr: Ocr): string {
    OcrPartial(ocr) + (if OcrFailed(ocr) then OcrSentinel else "")
  }

  /** The accumulator just before the final `strip` when every page could be
      read (app.py:76-88): the direct text, followed by what OCR appends when
      the direct text is whitespace-only. */
  function Collected(pages: seq<PageText>, ocr: Ocr): string {
    var direct := DirectText(pages);
    if IsBlank(direct) then direct + OcrAppended(ocr) else direct
  }

  /** The value `extract_text_from_pdf` returns for the given library
      outcomes. */
  function Extracted(reader: Reader, ocr: Ocr): string {
    match reader
    case OpenFailed(cause) => ErrorMarker + cause
    case Opened(pages) =>
      match FirstPageError(pages)
      case Some(cause) => ErrorMarker + cause
      case None => Strip(Collected(pages, ocr))
  }

  /** The direct pass (app.py:76-79): each page's text, when it has any, is
      appended to the accumulator with a newline; a page whose extraction
      raises ends the pass with its cause. */
  method ReadDirectText(pages: seq<PageText>) returns (text: string, error: Option<string>)
    ensures error == FirstPageError(pages)
    ensures error.None? ==> text == DirectText(pages)
  {
    text := "";
    var i := 0;
    while i < |pages|
      invariant 0 <= i <= |pages|
      invariant forall j :: 0 <= j < i ==> pages[j].Text?
      invariant text == DirectText(pages[..i])
    {
      if pages[i].ExtractError? {
        FirstPageErrorIsFirst(pages, i);
        return text, Some(pages[i].cause);
      }
      var extracted := pages[i].text;
      assert DirectText(pages[..i + 1]) == text + Contribution(pages[i]) by {
        assert pages[..i + 1] == pages[..i] + [pages[i]];
        DirectTextSnoc(pages[..i], pages[i]);
      }
      if extracted != "" {
        text := text + (extracted + "\n");
      } else {
        AppendEmpty(text);
      }
      i := i + 1;
    }
    assert pages[..i] == pages;
    error := None;
  }

  /** The OCR loop (app.py:85-86): the recognised text of each page image is
      appended to `text` until an image makes the OCR engine raise, which
      `failed` reports. */
  method AppendRecognised(text: string, images: seq<OcrPage>) returns (out: string, failed: bool)
    ensures out == text + RecognisedText(images[..FirstOcrError(images)])
    ensures failed <==> FirstOcrError(images) < |images|
  {
    out := text;
    var k := 0;
    while k < |images|
      invariant 0 <= k <= |images|
      invariant forall j :: 0 <= j < k ==> images[j].Recognised?
      invariant out == text + RecognisedText(images[..k])
    {
      match images[k]
      case OcrError =>
        break;
      case Recognised(page) =>
        assert text + RecognisedText(images[..k + 1]) == out + page by {
          assert images[..k + 1] == images[..k] + [images[k]];
          RecognisedTextSnoc(images[..k], images[k]);
          AppendAssociative(text, RecognisedText(images[..k]), page);
        }
        out := out + page;
        k := k + 1;
    }
    assert k < |images| ==> images[k].OcrError?;
    assert FirstOcrError(images) == k;
    failed := k < |images|;
  }

  /** The OCR fallback (app.py:83-88): rasterise the document and append the
      recognised text of each page image to the accumulator; when rasterising
      or recognising raises, append the sentinel instead of failing. */
  method OcrFallback(text: string, ocr: Ocr) returns (out: string)
    ensures out == text + OcrAppended(ocr)
  {
    match ocr
    case RasterFailed =>
      AppendEmpty(OcrSentinel);
      AppendEmpty(text);
      out := text + OcrSentinel;
    case Rasterised(images) =>
      var failed;
      out, failed := AppendRecognised(text, images);
      if failed {
        AppendAssociative(text, OcrPartial(ocr), OcrSentinel);
        out := out + OcrSentinel;
      } else {
        AppendEmpty(OcrPartial(ocr));
      }
  }

  /** `extract_text_from_pdf(filepath)` (app.py:65-93), with the libraries'
      behaviour given as `reader` and `ocr`. */
  method ExtractTextFromPdf(reader: Reader, ocr: Ocr) returns (result: string)
    ensures result == Extracted(reader, ocr)
  {
    if reader.OpenFailed? {
      return ErrorMarker + reader.cause;
    }
    var text, error := ReadDirectText(reader.pages);
    if error.Some? {
      return ErrorMarker + error.value;
    }
    if Strip(text) == "" {
      text := OcrFallback(text, ocr);
    }
    result := Strip(text);
  }

  // ----- properties of the extraction -----

  /** Every outcome is either an error report that begins with the marker, or
      text with no whitespace at either end. */
  lemma ExtractedShape(reader: Reader, ocr: Ocr)
    ensures StartsWith(Extracted(reader, ocr), ErrorMarker) || Trimmed(Extracted(reader, ocr))
  {
    if reader.OpenFailed? || FirstPageError(reader.pages).Some? {
      ReadErrorResult(reader, ocr);
    } else {
      StripTrimmed(Collected(reader.pages, ocr));
    }
  }

  /** The direct pass keeps page order: the text of a run of pages is the
      text of its first part followed by the text of the rest. */
  lemma {:induction false} DirectTextAppend(p: seq<PageText>, q: seq<PageText>)
    ensures DirectText(p + q) == DirectText(p) + DirectText(q)
  {
    if p == [] {
      assert p + q == q;
      AppendEmpty(DirectText(q));
    } else {
      assert DirectText(p + q) == Contribution(p[0]) + DirectText(p[1..] + q) by {
        assert (p + q)[0] == p[0];
        assert (p + q)[1..] == p[1..] + q;
      }
      DirectTextAppend(p[1..], q);
      AppendAssociative(Contribution(p[0]), DirectText(p[1..]), DirectText(q));
    }
  }

  lemma DirectTextSnoc(pages: seq<PageText>, p: PageText)
    ensures DirectText(pages + [p]) == DirectText(pages) + Contribution(p)
  {
    DirectTextAppend(pages, [p]);
    assert DirectText([p]) == Contribution(p) + DirectText([]);
  }

  /** The direct pass finds only whitespace exactly when every page's text is
      whitespace-only. */
  lemma {:induction false} DirectTextBlank(pages: seq<PageText>)
    ensures IsBlank(DirectText(pages)) <==>
              forall k :: 0 <= k < |pages| && pages[k].Text? ==> IsBlank(pages[k].text)
  {
    if pages != [] {
      var first, rest := pages[0], pages[1..];
      DirectTextBlank(rest);
      var c := Contribution(first);
      BlankConcat(c, DirectText(rest));
      if first.Text? && first.text != "" {
        BlankConcat(first.text, "\n");
      }
      assert forall k :: 1 <= k < |pages| ==> pages[k] == rest[k - 1];
    }
  }

  /** OCR output keeps page order. */
  lemma {:induction false} RecognisedTextAppend(p: seq<OcrPage>, q: seq<OcrPage>)
    ensures RecognisedText(p + q) == RecognisedText(p) + RecognisedText(q)
  {
    if p == [] {
      assert p + q == q;
      AppendEmpty(RecognisedText(q));
    } else {
      assert RecognisedText(p + q) == PageOcrText(p[0]) + RecognisedText(p[1..] + q) by {
        assert (p + q)[0] == p[0];
        assert (p + q)[1..] == p[1..] + q;
      }
      RecognisedTextAppend(p[1..], q);
      AppendAssociative(PageOcrText(p[0]), RecognisedText(p[1..]), RecognisedText(q));
    }
  }

  lemma RecognisedTextSnoc(images: seq<OcrPage>, p: OcrPage)
    ensures RecognisedText(images + [p]) == RecognisedText(images) + PageOcrText(p)
  {
    RecognisedTextAppend(images, [p]);
    assert RecognisedText([p]) == PageOcrText(p) + RecognisedText([]);
  }

  /** A reader that cannot open the file, or a page whose extraction raises,
      gives the error marker followed by the cause, not stripped, and OCR plays
      no part. */
  lemma ReadErrorResult(reader: Reader, ocr: Ocr)
    requires reader.OpenFailed? || FirstPageError(reader.pages).Some?
    ensures var cause := if reader.OpenFailed? then reader.cause else FirstPageError(reader.pages).value;
            Extracted(reader, ocr) == ErrorMarker + cause
    ensures StartsWith(Extracted(reader, ocr), ErrorMarker)
  {
    var cause := if reader.OpenFailed? then reader.cause else FirstPageError(reader.pages).value;
    StartsWithAppend(ErrorMarker, cause);
  }

  /** When some page has text that is not whitespace-only, OCR is never
      consulted: the result is the same for every OCR outcome, namely the
      stripped direct text. */
  lemma DirectTextWins(pages: seq<PageText>, k: nat, ocr1: Ocr, ocr2: Ocr)
    requires FirstPageError(pages).None?
    requires k < |pages| && !IsBlank(pages[k].text)
    ensures Extracted(Opened(pages), ocr1) == Extracted(Opened(pages), ocr2) == Strip(DirectText(pages))
  {
    DirectTextBlank(pages);
  }

  /** When the direct pass finds only whitespace and every page image is
      recognised, the result is the OCR texts in page order, stripped. */
  lemma OcrFallbackResult(pages: seq<PageText>, images: seq<OcrPage>)
    requires FirstPageError(pages).None?
    requires forall k :: 0 <= k < |pages| ==> IsBlank(pages[k].text)
    requires forall j :: 0 <= j < |images| ==> images[j].Recognised?
    ensures Extracted(Opened(pages), Rasterised(images)) == Strip(RecognisedText(images))
  {
    DirectTextBlank(pages);
    assert images[..FirstOcrError(images)] == images;
    AppendEmpty(RecognisedText(images));
    assert Collected(pages, Rasterised(images)) == DirectText(pages) + RecognisedText(images);
    StripBlankPrefix(DirectText(pages), RecognisedText(images));
  }

  /** Stripping text that ends in the sentinel cuts only in front of it. */
  lemma StripSentinel(x: string)
    ensures Strip(x + OcrSentinel) == if IsBlank(x) then OcrNotice else StripLeft(x) + OcrSentinel
  {
    assert OcrSentinel == ['\n'] + OcrNotice;
    StripBeforeNotice(x, '\n', OcrNotice);
  }

  /** After blank text, OCR text followed by the sentinel strips to the OCR
      text without its leading whitespace and then the sentinel, or to the
      bare message when the OCR text is blank too. */
  lemma StripSentinelAfterBlank(x: string, y: string)
    requires IsBlank(x)
    ensures Strip(x + (y + OcrSentinel)) == if IsBlank(y) then OcrNotice else StripLeft(y) + OcrSentinel
  {
    AppendAssociative(x, y, OcrSentinel);
    StripSentinel(x + y);
    StripLeftAppend(x, y);
    BlankConcat(x, y);
  }

  /** When the direct pass finds only whitespace and OCR fails, the
      accumulator holds the blank direct text, the partial OCR text and the
      sentinel. */
  lemma CollectedWhenOcrFails(pages: seq<PageText>, ocr: Ocr)
    requires FirstPageError(pages).None?
    requires forall k :: 0 <= k < |pages| ==> IsBlank(pages[k].text)
    requires OcrFailed(ocr)
    ensures IsBlank(DirectText(pages))
    ensures Collected(pages, ocr) == DirectText(pages) + (OcrPartial(ocr) + OcrSentinel)
  {
    DirectTextBlank(pages);
  }

  /** When the direct pass finds only whitespace and OCR fails, nothing is
      raised: the result is the OCR text gathered before the failure without
      its leading whitespace, then the sentinel; or the bare message when that
      text is blank. */
  lemma OcrUnavailableResult(pages: seq<PageText>, ocr: Ocr)
    requires FirstPageError(pages).None?
    requires forall k :: 0 <= k < |pages| ==> IsBlank(pages[k].text)
    requires OcrFailed(ocr)
    ensures Extracted(Opened(pages), ocr)
              == if IsBlank(OcrPartial(ocr)) then OcrNotice else StripLeft(OcrPartial(ocr)) + OcrSentinel
  {
    CollectedWhenOcrFails(pages, ocr);
    StripSentinelAfterBlank(DirectText(pages), OcrPartial(ocr));
  }
}
