# Smart document scanner: text normalisation, categorisation and PDF text extraction

This project models the core of `app.py` in Dafny: the part that turns a
document's text into a category label. It has three pieces.

- `preprocess_text` is the normaliser. It lower-cases the text, deletes decimal
  digits and the 32 characters of `string.punctuation`, splits on whitespace,
  drops stopwords and rejoins the surviving tokens with single spaces.
- `categorize` is the rule-based categoriser. It tests four keyword lists in a
  fixed order ("Bill", "ID Document", "Notes", "Certificate") by raw substring
  containment. When no list matches it returns "Uncategorized".
- `extract_text_from_pdf` is the extraction loop. It accumulates each page's
  text layer. When that text is only whitespace it falls back to OCR page by
  page. A failing OCR appends a sentinel, and a failing reader returns an
  error-prefixed string.

Files (one module each):

- `str_builtins.dfy` (`StrBuiltins`): the Python `str` built-ins the code
  calls (`lower`, `strip`, `split()` and `" ".join`), restricted to ASCII,
  together with the whitespace class they share and the `lstrip`/`rstrip`
  halves that define `strip`.
- `normalizer.dfy` (`Normalizer`): `preprocess_text`, with the stopword set as a
  parameter.
- `categorizer.dfy` (`Categorizer`): `categorize`, the same rules as an ordered
  table, and the priority lemmas.
- `pdf_extraction.dfy` (`PdfExtraction`): `extract_text_from_pdf` as a method
  that calls two loop methods, one for the direct pass over the pages and one
  for the OCR pass over the page images. It is proved equal to the
  specification function `Extracted`, and the lemmas state the fallback
  behaviour.

The libraries are replaced by the outcomes they produce. `PdfReader` becomes a
`Reader`: either `OpenFailed(cause)` or `Opened(pages)`. Each page gives
`Text(s)` (the empty string stands for both `None` and `""`) or
`ExtractError(cause)`. `convert_from_path` and `pytesseract.image_to_string`
become an `Ocr`: either `RasterFailed`, or `Rasterised(images)` where each image
gives `Recognised(s)` or `OcrError`. The stopword set loaded from NLTK is a
`set<string>` parameter. An exception's `str(e)` is the given `cause` string.

Details of the code the model follows:

- Whitespace is the ten ASCII characters CPython's `str.split()` and
  `str.strip()` treat as whitespace. These are space, `\t`, `\n`, `\x0b`,
  `\x0c`, `\r` and also the separators `\x1c` to `\x1f`.
- After OCR fails, the code still returns `text.strip()` (app.py:93). So the
  sentinel result is stripped too: with nothing before it, the sentinel loses
  its leading newline. Only the error-prefixed string is returned unstripped.
- Each direct page's text is followed by `"\n"` (app.py:79); it is a
  terminator, not a separator between pages. OCR page texts are concatenated
  with no separator at all (app.py:86).
- The whitespace test is made on the untrimmed accumulator, and OCR text is
  appended to it. The final `strip` hides this: `StripBlankPrefix` shows that
  blank text in front changes nothing.
- A page for which `extract_text()` returns `None` and one that returns `""`
  add nothing (app.py:78); both are modelled as `Text("")`.

## Model

| member | source | states |
|---|---|---|
| `StrBuiltins.SpaceIsAsciiWhitespace` | app.py:47 | A character is whitespace for `split`/`strip` exactly when it is one of the ten ASCII whitespace characters |
| `StrBuiltins.Lower` | app.py:44 | Same length as the input; each character is mapped to its lower-case form; no upper-case ASCII letter remains |
| `StrBuiltins.LowerOfLower` | app.py:44 | Lower-casing text that has no upper-case letter changes nothing |
| `StrBuiltins.BlankConcat` | app.py:82 | A concatenation is whitespace-only exactly when both parts are |
| `StrBuiltins.LeadingSpace` | app.py:93 | The number of characters `lstrip` removes: all of them are whitespace and the next character, if any, is not |
| `StrBuiltins.TrailingStart` | app.py:93 | Where the part `rstrip` removes begins: everything from there on is whitespace and the character before it, if any, is not |
| `StrBuiltins.Strip` | app.py:82 | `not text.strip()` holds exactly when the text is whitespace-only (both directions); stripping never lengthens |
| `StrBuiltins.StripBounds` | app.py:93 | `strip` returns a slice `s[i..j]` with only whitespace cut on both sides, which starts and ends with a non-space when non-empty |
| `StrBuiltins.StripTrimmed` | app.py:93 | A stripped string is empty or starts and ends with a non-space |
| `StrBuiltins.LeadingSpaceAppend` | app.py:93 | The whitespace `lstrip` removes from a concatenation runs through a blank head into the tail, and otherwise stays in the head |
| `StrBuiltins.StripLeftAppend` | app.py:93 | `lstrip` of a concatenation skips a blank head entirely, and otherwise strips only the head |
| `StrBuiltins.StripBlankPrefix` | app.py:82-93 | Whitespace-only text in front of anything disappears under `strip` |
| `StrBuiltins.StripEndingInWord` | app.py:93 | Text ending in a non-space loses only its leading whitespace under `strip` |
| `StrBuiltins.StripBeforeNotice` | app.py:88-93 | Whitespace then a message, after a blank prefix, strips to the bare message; after a non-blank prefix only leading whitespace goes |
| `StrBuiltins.Split` | app.py:47 | Every token is non-empty and free of whitespace, its characters come from the input, and the input gives no tokens exactly when it is whitespace-only |
| `StrBuiltins.SplitWord` | app.py:47 | A non-empty whitespace-free string splits to itself alone |
| `StrBuiltins.SplitAtSpace` | app.py:47 | Text is cut at every whitespace character: the tokens of `a + c + b` are those of `a` followed by those of `b`; with `SplitWord` this fixes `split()` on every input |
| `StrBuiltins.Join` | app.py:49 | No tokens give the empty string; every character is a space or a character of some token |
| `StrBuiltins.JoinSingleSpaced` | app.py:49 | Joining whitespace-free tokens gives a string whose only whitespace is single spaces with non-space neighbours: no leading, trailing or doubled spaces |
| `StrBuiltins.SplitJoin` | app.py:47-49 | Splitting a space-joined list of whitespace-free tokens gives the same tokens back |
| `Normalizer.DigitsAreDecimal` | app.py:45 | The characters `\d` deletes are exactly `0` to `9` |
| `Normalizer.PunctuationIsStringPunctuation` | app.py:46 | The characters deleted as punctuation are exactly the 32 characters of `string.punctuation` |
| `Normalizer.Filter` | app.py:45-48 | An element is in the result exactly when it is in the input and not dropped |
| `Normalizer.FilterOrdered` | app.py:48 | Deletion keeps the relative order of the kept elements (subsequence) |
| `Normalizer.FilterCounts` | app.py:45-48 | Every occurrence of a dropped element is deleted and every occurrence of any other element is kept |
| `Normalizer.FilterKeepsAll` | app.py:45-48 | Nothing is deleted from a sequence with no dropped element |
| `Normalizer.Clean` | app.py:44-46 | After lower-casing and deleting digits and punctuation, no upper-case letter, digit or punctuation character is left |
| `Normalizer.CleanOrdered` | app.py:45-46 | Cleaning only deletes: the characters left keep their order in the lowered text (with `CleanCounts` this fixes the result) |
| `Normalizer.SubsequenceTransitive` | app.py:45-46 | Deleting characters from a text that was itself obtained by deletion is a deletion from the original |
| `Normalizer.CleanCounts` | app.py:44-46 | Cleaning removes exactly the digits and punctuation of the lowered text and keeps every occurrence of every other character |
| `Normalizer.RemoveStopwords` | app.py:48 | A token is kept exactly when it is in the input and is not a stopword |
| `Normalizer.Preprocess` | app.py:43-49 | Every output character is a space or a clean character; empty input gives `""` |
| `Normalizer.PreprocessCharacters` | app.py:44-49 | The output has no upper-case letter, no digit and no punctuation, and no leading, trailing or doubled spaces |
| `Normalizer.PreprocessTokens` | app.py:47-49 | The output's tokens are the cleaned input's tokens with stopwords removed, in their original order, with every non-stopword occurring as often as before; none is a stopword |
| `Normalizer.CleanOfClean` | app.py:44-46 | Text made only of clean characters and spaces is unchanged by the character-level steps |
| `Normalizer.PreprocessIdempotent` | app.py:43-49 | `preprocess_text(preprocess_text(x)) == preprocess_text(x)` |
| `Categorizer.Occurs` | app.py:53 | Python's `word in text`: the empty word occurs in every text, and a word that occurs is no longer than the text |
| `Categorizer.OccursIff` | app.py:53 | `word in text` holds exactly when the word sits at some position of the text |
| `Categorizer.AbsentFirstLetter` | app.py:53 | A word whose first letter is absent from the text is not a substring of it |
| `Categorizer.AnyOccurs` | app.py:53 | `any(word in text for word in words)` holds exactly when some word of the list is in the text (both directions) |
| `Categorizer.AnyOccursIff` | app.py:53 | `any(word in text for word in words)` holds exactly when some keyword of the list sits at some position of the text |
| `Categorizer.Categorize` | app.py:52-62 | Total; the result is one of Bill, ID Document, Notes, Certificate, Uncategorized |
| `Categorizer.LabelsDistinct` | app.py:54-62 | The five category strings are pairwise different |
| `Categorizer.CategorizePriority` | app.py:53-60 | Label k is returned exactly when no keyword of an earlier list and some keyword of list k is a substring (both directions) |
| `Categorizer.CategorizeFallback` | app.py:53-62 | "Uncategorized" is returned exactly when no keyword of any list is a substring (both directions) |
| `Categorizer.BillWins` | app.py:53-54 | A substring `invoice`, `gst`, `amount` or `total` gives "Bill" whatever else the text contains |
| `Categorizer.EmptyIsUncategorized` | app.py:61-62 | `categorize("") == "Uncategorized"` |
| `Categorizer.SubstringNotToken` | app.py:55-56 | Matching is by substring: "valid" contains "id" and is an ID Document |
| `PdfExtraction.DirectTextEmpty` | app.py:76-79 | The direct text is empty exactly when no page has text, and otherwise ends with the newline that follows each page's text |
| `PdfExtraction.DirectTextAppend` | app.py:76-79 | The direct text of a run of pages is the first part's text followed by the rest's, so page order is kept |
| `PdfExtraction.DirectTextSnoc` | app.py:76-79 | One more page adds its text and a newline at the end, or nothing when it has no text |
| `PdfExtraction.DirectTextBlank` | app.py:76-82 | The direct text is whitespace-only exactly when every page's text is (both directions) |
| `PdfExtraction.FirstPageError` | app.py:76-91 | None exactly when every page's extraction succeeded (both directions) |
| `PdfExtraction.FirstPageErrorIsFirst` | app.py:76-91 | The cause reported is that of the first page whose extraction raised |
| `PdfExtraction.ReadDirectText` | app.py:76-79 | The direct-pass loop stops at the first page that raises, reporting its cause, and otherwise returns the direct text of all pages |
| `PdfExtraction.FirstOcrError` | app.py:85-88 | The number of page images recognised before the first OCR exception: all before it were recognised and the image at it raised |
| `PdfExtraction.RecognisedTextEmpty` | app.py:85-86 | The OCR text is empty exactly when every page image gave empty text |
| `PdfExtraction.RecognisedTextAppend` | app.py:85-86 | OCR text is assembled in page order |
| `PdfExtraction.RecognisedTextSnoc` | app.py:85-86 | One more recognised page appends its text at the end |
| `PdfExtraction.AppendRecognised` | app.py:85-88 | The OCR loop appends the text of every image up to the first that raises, and reports a failure exactly when one raised |
| `PdfExtraction.OcrFallback` | app.py:83-88 | The fallback appends the OCR text gathered before any failure, then the sentinel when rasterising or some page's OCR raised |
| `PdfExtraction.ExtractTextFromPdf` | app.py:65-93 | The accumulator loops return exactly `Extracted(reader, ocr)`, the outcome described by the lemmas below |
| `PdfExtraction.ExtractedShape` | app.py:90-93 | Every outcome is an error report starting with the marker, or a stripped string that starts and ends with a non-space |
| `PdfExtraction.ReadErrorResult` | app.py:90-91 | A reader that cannot open the file, or a page that raises, gives exactly the error marker plus the cause, not stripped, regardless of OCR; the result starts with the marker |
| `PdfExtraction.DirectTextWins` | app.py:76-93 | When some page's text is not whitespace-only, OCR is never consulted: every OCR outcome gives the same result, the stripped direct text |
| `PdfExtraction.OcrFallbackResult` | app.py:82-93 | With a whitespace-only direct pass and every page recognised, the result is the OCR texts in page order, stripped |
| `PdfExtraction.StripSentinel` | app.py:88-93 | Stripping text that ends with the sentinel keeps the whole sentinel after non-blank text, and leaves only the message after blank text |
| `PdfExtraction.StripSentinelAfterBlank` | app.py:82-93 | After a blank prefix, OCR text and the sentinel strip to the OCR text without its leading whitespace and then the sentinel, or to the bare message when the OCR text is blank |
| `PdfExtraction.CollectedWhenOcrFails` | app.py:82-88 | With a whitespace-only direct pass and failing OCR, the accumulator is the blank direct text, the OCR text gathered before the failure and the sentinel |
| `PdfExtraction.OcrUnavailableResult` | app.py:82-93 | With a whitespace-only direct pass and failing OCR, nothing is raised. The result is the OCR text gathered before the failure, without its leading whitespace, then the sentinel; it is the bare message when that text is blank |

## Left out

- The Flask routes and HTML rendering (`index`, `upload_file`, `dashboard`, `view_doc`, app.py:96-169) are HTTP plumbing. This includes the dispatch on the `.pdf` suffix and the direct OCR of images (app.py:111-114).
- SQLite persistence (`init_db`, the INSERT and the SELECTs) is an external store.
- The internals of `PdfReader`, `convert_from_path` and `pytesseract.image_to_string` are foreign libraries. Only their outcomes are inputs.
- NLTK stopword loading and download (app.py:21-25) is resource loading. The stopword set is a parameter.
- Process start-up and port configuration (app.py:172-177) are left out.
- StrBuiltins.Lower: maps only ASCII `A`-`Z`; Python's `str.lower` also lower-cases non-ASCII letters, which the model leaves unchanged.
- StrBuiltins.SpaceIsAsciiWhitespace: only ASCII whitespace; `str.split()` and `str.strip()` also treat some non-ASCII characters (such as U+0085 and U+00A0) as whitespace.
- Normalizer.DigitsAreDecimal: only `0`-`9`; the regular expression `\d` also matches non-ASCII decimal digits.
- PdfExtraction.ExtractTextFromPdf: which exception types are raised, and the exact text of `str(e)`, are not modelled; the cause is an uninterpreted string.
