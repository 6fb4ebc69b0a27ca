/** Text extraction by document type (ingest/prepare_txt.py): `clean_text`,
    which turns carriage returns and no-break spaces into spaces and strips
    the result, and `extract_text_from_document`, which picks an extractor
    by the lower-cased suffix and falls back to OCR for a PDF with almost no
    text. */
module PrepareTxt {
  import opened Wrappers
  import opened Text
  import opened Paths

  /** A PDF whose stripped text is shorter than this is taken to be scanned. */
  const OCR_THRESHOLD := 30

  /** Trimmed: no whitespace at either end. */
  predicate Trimmed(s: string) {
    s == [] || (!IsSpace(s[0]) && !IsSpace(s[|s| - 1]))
  }

  /** What `clean_text` guarantees of its output. */
  predicate Clean(s: string) {
    '\r' !in s && '\U{A0}' !in s && Trimmed(s)
  }

  /** `clean_text(t)` for a string `t`. */
  function CleanText(t: string): (r: string)
    ensures Trimmed(r)
  {
    if t == [] then []
    else Strip(ReplaceChar(ReplaceChar(t, '\r', ' '), '\U{A0}', ' '))
  }

  /** The output of `clean_text` holds no carriage return and no no-break
      space, is trimmed, and is no longer than the input. */
  lemma CleanTextClean(t: string)
    ensures Clean(CleanText(t))
    ensures |CleanText(t)| <= |t|
  {
    if t != [] {
      var v := ReplaceChar(t, '\r', ' ');
      var u := ReplaceChar(v, '\U{A0}', ' ');
      ReplaceCharKeepsAbsent(v, '\U{A0}', ' ', '\r');
      StripKeepsAbsent(u, '\r');
      StripKeepsAbsent(u, '\U{A0}');
    }
  }

  /** `clean_text` leaves a string as it is exactly when the string is
      already clean. */
  lemma CleanTextFixpointIff(t: string)
    ensures CleanText(t) == t <==> Clean(t)
  {
    CleanTextClean(t);
    if Clean(t) && t != [] {
      var v := ReplaceChar(t, '\r', ' ');
      assert v == t;
      assert ReplaceChar(v, '\U{A0}', ' ') == t;
      StripTrimmed(t);
    }
  }

  /** `clean_text` is idempotent. */
  lemma CleanTextIdempotent(t: string)
    ensures CleanText(CleanText(t)) == CleanText(t)
  {
    CleanTextClean(t);
    CleanTextFixpointIff(CleanText(t));
  }

  /** The extractors the function calls on a path, each `None` when it raised:
      PDF text extraction, DOCX text extraction and OCR. */
  datatype Extractors = Extractors(
    pdf: DocPath -> Option<string>,
    docx: DocPath -> Option<string>,
    ocr: DocPath -> Option<string>)

  /** True when a PDF's text is too short to use, so OCR is tried. */
  predicate NeedsOcr(txt: string) {
    txt == [] || |Strip(txt)| < OCR_THRESHOLD
  }

  /** `extract_text_from_document(path)`. */
  function ExtractTextFromDocument(path: DocPath, ex: Extractors): (r: string)
    ensures Trimmed(r)
  {
    var ext := Lower(Suffix(path));
    if ext == ".pdf" then
      var txt := ex.pdf(path).GetOr("");
      var txt' := if NeedsOcr(txt) then ex.ocr(path).GetOr("") else txt;
      CleanText(txt')
    else if ext == ".docx" then
      match ex.docx(path)
      case None => ""
      case Some(txt) => CleanText(txt)
    else
      // ".doc" is recognised but not supported; any other suffix is unknown
      ""
  }

  /** The result depends on the path only through its lower-cased suffix and
      what the extractors return for it: ".PDF" is handled as ".pdf". */
  lemma ExtractDependsOnSuffix(p: DocPath, q: DocPath, ex: Extractors)
    requires Lower(Suffix(p)) == Lower(Suffix(q))
    requires ex.pdf(p) == ex.pdf(q) && ex.docx(p) == ex.docx(q) && ex.ocr(p) == ex.ocr(q)
    ensures ExtractTextFromDocument(p, ex) == ExtractTextFromDocument(q, ex)
  {
  }

  /** A ".doc" file, or a file of any other unsupported type, yields "",
      whatever the extractors would return. */
  lemma UnsupportedIsEmpty(path: DocPath, ex: Extractors)
    requires Lower(Suffix(path)) != ".pdf" && Lower(Suffix(path)) != ".docx"
    ensures ExtractTextFromDocument(path, ex) == ""
  {
  }

  /** A PDF whose extracted text is at least 30 characters long once
      stripped is never sent to OCR: its result is that text, cleaned. */
  lemma LongPdfIgnoresOcr(path: DocPath, ex: Extractors, txt: string)
    requires Lower(Suffix(path)) == ".pdf"
    requires ex.pdf(path) == Some(txt) && |Strip(txt)| >= OCR_THRESHOLD
    ensures ExtractTextFromDocument(path, ex) == CleanText(txt)
    ensures forall o :: ExtractTextFromDocument(path, ex.(ocr := o)) == CleanText(txt)
  {
  }

  /** A PDF whose extraction raised or gave a text shorter than 30
      characters once stripped yields the OCR text, cleaned, or "" when OCR raised too. */
  lemma ShortPdfUsesOcr(path: DocPath, ex: Extractors)
    requires Lower(Suffix(path)) == ".pdf"
    requires ex.pdf(path).None? || |Strip(ex.pdf(path).value)| < OCR_THRESHOLD
    ensures ex.ocr(path).Some? ==> ExtractTextFromDocument(path, ex) == CleanText(ex.ocr(path).value)
    ensures ex.ocr(path).None? ==> ExtractTextFromDocument(path, ex) == ""
  {
  }

  /** A DOCX file yields its text, cleaned, or "" when extraction raised. */
  lemma DocxResult(path: DocPath, ex: Extractors)
    requires Lower(Suffix(path)) == ".docx"
    ensures ex.docx(path).Some? ==> ExtractTextFromDocument(path, ex) == CleanText(ex.docx(path).value)
    ensures ex.docx(path).None? ==> ExtractTextFromDocument(path, ex) == ""
  {
  }

  /** Every result is clean: cleaning it again changes nothing. */
  lemma ExtractIsClean(path: DocPath, ex: Extractors)
    ensures Clean(ExtractTextFromDocument(path, ex))
    ensures CleanText(ExtractTextFromDocument(path, ex)) == ExtractTextFromDocument(path, ex)
  {
    var ext := Lower(Suffix(path));
    if ext == ".pdf" {
      var txt := ex.pdf(path).GetOr("");
      var txt' := if NeedsOcr(txt) then ex.ocr(path).GetOr("") else txt;
      CleanTextClean(txt');
    } else if ext == ".docx" && ex.docx(path).Some? {
      CleanTextClean(ex.docx(path).value);
    }
    CleanTextFixpointIff(ExtractTextFromDocument(path, ex));
  }
}
