/**
 * The upload route (server/routes/uploadRoutes.js): format dispatch, the
 * empty-content rule, and when the temporary copy of the upload is deleted.
 * File reading and DOCX extraction are inputs; the temporary file is an
 * object whose only state is whether it still exists.
 */
module Upload {
  import opened Wrappers
  import opened JsText

  /** The formats the handler tells apart, in the order it tries them. */
  datatype Format = Text | Docx | Pdf | Unsupported

  const TextMime := "text/plain"
  const DocxMime := "application/vnd.openxmlformats-officedocument.wordprocessingml.document"
  const PdfMime := "application/pdf"

  /** The position of a format in the dispatch chain. */
  function Rank(f: Format): nat {
    match f
    case Text => 0
    case Docx => 1
    case Pdf => 2
    case Unsupported => 3
  }

  /** The MIME type or the (case-sensitive) name suffix marks the file as this format. */
  predicate Claims(f: Format, mimetype: string, name: string) {
    match f
    case Text => mimetype == TextMime || EndsWith(name, ".txt")
    case Docx => mimetype == DocxMime || EndsWith(name, ".docx")
    case Pdf => mimetype == PdfMime || EndsWith(name, ".pdf")
    case Unsupported => true
  }

  /** Lines 20, 25-27, 40 and 48: the first format in the chain that claims the file. */
  function FormatOf(mimetype: string, name: string): (f: Format)
    ensures Claims(f, mimetype, name)
    ensures forall g: Format | Rank(g) < Rank(f) :: !Claims(g, mimetype, name)
  {
    if mimetype == TextMime || EndsWith(name, ".txt") then Text
    else if mimetype == DocxMime || EndsWith(name, ".docx") then Docx
    else if mimetype == PdfMime || EndsWith(name, ".pdf") then Pdf
    else Unsupported
  }

  /** The MIME type wins over a contradicting suffix, and suffixes are case-sensitive. */
  lemma FormatExamples()
    ensures FormatOf(TextMime, "notes.pdf") == Text
    ensures FormatOf("application/octet-stream", "NOTES.TXT") == Unsupported
    ensures FormatOf("application/octet-stream", "notes.docx") == Docx
    ensures FormatOf(PdfMime, "notes.docx") == Docx
  {
    assert !EndsWith("NOTES.TXT", ".txt") by { assert "NOTES.TXT"[5] != 't'; }
    assert !EndsWith("NOTES.TXT", ".docx") by { assert "NOTES.TXT"[4] != '.'; }
    assert !EndsWith("NOTES.TXT", ".pdf") by { assert "NOTES.TXT"[6] != 'p'; }
    assert EndsWith("notes.docx", ".docx") by { assert "notes.docx"[5..] == ".docx"; }
    assert !EndsWith("notes.pdf", ".txt") by { assert "notes.pdf"[6] != 't'; }
  }

  /** The file as the upload middleware describes it. */
  datatype UploadedFile = UploadedFile(mimetype: string, originalname: string)

  /** The JSON answer: `{success: true, transcript}` or an error status with `{success: false, error}`. */
  datatype UploadResponse = Transcript(transcript: string) | Failure(status: nat, error: string)

  const NoFile := "No file uploaded"
  const DocxFailed := "Failed to parse DOCX file"
  const PdfDisabled := "PDF support is temporarily disabled. Please convert your PDF to a TXT or DOCX file and try again."
  const UnsupportedFormat := "Unsupported file format. Please use TXT or DOCX files."
  const NoText := "No text content found in the file"
  const ProcessFailed := "Failed to process transcript"

  /** The temporary copy of an upload on disk. */
  class TempFile {
    var present: bool

    constructor ()
      ensures present
    {
      present := true;
    }

    /** Deletes the file; this fails, and changes nothing, when it is already gone. */
    method Unlink() returns (ok: bool)
      modifies this
      ensures ok == old(present)
      ensures !present
    {
      ok := present;
      present := false;
    }
  }

  /**
   * The specification of the handler: the response and whether the temporary
   * file still exists afterwards, given whether it existed before, the text a
   * plain read yields (None when the read throws) and the text DOCX extraction
   * yields (None when it throws).
   */
  function UploadOutcome(file: Option<UploadedFile>, present: bool, readText: Option<string>, docxText: Option<string>): (r: (UploadResponse, bool))
    ensures r.1 ==> present
    ensures r.0.Failure? ==> r.0.status == 400 || r.0.status == 500
    ensures r.0.Transcript? ==> r.0.transcript != "" && IsTrimmed(r.0.transcript) && !r.1
  {
    if file.None? then (Failure(400, NoFile), present)
    else
      match FormatOf(file.value.mimetype, file.value.originalname)
      case Text =>
        if readText.None? then (Failure(500, ProcessFailed), present)
        else (ContentResponse(readText.value), false)
      case Docx =>
        if docxText.None? then (Failure(400, DocxFailed), present)
        else (ContentResponse(docxText.value), false)
      case Pdf => (if present then Failure(400, PdfDisabled) else Failure(500, ProcessFailed), false)
      case Unsupported => (if present then Failure(400, UnsupportedFormat) else Failure(500, ProcessFailed), false)
  }

  /** Lines 64-68: the trimmed text, refused when nothing but white space is left. */
  function ContentResponse(text: string): (r: UploadResponse)
    ensures r.Failure? <==> AllSpace(text)
    ensures r.Transcript? ==> r.transcript != "" && IsTrimmed(r.transcript)
    ensures r.Failure? ==> r == Failure(400, NoText)
    ensures r.Transcript? ==> r.transcript == Trim(text)
  {
    TrimEmptyIffAllSpace(text);
    var trimmed := Trim(text);
    if trimmed == "" then Failure(400, NoText) else Transcript(trimmed)
  }

  /** Lines 12-68: the handler, step by step. */
  method HandleUpload(file: Option<UploadedFile>, temp: TempFile, readText: Option<string>, docxText: Option<string>)
    returns (response: UploadResponse)
    modifies temp
    ensures (response, temp.present) == UploadOutcome(file, old(temp.present), readText, docxText)
  {
    if file.None? {
      return Failure(400, NoFile);
    }
    var transcriptText := "";
    var format := FormatOf(file.value.mimetype, file.value.originalname);
    if format == Text {
      if readText.None? {
        return Failure(500, ProcessFailed);
      }
      transcriptText := readText.value;
    } else if format == Docx {
      if docxText.None? {
        return Failure(400, DocxFailed);
      }
      transcriptText := docxText.value;
    } else if format == Pdf {
      var ok := temp.Unlink();
      if !ok {
        return Failure(500, ProcessFailed);
      }
      return Failure(400, PdfDisabled);
    } else {
      var ok := temp.Unlink();
      if !ok {
        return Failure(500, ProcessFailed);
      }
      return Failure(400, UnsupportedFormat);
    }
    // a failed cleanup is only logged
    var _ := temp.Unlink();
    var trimmed := Trim(transcriptText);
    if trimmed == "" {
      return Failure(400, NoText);
    }
    return Transcript(trimmed);
  }

  /** Without a file the answer is 400 "No file uploaded" whatever else holds, and nothing is deleted. */
  lemma NoFileCheckedFirst(present: bool, readText: Option<string>, docxText: Option<string>)
    ensures UploadOutcome(None, present, readText, docxText) == (Failure(400, NoFile), present)
  {
  }

  /** A PDF or an unsupported file is always refused, whatever its content, and its temporary file is gone. */
  lemma RefusedFormatsDeleted(file: UploadedFile, present: bool, readText: Option<string>, docxText: Option<string>)
    requires FormatOf(file.mimetype, file.originalname) in {Pdf, Unsupported}
    ensures var (r, after) := UploadOutcome(Some(file), present, readText, docxText);
      r.Failure? && !after && (present ==> r.status == 400)
  {
  }

  /** A successful answer carries non-empty trimmed text extracted from a text or DOCX file, and the file is gone. */
  lemma SuccessIsTrimmedText(file: UploadedFile, present: bool, readText: Option<string>, docxText: Option<string>)
    ensures var (r, after) := UploadOutcome(Some(file), present, readText, docxText);
      var fmt := FormatOf(file.mimetype, file.originalname);
      r.Transcript? ==>
        !after && r.transcript != "" && IsTrimmed(r.transcript) &&
        ((fmt == Text && readText.Some? && r.transcript == Trim(readText.value)) ||
         (fmt == Docx && docxText.Some? && r.transcript == Trim(docxText.value)))
  {
  }

  /** Text that is only white space is refused with 400, after the file is deleted. */
  lemma WhitespaceOnlyRefused(file: UploadedFile, present: bool, text: string)
    requires FormatOf(file.mimetype, file.originalname) in {Text, Docx}
    requires AllSpace(text)
    ensures UploadOutcome(Some(file), present, Some(text), Some(text)) == (Failure(400, NoText), false)
  {
  }

  /**
   * For a received upload, the temporary file survives exactly when reading a
   * text file failed or DOCX extraction failed: those paths return before any
   * cleanup. Every other path deletes it.
   */
  lemma TempFileSurvives(file: UploadedFile, present: bool, readText: Option<string>, docxText: Option<string>)
    ensures UploadOutcome(Some(file), present, readText, docxText).1 <==>
      present &&
      ((FormatOf(file.mimetype, file.originalname) == Text && readText.None?) ||
       (FormatOf(file.mimetype, file.originalname) == Docx && docxText.None?))
  {
  }

  /** A DOCX parse failure is a 400 and leaves the temporary file on disk. */
  lemma DocxFailureKeepsFile(file: UploadedFile, readText: Option<string>)
    requires FormatOf(file.mimetype, file.originalname) == Docx
    ensures UploadOutcome(Some(file), true, readText, None) == (Failure(400, DocxFailed), true)
  {
  }
}
