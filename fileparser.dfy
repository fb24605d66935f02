/** `parseFile`: choose an extractor by the lower-cased extension of the path, run it,
    and append the image summary to the text it returns. The extractors' inputs (what
    the PDF library, mammoth, AdmZip/xml2js and the file system produce) are given as
    a `Sources` value. */
module FileParser {
  import opened Text
  import opened Results
  import opened Paths
  import Pptx
  import Docx

  const FailurePrefix := "Failed to parse file: "
  const UnsupportedPrefix := "Unsupported file format: "
  const PdfErrorMessage := "Failed to extract text from PDF"

  /** What the libraries and the file system produce for the file at the path. */
  datatype Sources = Sources(
    pdfText: Outcome<string>,                // pdf-parse's `data.text`
    docxHtml: Outcome<string>,               // mammoth.convertToHtml
    docxRaw: Outcome<string>,                // mammoth.extractRawText
    docxFilesOk: bool,                       // the DOCX temporary-directory operations succeed
    archive: Outcome<seq<Pptx.Entry>>,       // AdmZip entries, parsed by xml2js
    fileText: Outcome<string>)               // fs.readFileSync(path, 'utf8')

  /** The extractors, as the `switch` on the extension selects them. */
  datatype Format = Pdf | Word | PowerPoint | PlainText

  function FormatOf(ext: string): Option<Format> {
    if ext == ".pdf" then Some(Pdf)
    else if ext == ".docx" || ext == ".doc" then Some(Word)
    else if ext == ".pptx" || ext == ".ppt" then Some(PowerPoint)
    else if ext == ".txt" then Some(PlainText)
    else None
  }

  /** An extractor's result: the record of text, count and descriptions, or the bare
      string the PDF extractor resolves to. */
  datatype Extracted = Structured(result: ExtractionResult) | BareText(s: string)

  /** The object `parseFile` resolves to; `text` is `None` where it is `undefined`. */
  datatype Parsed = Parsed(text: Option<string>, extractedData: Extracted)

  /** The lower-cased extension the dispatch looks at. */
  function Extension(path: string): string {
    ToLower(Extname(path))
  }

  /** `extractTextFromPDF`: the library's text, or a fixed message on any failure. */
  function PdfResult(pdf: Outcome<string>): (r: Outcome<string>)
    ensures r.Fail? <==> pdf.Fail?
    ensures r.Fail? ==> r.message == PdfErrorMessage
    ensures r.Ok? ==> r.value == pdf.value
  {
    match pdf
    case Ok(t) => Ok(t)
    case Fail(_) => Fail(PdfErrorMessage)
  }

  /** What the chosen extractor resolves to. */
  function Extract(format: Format, src: Sources): Outcome<Extracted> {
    match format
    case Pdf => FromPdf(src)
    case Word => FromWord(src)
    case PowerPoint => FromPowerPoint(src)
    case PlainText => FromTextFile(src)
  }

  function FromPdf(src: Sources): Outcome<Extracted> {
    match PdfResult(src.pdfText)
    case Ok(t) => Ok(BareText(t))
    case Fail(m) => Fail(m)
  }

  function FromWord(src: Sources): Outcome<Extracted> {
    if src.docxHtml.Fail? || src.docxRaw.Fail? || !src.docxFilesOk then Fail(Docx.ErrorMessage)
    else Ok(Structured(Docx.DocxResult(src.docxHtml.value, src.docxRaw.value)))
  }

  function FromPowerPoint(src: Sources): Outcome<Extracted> {
    match Pptx.PptxResult(src.archive)
    case Ok(r) => Ok(Structured(r))
    case Fail(m) => Fail(m)
  }

  function FromTextFile(src: Sources): Outcome<Extracted> {
    match src.fileText
    case Ok(t) => Ok(Structured(ExtractionResult(t, 0, [])))
    case Fail(m) => Fail(m)
  }

  /** `- d\n` for every description, in order. */
  function DetailLines(descriptions: seq<string>): string {
    if descriptions == [] then ""
    else DetailLines(descriptions[..|descriptions| - 1]) + DetailLine(descriptions[|descriptions| - 1])
  }

  function DetailLine(d: string): string {
    "- " + d + "\n"
  }

  const TrailerHeading := "\n\n--- Image Information ---\n"

  /** The image summary appended to the text of a result with images. */
  function ImageTrailer(r: ExtractionResult): string {
    if r.imageCount > 0 then
      TrailerHeading + "Total images: " + NatToString(r.imageCount) + "\n"
      + (if |r.imageDescriptions| > 0 then "Details:\n" + DetailLines(r.imageDescriptions) else "")
    else ""
  }

  /** The combined text: `undefined` for the bare string of the PDF extractor, which has
      no `text` and no `imageCount` property. */
  function CombinedText(x: Extracted): Option<string> {
    match x
    case Structured(r) => Some(r.text + ImageTrailer(r))
    case BareText(_) => None
  }

  /** What `parseFile(path)` resolves to, or the message it rejects with, with the
      PDF branch corrected as `PdfTextUndefined` explains. */
  function ParseResult(path: string, src: Sources): Outcome<Parsed> {
    DispatchFixed(Extension(path), src)
  }

  /** The `switch` on the lower-cased extension as written, the extractor it runs, the
      combined text, and the wrapping of every failure. */
  function Dispatch(ext: string, src: Sources): Outcome<Parsed> {
    match FormatOf(ext)
    case None => Fail(FailurePrefix + UnsupportedPrefix + ext)
    case Some(f) =>
      match Extract(f, src)
      case Fail(m) => Fail(FailurePrefix + m)
      case Ok(x) => Ok(Parsed(CombinedText(x), x))
  }

  /** `parseFile`, with a PDF's text kept as a result without images. */
  method ParseFile(path: string, src: Sources) returns (r: Outcome<Parsed>)
    ensures r == ParseResult(path, src)
  {
    var ext := ToLower(Extname(path));
    var result: Extracted;
    match FormatOf(ext) {
      case None =>
        return Fail(FailurePrefix + UnsupportedPrefix + ext);
      case Some(Pdf) =>
        var pdf := PdfResult(src.pdfText);
        if pdf.Fail? {
          return Fail(FailurePrefix + pdf.message);
        }
        result := Structured(ExtractionResult(pdf.value, 0, []));
      case Some(Word) =>
        var docx := Docx.ExtractFromDocx(src.docxHtml, src.docxRaw, src.docxFilesOk);
        if docx.Fail? {
          return Fail(FailurePrefix + docx.message);
        }
        result := Structured(docx.value);
      case Some(PowerPoint) =>
        var pptx := Pptx.ExtractFromPptx(src.archive);
        if pptx.Fail? {
          return Fail(FailurePrefix + pptx.message);
        }
        result := Structured(pptx.value);
      case Some(PlainText) =>
        if src.fileText.Fail? {
          return Fail(FailurePrefix + src.fileText.message);
        }
        result := Structured(ExtractionResult(src.fileText.value, 0, []));
    }
    var combined := CombineText(result.result);
    return Ok(Parsed(Some(combined), result));
  }

  /** The `+=` steps that build the combined text of a structured result. */
  method CombineText(x: ExtractionResult) returns (text: string)
    ensures text == x.text + ImageTrailer(x)
  {
    text := x.text;
    if x.imageCount > 0 {
      text := text + TrailerHeading;
      text := text + "Total images: " + NatToString(x.imageCount) + "\n";
      ghost var summary := TrailerHeading + "Total images: " + NatToString(x.imageCount) + "\n";
      SummaryAppended(x.text, TrailerHeading, "Total images: ", NatToString(x.imageCount), "\n");
      if |x.imageDescriptions| > 0 {
        ghost var before := text;
        text := text + "Details:\n";
        text := AppendDetails(text, x.imageDescriptions);
        Assoc(before, "Details:\n", DetailLines(x.imageDescriptions));
        Assoc(x.text, summary, "Details:\n" + DetailLines(x.imageDescriptions));
      } else {
        assert summary + "" == summary;
      }
    }
  }

  lemma Assoc(a: string, b: string, c: string)
    ensures a + b + c == a + (b + c)
  {
  }

  /** Appending the summary line by line appends the whole summary. */
  lemma SummaryAppended(t: string, h: string, l: string, n: string, e: string)
    ensures t + h + l + n + e == t + (h + l + n + e)
  {
    Assoc(t, h, l);
    Assoc(t, h + l, n);
    Assoc(t, h + l + n, e);
  }

  /** The `forEach` that appends one detail line per description. */
  method AppendDetails(text: string, descriptions: seq<string>) returns (r: string)
    ensures r == text + DetailLines(descriptions)
  {
    r := text;
    var i := 0;
    while i < |descriptions|
      invariant i <= |descriptions|
      invariant r == text + DetailLines(descriptions[..i])
    {
      assert descriptions[..i + 1][..i] == descriptions[..i];
      r := r + "- " + descriptions[i] + "\n";
      i := i + 1;
    }
    assert descriptions[..i] == descriptions;
  }

  // ---------------------------------------------------------------------------
  // Properties of the dispatch
  // ---------------------------------------------------------------------------

  /** The dispatch ignores the case of the path: `notes.PDF` and `notes.pdf` are
      handled alike, down to the message for an unsupported extension. */
  lemma DispatchIgnoresCase(path: string, src: Sources)
    ensures ParseResult(ToLower(path), src) == ParseResult(path, src)
  {
    ExtnameToLower(path);
    ToLowerIdempotent(Extname(path));
  }

  /** The extension table: `.pdf` to the PDF extractor, `.docx` and `.doc` to the Word
      extractor, `.pptx` and `.ppt` to the PowerPoint extractor, `.txt` read as it is;
      the comparison is exact, so only lower-cased extensions match. */
  lemma DispatchTable()
    ensures FormatOf(".pdf") == Some(Pdf)
    ensures FormatOf(".docx") == Some(Word) && FormatOf(".doc") == Some(Word)
    ensures FormatOf(".pptx") == Some(PowerPoint) && FormatOf(".ppt") == Some(PowerPoint)
    ensures FormatOf(".txt") == Some(PlainText)
    ensures FormatOf(".PDF") == None && FormatOf("") == None && FormatOf(".md") == None
  {
  }

  /** Exactly the six extensions of the table are supported. */
  lemma SupportedExtensions(ext: string)
    ensures FormatOf(ext).Some? <==> ext in [".pdf", ".docx", ".doc", ".pptx", ".ppt", ".txt"]
  {
  }

  /** An extension outside the table is rejected with the wrapped message. */
  lemma UnsupportedFormat(ext: string, src: Sources)
    requires FormatOf(ext).None?
    ensures Dispatch(ext, src) == Fail(FailurePrefix + UnsupportedPrefix + ext)
  {
  }

  /** Every rejection carries the `parseFile` prefix in front of the extractor's own
      message, and a successful parse hands back the extractor's result unchanged. */
  lemma OutcomeOfDispatch(ext: string, src: Sources)
    requires FormatOf(ext).Some?
    ensures var x := Extract(FormatOf(ext).value, src);
      && (x.Fail? <==> Dispatch(ext, src).Fail?)
      && (x.Fail? ==> Dispatch(ext, src).message == FailurePrefix + x.message)
      && (x.Ok? ==> Dispatch(ext, src).value.extractedData == x.value)
  {
  }

  /** The Word extractor's failures reach the caller as one fixed message. */
  lemma WordDispatch(ext: string, src: Sources)
    requires FormatOf(ext) == Some(Word)
    ensures src.docxHtml.Fail? || src.docxRaw.Fail? || !src.docxFilesOk ==>
      Dispatch(ext, src) == Fail(FailurePrefix + Docx.ErrorMessage)
    ensures src.docxHtml.Ok? && src.docxRaw.Ok? && src.docxFilesOk ==>
      Dispatch(ext, src).Ok?
      && Dispatch(ext, src).value.extractedData
        == Structured(Docx.DocxResult(src.docxHtml.value, src.docxRaw.value))
  {
  }

  /** Whatever `pdf-parse` or the file read throws, the PDF branch reports the one
      fixed message; a readable PDF gives, in the corrected branch, exactly the text
      the library extracted, with no images. */
  lemma PdfDispatch(ext: string, src: Sources)
    requires FormatOf(ext) == Some(Pdf)
    ensures src.pdfText.Fail? ==>
      Dispatch(ext, src) == Fail(FailurePrefix + PdfErrorMessage)
      && DispatchFixed(ext, src) == Fail(FailurePrefix + PdfErrorMessage)
    ensures src.pdfText.Ok? ==>
      DispatchFixed(ext, src)
        == Ok(Parsed(Some(src.pdfText.value), Structured(ExtractionResult(src.pdfText.value, 0, []))))
  {
    if src.pdfText.Ok? {
      NoImagesNoSummary(ExtractionResult(src.pdfText.value, 0, []));
    }
  }

  /** The PowerPoint extractor's failures already carry its own prefix. */
  lemma PowerPointDispatch(ext: string, src: Sources)
    requires FormatOf(ext) == Some(PowerPoint)
    ensures src.archive.Fail? ==>
      Dispatch(ext, src) == Fail(FailurePrefix + (Pptx.ErrorPrefix + src.archive.message))
    ensures Pptx.PptxResult(src.archive).Ok? ==>
      Dispatch(ext, src).Ok?
      && Dispatch(ext, src).value.extractedData == Structured(Pptx.PptxResult(src.archive).value)
  {
  }

  /** A text file is the file's contents, with no images and no summary. */
  lemma PlainTextFile(ext: string, src: Sources)
    requires FormatOf(ext) == Some(PlainText) && src.fileText.Ok?
    ensures Dispatch(ext, src)
      == Ok(Parsed(Some(src.fileText.value), Structured(ExtractionResult(src.fileText.value, 0, []))))
  {
    NoImagesNoSummary(ExtractionResult(src.fileText.value, 0, []));
  }

  // ---------------------------------------------------------------------------
  // Properties of the image summary
  // ---------------------------------------------------------------------------

  /** The extractor's text always comes first, and is all of the text when there is no
      image. */
  lemma TextKeptInFront(r: ExtractionResult)
    ensures var t := CombinedText(Structured(r)).value; |r.text| <= |t| && t[..|r.text|] == r.text
    ensures r.imageCount == 0 ==> CombinedText(Structured(r)) == Some(r.text)
  {
    var t := r.text + ImageTrailer(r);
    assert t[..|r.text|] == r.text;
    if r.imageCount == 0 {
      NoImagesNoSummary(r);
    }
  }

  lemma NoImagesNoSummary(r: ExtractionResult)
    requires r.imageCount == 0
    ensures CombinedText(Structured(r)) == Some(r.text)
  {
    assert ImageTrailer(r) == "";
    assert r.text + "" == r.text;
  }

  const CountLabel := "Total images: "

  /** The count written in the summary reads back as the image count. */
  lemma TrailerCountReadsBack(r: ExtractionResult)
    requires r.imageCount > 0
    ensures var t := ImageTrailer(r); var k := |TrailerHeading + CountLabel|;
      k <= |t| && t[..k] == TrailerHeading + CountLabel
      && var rest := t[k..]; DigitsValue(rest[..LeadingDigits(rest)]) == r.imageCount
  {
    var n := NatToString(r.imageCount);
    var details := if |r.imageDescriptions| > 0 then "Details:\n" + DetailLines(r.imageDescriptions) else "";
    var head := TrailerHeading + CountLabel;
    var tail := "\n" + details;
    TrailerPieces(head, n, tail, details);
    LeadingDigitsOfNumber(r.imageCount, tail);
    assert (n + tail)[..|n|] == n;
    DigitsValueOfNatToString(r.imageCount);
  }

  lemma TrailerPieces(head: string, n: string, tail: string, details: string)
    requires tail == "\n" + details
    ensures head + n + "\n" + details == head + (n + tail)
  {
  }

  /** `- d` for every description. */
  function DashLines(descriptions: seq<string>): (lines: seq<string>)
    ensures |lines| == |descriptions|
  {
    seq(|descriptions|, i requires 0 <= i < |descriptions| => "- " + descriptions[i])
  }

  lemma DashLinesSnoc(descriptions: seq<string>)
    requires descriptions != []
    ensures var n := |descriptions|;
      DashLines(descriptions) == DashLines(descriptions[..n - 1]) + ["- " + descriptions[n - 1]]
  {
  }

  /** Split on line breaks, the detail lines give back one `- d` line per description,
      in order (then the empty text after the final line break). */
  lemma {:induction false} DetailLinesSplit(descriptions: seq<string>)
    requires forall i :: 0 <= i < |descriptions| ==> '\n' !in descriptions[i]
    ensures Split(DetailLines(descriptions), "\n") == DashLines(descriptions) + [""]
    decreases |descriptions|
  {
    if descriptions != [] {
      var init := descriptions[..|descriptions| - 1];
      var d := descriptions[|descriptions| - 1];
      DetailLinesSplit(init);
      assert DetailLines(descriptions) == DetailLines(init) + ("- " + d) + "\n";
      SplitAppendLine(DetailLines(init), DashLines(init), "- " + d);
      DashLinesSnoc(descriptions);
    } else {
      assert IndexOf("", "\n") < 0;
    }
  }

  /** Appending one more line that holds no line break adds it to the lines. */
  lemma SplitAppendLine(text: string, lines: seq<string>, line: string)
    requires Split(text, "\n") == lines + [""]
    requires '\n' !in line
    ensures Split(text + line + "\n", "\n") == lines + [line] + [""]
  {
    assert text + line + "\n" == text + (line + "\n");
    SplitAfterSeparator(text, lines, line + "\n", "\n");
    SplitLine(line);
  }

  /** A line without a line break, with its line break. */
  lemma SplitLine(line: string)
    requires '\n' !in line
    ensures Split(line + "\n", "\n") == [line, ""]
  {
    var s := line + "\n";
    forall j: nat | j < |line|
      ensures !OccursAt(s, "\n", j)
    {
      assert s[j..j + 1] == [line[j]];
    }
    assert s[|line|..|line| + 1] == "\n";
    IndexOfUnique(s, "\n", |line|);
    assert s[..|line|] == line;
    assert s[|line| + 1..] == "";
    assert IndexOf("", "\n") < 0;
  }

  // ---------------------------------------------------------------------------
  // The PDF branch
  // ---------------------------------------------------------------------------

  /** As written, a PDF's text is lost: the PDF extractor resolves to a bare string,
      whose `text` property is `undefined`, and the summary test on its `imageCount`
      is false, so the parse succeeds with no text. */
  lemma PdfTextUndefined(ext: string, src: Sources)
    requires FormatOf(ext) == Some(Pdf) && src.pdfText.Ok?
    ensures Dispatch(ext, src) == Ok(Parsed(None, BareText(src.pdfText.value)))
  {
  }

  /** The evidently intended PDF branch: the text as a result with no images. */
  function FromPdfFixed(src: Sources): Outcome<Extracted> {
    match PdfResult(src.pdfText)
    case Ok(t) => Ok(Structured(ExtractionResult(t, 0, [])))
    case Fail(m) => Fail(m)
  }

  function ExtractFixed(format: Format, src: Sources): Outcome<Extracted> {
    if format == Pdf then FromPdfFixed(src) else Extract(format, src)
  }

  /** `Dispatch` with the corrected PDF branch. */
  function DispatchFixed(ext: string, src: Sources): Outcome<Parsed> {
    match FormatOf(ext)
    case None => Fail(FailurePrefix + UnsupportedPrefix + ext)
    case Some(f) =>
      match ExtractFixed(f, src)
      case Fail(m) => Fail(FailurePrefix + m)
      case Ok(x) => Ok(Parsed(CombinedText(x), x))
  }

  /** With the correction every successful parse has a text, and it starts with the
      extractor's text; for a PDF it is exactly the PDF's text. */
  lemma FixedParseHasText(ext: string, src: Sources)
    requires DispatchFixed(ext, src).Ok?
    ensures var p := DispatchFixed(ext, src).value;
      p.text.Some? && p.extractedData.Structured?
      && |p.extractedData.result.text| <= |p.text.value|
      && p.text.value[..|p.extractedData.result.text|] == p.extractedData.result.text
    ensures FormatOf(ext) == Some(Pdf) ==> DispatchFixed(ext, src).value.text == Some(src.pdfText.value)
  {
    var f := FormatOf(ext).value;
    var x := ExtractFixed(f, src).value;
    assert x.Structured?;
    TextKeptInFront(x.result);
    if f == Pdf {
      NoImagesNoSummary(x.result);
    }
  }

  /** The correction changes nothing but the PDF branch. */
  lemma FixedAgreesElsewhere(ext: string, src: Sources)
    requires FormatOf(ext) != Some(Pdf)
    ensures DispatchFixed(ext, src) == Dispatch(ext, src)
  {
  }
}
