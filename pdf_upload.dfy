/**
 * The administrator's upload page with watermark removal: how a chosen PDF
 * fills in the form (title, author, description, year, cover) from its cleaned
 * metadata and file name, when the form may be sent, and what is sent.
 */
module PdfUpload {

  import opened Wrappers
  import opened Strings
  import opened WatermarkAuthors

  /** What the form shows as the cover: the rendered first page, or the generated fallback cover for a title. */
  datatype Cover = PageImage(url: string) | FallbackCover(title: string)

  /** How `extractPDFCoverWithWatermarkRemoval` ends: the first page rendered with the metadata read, or a failure. */
  datatype Processing = Processed(pageImage: string, metadata: Metadata) | ProcessingFailed

  /** What that function resolves to. */
  datatype CoverResult = CoverResult(cover: Cover, metadata: Metadata, hasWatermarks: bool)

  /**
   * `extractPDFCoverWithWatermarkRemoval(file)`, given the file's cleaned name: on
   * success the flag is the page's current `watermarkDetected` state; on failure a
   * fallback cover for the cleaned name, empty metadata and no watermarks.
   */
  function CoverFor(cleaned: string, processing: Processing, watermarkDetected: bool): (r: CoverResult)
  {
    match processing
    case Processed(image, metadata) => CoverResult(PageImage(image), metadata, watermarkDetected)
    case ProcessingFailed => CoverResult(FallbackCover(cleaned), NoMetadata, false)
  }

  /** A metadata entry, or `undefined` when the metadata is `{}`. */
  function EntryTitle(m: Metadata): Option<string> { if m.Metadata? then m.title else None }
  function EntryAuthor(m: Metadata): Option<string> { if m.Metadata? then m.author else None }
  function EntrySubject(m: Metadata): Option<string> { if m.Metadata? then m.subject else None }
  function EntryCreationDate(m: Metadata): Option<string> { if m.Metadata? then m.creationDate else None }

  /** `x && x.trim()`: present, and not only white space. */
  predicate Usable(x: Option<string>) {
    x.Some? && x.value != [] && Trim(x.value) != []
  }

  /** What the extraction puts into the form. */
  datatype Extracted = Extracted(
    title: string, author: string, category: string, description: string, cover: Cover,
    publishYear: string, metadata: Metadata, watermarkRemoved: bool)

  /** The description's closing sentence when the PDF has a subject. */
  const SubjectClosing: string := " - " + "a comprehensive book with valuable content. Please update this description with more specific details about the content and themes."

  /** The description's closing sentence when it has none. */
  const PlainClosing: string := " - " + "a comprehensive book that offers valuable insights and knowledge. Please update this description with more specific details about the content, themes, and what readers can expect to learn from this book."

  /** `This is "<title>"`, then ` by <author>` when there is an author. */
  function Introduction(title: string, author: string): string {
    "This is \"" + title + "\"" + (if author != "" then " by " + author else "")
  }

  /** What opens the description: the subject and a blank line when there is one. */
  function Lead(subject: Option<string>): string {
    if Usable(subject) then subject.value + "\n\n" else ""
  }

  /** The closing sentence, by whether there is a subject. */
  function Closing(subject: Option<string>): string {
    if Usable(subject) then SubjectClosing else PlainClosing
  }

  /** The generated description. */
  function Description(subject: Option<string>, title: string, author: string): string {
    Lead(subject) + Introduction(title, author) + Closing(subject)
  }

  /** The year shown: the creation date's year when it parses to one after 1900, else the current year. */
  function PublishYear(creationDate: Option<string>, parsedYear: Option<int>, currentYear: nat): string {
    if creationDate.Some? && creationDate.value != "" && parsedYear.Some? && parsedYear.value > 1900
    then DecimalString(parsedYear.value)
    else DecimalString(currentYear)
  }

  /**
   * `extractPDFDataEnhanced(file)`, given `cleaned`, what `cleanFilename` makes of
   * the file's name. The clock's year, the year `new Date` reads from the
   * creation date (`None` for an invalid date) and whether the outer `try` fails
   * are parameters.
   */
  function Extraction(
    cleaned: string, processing: Processing, watermarkDetected: bool,
    parsedYear: Option<int>, currentYear: nat, failed: bool): (e: Extracted)
  {
    if failed then
      var title := if cleaned != "" then cleaned else "Untitled Book";
      Extracted(title, "", "Non-Fiction", "Please add a description for this book.", FallbackCover(title),
                DecimalString(currentYear), NoMetadata, false)
    else
      var r := CoverFor(cleaned, processing, watermarkDetected);
      var m := r.metadata;
      var title := if Usable(EntryTitle(m)) then EntryTitle(m).value else cleaned;
      var author := if Usable(EntryAuthor(m)) then EntryAuthor(m).value else "";
      Extracted(title, author, "Non-Fiction", Description(EntrySubject(m), title, author), r.cover,
                PublishYear(EntryCreationDate(m), parsedYear, currentYear), m, r.hasWatermarks)
  }

  /**
   * The title is the metadata's when it has text, else the cleaned file name;
   * after a failure it is the cleaned name or `Untitled Book`, so only a
   * successful extraction of a file whose name cleans to nothing leaves it
   * empty. The author is the metadata's or empty, the category is always
   * Non-Fiction, and a failure keeps no metadata and a fallback cover.
   */
  lemma ExtractionFields(
    cleaned: string, processing: Processing, watermarkDetected: bool,
    parsedYear: Option<int>, currentYear: nat, failed: bool)
    ensures var e := Extraction(cleaned, processing, watermarkDetected, parsedYear, currentYear, failed);
      && e.category == "Non-Fiction"
      && (!failed && processing.Processed? ==> e.metadata == processing.metadata && e.cover == PageImage(processing.pageImage))
      && (!failed && Usable(EntryTitle(e.metadata)) ==> e.title == EntryTitle(e.metadata).value)
      && (!failed && !Usable(EntryTitle(e.metadata)) ==> e.title == cleaned)
      && (e.title == "" <==> !failed && !Usable(EntryTitle(e.metadata)) && cleaned == "")
      && (e.author != "" ==> Usable(EntryAuthor(e.metadata)) && e.author == EntryAuthor(e.metadata).value)
      && (!failed && Usable(EntryAuthor(e.metadata)) ==> e.author == EntryAuthor(e.metadata).value)
      && (failed ==> e.metadata == NoMetadata && e.cover == FallbackCover(e.title) && e.title != "" && e.author == "")
      && (!failed && processing.ProcessingFailed? ==>
           e.metadata == NoMetadata && e.author == "" && e.cover == FallbackCover(cleaned))
  {
  }

  /** The parts a description is made of: a lead, the introduction, a closing sentence that starts with ` - `. */
  lemma {:induction false} IntroductionParts(lead: string, title: string, author: string, closing: string)
    requires |closing| >= 3 && closing[..3] == " - "
    ensures var d := lead + Introduction(title, author) + closing;
      && StartsWith(d, lead + "This is \"" + title + "\"")
      && EndsWith(d, closing)
      && (author != "" <==> EndsWith(d, " by " + author + closing))
  {
    var q := "This is \"" + title + "\"";
    var byPart := if author != "" then " by " + author else "";
    var d := lead + Introduction(title, author) + closing;
    assert d == (lead + q) + (byPart + closing);
    assert d[..|lead + q|] == lead + q;
    assert d[|d| - |closing|..] == closing;
    var tail := " by " + author + closing;
    if author != "" {
      assert d[|d| - |tail|..] == tail;
    } else {
      // The quote that closes the title stands where the space before `by` would be.
      assert d == (lead + q) + closing;
      assert d[|d| - |closing| - 1] == '"';
      assert !EndsWith(d, tail) by {
        if |tail| <= |d| {
          assert d[|d| - |tail|..][3] == '"';
        }
      }
    }
  }

  /**
   * A usable subject opens the description, followed by a blank line; the
   * description then introduces the title in quotes, names the author exactly
   * when there is one, and ends with the closing sentence for its kind.
   */
  lemma DescriptionShape(subject: Option<string>, title: string, author: string)
    ensures var d := Description(subject, title, author);
      && (Usable(subject) ==> StartsWith(d, subject.value + "\n\n" + "This is \"" + title + "\""))
      && (!Usable(subject) ==> StartsWith(d, "This is \"" + title + "\""))
      && EndsWith(d, Closing(subject))
      && (author != "" <==> EndsWith(d, " by " + author + Closing(subject)))
  {
    assert SubjectClosing[..3] == " - " && PlainClosing[..3] == " - ";
    IntroductionParts(Lead(subject), title, author, Closing(subject));
    if !Usable(subject) {
      assert Lead(subject) + "This is \"" + title + "\"" == "This is \"" + title + "\"";
    }
  }

  /**
   * The year is written in decimal, and reads back as the parsed creation
   * year when that is after 1900, else as the current year.
   */
  lemma PublishYearValue(creationDate: Option<string>, parsedYear: Option<int>, currentYear: nat)
    ensures var y := PublishYear(creationDate, parsedYear, currentYear);
      && y != "" && (forall k :: 0 <= k < |y| ==> IsDigit(y[k]))
      && DecimalValue(y) == if creationDate.Some? && creationDate.value != "" && parsedYear.Some? && parsedYear.value > 1900
                             then parsedYear.value else currentYear
  {
    if creationDate.Some? && creationDate.value != "" && parsedYear.Some? && parsedYear.value > 1900 {
      DecimalRoundTrip(parsedYear.value);
    } else {
      DecimalRoundTrip(currentYear);
    }
  }

  // ---------------------------------------------------------------------------
  // The page's state

  /** The form's fields that the page fills in and sends. */
  datatype FormData = FormData(
    title: string, author: string, category: string, description: string, coverImage: Cover,
    pdfFile: string, publishYear: string)

  const EmptyForm: FormData := FormData("", "", "", "", PageImage(""), "", "")

  /** `isFormValid`: a title, a category, a description and a PDF path. */
  predicate FormValid(f: FormData) {
    f.title != "" && f.category != "" && f.description != "" && f.pdfFile != ""
  }

  /** The book sent with `POST /api/books`; an empty author is left out. */
  datatype BookData = BookData(
    title: string, author: Option<string>, description: string, category: string, coverImage: Cover, pdfFile: string)

  /** How the request ends. */
  datatype UploadResponse = Created | Refused(message: string) | Unreachable

  datatype Status = Idle | Success | Failure

  class UploadPage {
    var form: FormData
    var pdfName: Option<string>
    var watermarkDetected: bool
    var status: Status

    /** The page as first drawn. */
    constructor ()
      ensures form == EmptyForm && pdfName == None && !watermarkDetected && status == Idle
    {
      form := EmptyForm;
      pdfName := None;
      watermarkDetected := false;
      status := Idle;
    }

    /**
     * `handleFileChange(e)` and `handleDrop(e)`: a PDF is kept, its path set to
     * `uploads/<name>`, and the extraction's fields merged into the form; the
     * detected flag is set from what the extraction reports. Any other file is
     * ignored. `cleaned` is what `cleanFilename` makes of the file's name
     * (`WatermarkText.CleanName(fileName)`).
     */
    method ChooseFile(
      fileName: string, cleaned: string, mimeType: string, processing: Processing,
      parsedYear: Option<int>, currentYear: nat, failed: bool)
      modifies this
      ensures mimeType != "application/pdf" ==>
        form == old(form) && pdfName == old(pdfName) && watermarkDetected == old(watermarkDetected)
      ensures mimeType == "application/pdf" ==>
        (var e := Extraction(cleaned, processing, old(watermarkDetected), parsedYear, currentYear, failed);
         && pdfName == Some(fileName)
         && form == FormData(e.title, e.author, e.category, e.description, e.cover, "uploads/" + fileName, e.publishYear)
         && watermarkDetected == if failed then old(watermarkDetected) else CoverFor(cleaned, processing, old(watermarkDetected)).hasWatermarks)
      ensures !old(watermarkDetected) ==> !watermarkDetected
      ensures status == old(status)
    {
      if mimeType == "application/pdf" {
        pdfName := Some(fileName);
        var e := Extraction(cleaned, processing, watermarkDetected, parsedYear, currentYear, failed);
        if !failed {
          watermarkDetected := CoverFor(cleaned, processing, watermarkDetected).hasWatermarks;
        }
        form := FormData(e.title, e.author, e.category, e.description, e.cover, "uploads/" + fileName, e.publishYear);
      }
    }

    /**
     * `regeneratePDFCover()`: with a PDF chosen, only the cover is replaced;
     * `cleaned` is the chosen file's cleaned name.
     */
    method RegenerateCover(cleaned: string, processing: Processing)
      modifies this
      ensures pdfName.None? ==> form == old(form)
      ensures pdfName.Some? ==>
        form == old(form).(coverImage := CoverFor(cleaned, processing, watermarkDetected).cover)
      ensures pdfName == old(pdfName) && watermarkDetected == old(watermarkDetected) && status == old(status)
    {
      if pdfName.Some? {
        form := form.(coverImage := CoverFor(cleaned, processing, watermarkDetected).cover);
      }
    }

    /** `handleSubmit()`: what is sent, and the status the answer leaves. */
    method Submit(response: UploadResponse) returns (sent: BookData)
      modifies this
      ensures sent == BookData(form.title, if form.author != "" then Some(form.author) else None,
                               form.description, form.category, form.coverImage, form.pdfFile)
      ensures status == (if response.Created? then Success else Failure)
      ensures form == old(form) && pdfName == old(pdfName) && watermarkDetected == old(watermarkDetected)
    {
      sent := BookData(form.title, if form.author != "" then Some(form.author) else None,
                       form.description, form.category, form.coverImage, form.pdfFile);
      status := if response.Created? then Success else Failure;
    }

    /** The reset three seconds after a successful upload. */
    method ResetAfterSuccess()
      modifies this
      ensures form == EmptyForm && pdfName == None && !watermarkDetected && status == Idle
    {
      form := EmptyForm;
      pdfName := None;
      watermarkDetected := false;
      status := Idle;
    }
  }

  /**
   * The detected flag only ever takes the value it already had or `false`: it
   * starts `false`, so it is never set, the "Watermarks removed" badge never
   * shows, and every extraction reports `watermarkRemoved` as `false`.
   */
  lemma NeverDetected(
    cleaned: string, processing: Processing, parsedYear: Option<int>, currentYear: nat, failed: bool)
    ensures !CoverFor(cleaned, processing, false).hasWatermarks
    ensures !Extraction(cleaned, processing, false, parsedYear, currentYear, failed).watermarkRemoved
  {
  }

  /**
   * A form filled in by a successful extraction of a PDF with a non-empty
   * cleaned name can be sent at once; the author is sent only when there is one.
   */
  lemma ExtractedFormValid(
    cleaned: string, fileName: string, processing: Processing, watermarkDetected: bool,
    parsedYear: Option<int>, currentYear: nat, failed: bool)
    requires failed || cleaned != "" || Usable(EntryTitle(CoverFor(cleaned, processing, watermarkDetected).metadata))
    ensures var e := Extraction(cleaned, processing, watermarkDetected, parsedYear, currentYear, failed);
      FormValid(FormData(e.title, e.author, e.category, e.description, e.cover, "uploads/" + fileName, e.publishYear))
  {
    ExtractionFields(cleaned, processing, watermarkDetected, parsedYear, currentYear, failed);
  }
}
