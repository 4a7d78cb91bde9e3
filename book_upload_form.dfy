/**
 * The plain upload page: the title it derives from a PDF's file name, what a
 * chosen PDF fills into the form, when the form may be sent, and the guards,
 * alerts and status of its submission.
 */
module BookUploadForm {

  import opened Wrappers
  import opened Strings
  import PdfUpload

  // ---------------------------------------------------------------------------
  // The title from the file name

  /** `name.replace('.pdf', '')`: the first `.pdf`, in lower case only, wherever it stands. */
  function StripFirstPdf(name: string): string {
    ReplaceFirstString(name, ".pdf", "")
  }

  /** `s.charAt(0).toUpperCase() + s.slice(1)`: only the first character changes. */
  function UpperFirst(s: string): (r: string)
    ensures |r| == |s| && (s != [] ==> r[0] == Upper(s[0]))
    ensures forall k :: 0 < k < |s| ==> r[k] == s[k]
  {
    if s == [] then [] else [Upper(s[0])] + s[1..]
  }

  /** The title `extractPDFData` derives: `.pdf` cut, dashes and underscores turned into spaces, first letter raised. */
  function TitleFromName(name: string): string {
    UpperFirst(ReplaceChars(StripFirstPdf(name), {'-', '_'}, ' '))
  }

  /**
   * A name without `.pdf` is kept whole; otherwise exactly its first `.pdf` is
   * cut out, whether or not it ends the name, and nothing else changes.
   */
  lemma StripFirstPdfExactly(name: string)
    ensures !Contains(name, ".pdf") ==> StripFirstPdf(name) == name
    ensures Contains(name, ".pdf") ==>
      exists i :: 0 <= i <= |StripFirstPdf(name)|
        && name == StripFirstPdf(name)[..i] + ".pdf" + StripFirstPdf(name)[i..]
        && !Contains(name[..i + 3], ".pdf")
  {
    var r := IndexOfString(name, ".pdf");
    if r.Some? {
      var i := r.value;
      var s := StripFirstPdf(name);
      assert s == name[..i] + name[i + 4..];
      assert s[..i] == name[..i] && s[i..] == name[i + 4..];
      assert name == name[..i] + ".pdf" + name[i + 4..];
      NoEarlierPdf(name, i);
    }
  }

  /** Before the first occurrence of `.pdf`, and up to its last three letters, there is none. */
  lemma NoEarlierPdf(name: string, i: nat)
    requires IndexOfString(name, ".pdf") == Some(i)
    ensures !Contains(name[..i + 3], ".pdf")
  {
    var prefix := name[..i + 3];
    forall j | 0 <= j <= |prefix|
      ensures !StartsWith(prefix[j..], ".pdf")
    {
      if j + 4 <= |prefix| {
        assert prefix[j..][..4] == name[j..][..4];
      }
    }
    NotContains(prefix, ".pdf");
  }

  /** A string that `t` starts at no position of does not contain `t`. */
  lemma {:induction false} NotContains(s: string, t: string)
    requires forall j :: 0 <= j <= |s| ==> !StartsWith(s[j..], t)
    ensures !Contains(s, t)
    decreases |s|
  {
    assert s[0..] == s;
    if s != [] {
      forall j | 0 <= j <= |s[1..]|
        ensures !StartsWith(s[1..][j..], t)
      {
        assert s[1..][j..] == s[j + 1..];
      }
      NotContains(s[1..], t);
    }
  }

  /** Cutting `.pdf` shortens the name by four exactly when it holds one. */
  lemma StripFirstPdfLength(name: string)
    ensures |StripFirstPdf(name)| == if Contains(name, ".pdf") then |name| - 4 else |name|
  {
  }

  /**
   * The title is as long as the name once `.pdf` is cut; only its first
   * character may change case; every other character is the name's own, case
   * kept, but for dashes and underscores, which become spaces.
   */
  lemma TitleFromNameExactly(name: string)
    ensures var s, t := StripFirstPdf(name), TitleFromName(name);
      && |t| == |s|
      && (s != [] ==> t[0] == Upper(if s[0] in {'-', '_'} then ' ' else s[0]))
      && (forall k :: 0 < k < |s| ==> t[k] == (if s[k] in {'-', '_'} then ' ' else s[k]))
  {
  }

  /** The title holds no dash and no underscore. */
  lemma TitleHasNoDash(name: string)
    ensures '-' !in TitleFromName(name) && '_' !in TitleFromName(name)
  {
    var s := ReplaceChars(StripFirstPdf(name), {'-', '_'}, ' ');
    assert forall k :: 0 <= k < |s| ==> s[k] != '-' && s[k] != '_';
  }

  /** The extension is cut only in lower case: an upper-case one is kept. */
  lemma TitleKeepsUpperExtension()
    ensures TitleFromName("b.PDF") == "B.PDF"
  {
    var s := "b.PDF";
    forall j | 0 <= j <= |s|
      ensures !StartsWith(s[j..], ".pdf")
    {
      if j == 0 {
        assert s[j..][0] == 'b';
      } else if j == 1 {
        assert s[j..][1] == 'P';
      }
    }
    NotContains(s, ".pdf");
    assert ReplaceChars(s, {'-', '_'}, ' ') == s;
  }

  /** The first `.pdf` is cut even when it does not end the name. */
  lemma TitleCutsInnerExtension()
    ensures TitleFromName("a.pdf.b") == "A.b"
  {
    var s := "a.pdf.b";
    assert s[0] == 'a';
    assert !StartsWith(s, ".pdf");
    assert s[1..][..4] == ".pdf";
    assert IndexOfString(s, ".pdf") == Some(1);
    assert StripFirstPdf(s) == "a.b";
    assert ReplaceChars("a.b", {'-', '_'}, ' ') == "a.b";
  }

  // ---------------------------------------------------------------------------
  // extractPDFData

  /** The form's cover: an image URL (the rendered first page, or one typed in), or `generateCoverImage(title)`. */
  datatype Cover = ImageUrl(url: string) | GeneratedCover(title: string)

  /** The author the extraction always fills in. */
  const UnknownAuthor: string := "Unknown Author"

  /** What the extraction puts into the form. */
  datatype Extracted = Extracted(
    title: string, author: string, category: string, description: string, cover: Cover, publishYear: string)

  /**
   * `extractPDFData(file)`. The page image `extractCoverFromPDF` renders (`None`
   * when it gives up), the clock's year and whether the outer `try` fails are
   * parameters.
   */
  function Extraction(name: string, pageImage: Option<string>, currentYear: nat, failed: bool): Extracted
  {
    if failed then
      var stem := StripFirstPdf(name);
      var title := if stem != "" then stem else "Untitled Book";
      Extracted(title, UnknownAuthor, "Non-Fiction", "Please add a description for this book.",
                GeneratedCover(title), DecimalString(currentYear))
    else
      var title := TitleFromName(name);
      var cover := if pageImage.Some? && pageImage.value != "" then ImageUrl(pageImage.value) else GeneratedCover(title);
      Extracted(title, UnknownAuthor, "Non-Fiction", "This is \"" + title + "\"" + PdfUpload.PlainClosing,
                cover, DecimalString(currentYear))
  }

  /**
   * Whatever the PDF holds, the author is `Unknown Author` and the category
   * Non-Fiction. On success the title is the one derived from the name, the
   * description quotes it, and the cover is the rendered page or else one drawn
   * for the title. After a failure the title is the name with `.pdf` cut, not
   * capitalised, or `Untitled Book`, never empty, with a drawn cover.
   */
  lemma ExtractionFields(name: string, pageImage: Option<string>, currentYear: nat, failed: bool)
    ensures var e := Extraction(name, pageImage, currentYear, failed);
      && e.author == UnknownAuthor && e.category == "Non-Fiction"
      && (!failed ==> e.title == TitleFromName(name))
      && (!failed ==> StartsWith(e.description, "This is \"" + e.title + "\"") && EndsWith(e.description, PdfUpload.PlainClosing))
      && (e.cover.GeneratedCover? <==> failed || pageImage.None? || pageImage.value == "")
      && (e.cover.GeneratedCover? ==> e.cover.title == e.title)
      && (failed ==> e.title != "" && (StripFirstPdf(name) != "" ==> e.title == StripFirstPdf(name)))
      && (e.title == "" <==> !failed && StripFirstPdf(name) == "")
  {
    var e := Extraction(name, pageImage, currentYear, failed);
    if !failed {
      var q := "This is \"" + e.title + "\"";
      assert e.description == q + PdfUpload.PlainClosing;
      assert e.description[..|q|] == q;
      assert e.description[|e.description| - |PdfUpload.PlainClosing|..] == PdfUpload.PlainClosing;
    }
  }

  // ---------------------------------------------------------------------------
  // The page's state

  /** The form's fields that the page fills in and sends. */
  datatype FormData = FormData(
    title: string, author: string, category: string, description: string, coverImage: Cover,
    pdfFile: string, publishYear: string)

  const EmptyForm: FormData := FormData("", "", "", "", ImageUrl(""), "", "")

  /** `isFormValid`: a title, an author, a category, a description and a PDF. */
  predicate FormValid(f: FormData) {
    f.title != "" && f.author != "" && f.category != "" && f.description != "" && f.pdfFile != ""
  }

  /** The form after a PDF is chosen: the extraction's fields, and the file's blob URL as the PDF. */
  function Merged(form: FormData, e: Extracted, blobUrl: string): (f: FormData) {
    FormData(e.title, e.author, e.category, e.description, e.cover, blobUrl, e.publishYear)
  }

  /**
   * A chosen PDF makes the form ready to send unless the extraction succeeded
   * on a name that is nothing but `.pdf`, which leaves the title empty.
   */
  lemma ExtractedFormValid(form: FormData, name: string, pageImage: Option<string>, currentYear: nat, failed: bool, blobUrl: string)
    requires blobUrl != ""
    ensures FormValid(Merged(form, Extraction(name, pageImage, currentYear, failed), blobUrl))
      <==> failed || StripFirstPdf(name) != ""
  {
    ExtractionFields(name, pageImage, currentYear, failed);
  }

  /**
   * How the upload request ends. `Dropped` stands for every path into the
   * outer `catch`: a request that never gets a response, and also a refusal
   * whose body is the JSON literal `null`. `JSON.parse` then gives `null`,
   * reading `error.message` throws, and the page shows the generic failure
   * alert and keeps the stored session, even for a 401.
   */
  datatype UploadResponse =
    | Uploaded(bookTitle: string)
    | Failed(status: nat, statusText: string, body: ErrorBody)
    | Dropped

  /**
   * The body of a refusal: JSON other than `null`, with or without a
   * `message`; other text; nothing; or unreadable.
   */
  datatype ErrorBody = Json(message: Option<string>) | Plain(text: string) | Empty | Unreadable

  /** `error.message` as the page builds it from a refusal's body. */
  function ErrorMessage(status: nat, statusText: string, body: ErrorBody): Option<string> {
    match body
    case Json(m) => m
    case Plain(text) => Some(if text != "" then text else "Unknown error occurred")
    case Empty => Some("Server error: " + DecimalString(status) + " " + statusText)
    case Unreadable => Some("Network error: " + DecimalString(status) + " " + statusText)
  }

  /** `error.message || fallback`. */
  function OrElse(m: Option<string>, fallback: string): string {
    if m.Some? && m.value != "" then m.value else fallback
  }

  /** The alert for a refusal, by status: 401, 400, 500, or any other. */
  function RefusalAlert(status: nat, message: Option<string>): string {
    if status == 401 then "Authentication Error: " + OrElse(message, "Invalid token") + ". Please log in again."
    else if status == 400 then "Validation Error: " + OrElse(message, "Invalid book data")
    else if status == 500 then "Server Error: " + OrElse(message, "Internal server error")
    else "Error (" + DecimalString(status) + "): " + OrElse(message, "Unknown error occurred")
  }

  /** The multipart body of `POST /api/books/upload`, and the bearer token it is sent with. */
  datatype UploadRequest = UploadRequest(
    token: string, title: string, author: string, description: string, category: string, coverImage: Cover, pdfFile: string)

  /** `submitStatus`. */
  datatype Status = Idle | Loading | Success | Failure

  /** Which alert `handleSubmit` shows. */
  datatype Notice =
    | LogInAgain
    | SelectPdf
    | CannotConnect
    | UploadedBook(bookTitle: string)
    | Refusal(status: nat, message: Option<string>)
    | UploadFailed

  /** The alert's text. */
  function NoticeText(n: Notice): string {
    match n
    case LogInAgain => "Please log in again"
    case SelectPdf => "Please select a PDF file"
    case CannotConnect => "Cannot connect to server. Please make sure the backend is running on http://localhost:5000"
    case UploadedBook(bookTitle) => "Book \"" + bookTitle + "\" uploaded successfully! You can now view it in your dashboard."
    case Refusal(status, message) => RefusalAlert(status, message)
    case UploadFailed => "Failed to upload book. Please try again."
  }

  /** What `handleSubmit` ends with: the request sent, the alert shown, the status, and whether the session is cleared. */
  datatype Outcome = Outcome(sent: Option<UploadRequest>, notice: Notice, status: Status, signOut: bool)

  /**
   * `handleSubmit()`, given the stored token, the chosen PDF's name, the form,
   * whether the connectivity test `GET /api/books` gets an answer, and how the
   * upload ends.
   */
  function Submission(
    token: Option<string>, pdfFile: Option<string>, form: FormData, reachable: bool, response: UploadResponse): Outcome
  {
    if token.None? || token.value == "" then Outcome(None, LogInAgain, Failure, false)
    else if pdfFile.None? then Outcome(None, SelectPdf, Failure, false)
    else if !reachable then Outcome(None, CannotConnect, Failure, false)
    else
      var sent := Some(UploadRequest(token.value, form.title, form.author, form.description, form.category,
                                     form.coverImage, pdfFile.value));
      match response
      case Uploaded(bookTitle) => Outcome(sent, UploadedBook(bookTitle), Success, false)
      case Failed(status, statusText, body) =>
        Outcome(sent, Refusal(status, ErrorMessage(status, statusText, body)), Failure, status == 401)
      case Dropped => Outcome(sent, UploadFailed, Failure, false)
  }

  /**
   * The upload is sent exactly when a token is stored, a PDF is chosen and the
   * server answers the connectivity test, and it carries the form's fields and
   * the chosen file. Only an accepted upload ends in success; every other end
   * is a failure. The session is cleared exactly when the server refuses the
   * upload with status 401.
   */
  lemma SubmissionExactly(
    token: Option<string>, pdfFile: Option<string>, form: FormData, reachable: bool, response: UploadResponse)
    ensures var o := Submission(token, pdfFile, form, reachable, response);
      && (o.sent.Some? <==> token.Some? && token.value != "" && pdfFile.Some? && reachable)
      && (o.sent.Some? ==> o.sent.value == UploadRequest(token.value, form.title, form.author, form.description,
                                                         form.category, form.coverImage, pdfFile.value))
    ensures var o := Submission(token, pdfFile, form, reachable, response);
      && (o.status == Success <==> o.sent.Some? && response.Uploaded?)
      && o.status != Idle && o.status != Loading
      && (o.signOut <==> o.sent.Some? && response.Failed? && response.status == 401)
    ensures var o := Submission(token, pdfFile, form, reachable, response);
      && (token.None? || token.value == "" ==> o.notice == LogInAgain)
      && (o.sent.Some? && response.Failed? ==> o.notice.Refusal? && o.notice.status == response.status)
  {
  }

  /** The 401 alert asks to log in again, with the server's message or `Invalid token`. */
  lemma SignOutAlert(status: nat, message: Option<string>)
    requires status == 401
    ensures StartsWith(RefusalAlert(status, message), "Authentication Error: ")
    ensures EndsWith(RefusalAlert(status, message), ". Please log in again.")
  {
    var m := OrElse(message, "Invalid token");
    var a, head, tail := RefusalAlert(status, message), "Authentication Error: ", ". Please log in again.";
    assert a == head + m + tail;
    assert a[..|head|] == head;
    assert a[|a| - |tail|..] == tail;
  }

  /** A refusal's alert always names some message: the server's, or the fallback for its status. */
  lemma RefusalMessage(status: nat, statusText: string, body: ErrorBody)
    ensures var m := OrElse(ErrorMessage(status, statusText, body), "Unknown error occurred");
      && m != ""
      && (body.Json? && (body.message.None? || body.message.value == "") ==> m == "Unknown error occurred")
      && (body.Empty? ==> StartsWith(m, "Server error: "))
  {
  }

  class UploadPage {
    var form: FormData
    var pdfFile: Option<string>
    var status: Status
    var uploading: bool
    /** The `token` and `user` entries of the browser's storage. */
    var token: Option<string>
    var user: Option<string>

    /** The page as first drawn, over what the browser has stored. */
    constructor (token: Option<string>, user: Option<string>)
      ensures form == EmptyForm && pdfFile == None && status == Idle && !uploading
      ensures this.token == token && this.user == user
    {
      form := EmptyForm;
      pdfFile := None;
      status := Idle;
      uploading := false;
      this.token := token;
      this.user := user;
    }

    /**
     * `handleFileChange(e)` and `handleDrop(e)`: a PDF is kept and the
     * extraction's fields merged into the form, with the file's blob URL as its
     * PDF. Any other file is ignored.
     */
    method ChooseFile(
      name: string, mimeType: string, blobUrl: string, pageImage: Option<string>, currentYear: nat, failed: bool)
      modifies this
      ensures mimeType == "application/pdf" ==>
        pdfFile == Some(name) && form == Merged(old(form), Extraction(name, pageImage, currentYear, failed), blobUrl)
      ensures mimeType != "application/pdf" ==> pdfFile == old(pdfFile) && form == old(form)
      ensures status == old(status) && uploading == old(uploading) && token == old(token) && user == old(user)
    {
      if mimeType == "application/pdf" {
        pdfFile := Some(name);
        form := form.(pdfFile := blobUrl);
        var e := Extraction(name, pageImage, currentYear, failed);
        form := Merged(form, e, blobUrl);
      }
    }

    /**
     * `handleSubmit()`: what is sent and shown, and the state it leaves; a 401
     * removes the stored token and user. The form and the chosen file stay.
     */
    method Submit(reachable: bool, response: UploadResponse) returns (sent: Option<UploadRequest>, alert: string)
      modifies this
      ensures var o := Submission(old(token), old(pdfFile), old(form), reachable, response);
        && sent == o.sent && alert == NoticeText(o.notice) && status == o.status
        && (o.signOut ==> token == None && user == None)
        && (!o.signOut ==> token == old(token) && user == old(user))
      ensures !uploading && form == old(form) && pdfFile == old(pdfFile)
    {
      uploading := true;
      status := Loading;
      var o := Submission(token, pdfFile, form, reachable, response);
      sent, alert, status := o.sent, NoticeText(o.notice), o.status;
      if o.signOut {
        token := None;
        user := None;
      }
      uploading := false;
    }
  }
}
