/**
 * The book records the library pages show, and the string logic the home page,
 * the book list and the dashboard share: turning a stored PDF path into a URL
 * the browser can open, and the file name and saved name of a download.
 */
module Books {

  import opened Wrappers
  import opened Strings

  /** A book's `_id`: a database key, or one of the numbers of the home page's fallback books. */
  datatype Id = Num(n: int) | Key(key: string)

  /** A book as the API returns it; a property the record lacks is `None`. */
  datatype Book = Book(
    id: Id, title: string, author: Option<string>, description: Option<string>, category: Option<string>,
    coverImage: Option<string>, pdfFile: Option<string>, available: Option<bool>, published: Option<bool>)

  /** A string property is truthy: present and not empty. */
  predicate Truthy(p: Option<string>) {
    p.Some? && p.value != ""
  }

  /** The back end the pages talk to. */
  const Server: string := "http://localhost:5000"

  /** The path is already a URL: it starts with `http` or `blob:`. */
  predicate IsUrl(path: string) {
    StartsWith(path, "http") || StartsWith(path, "blob:")
  }

  /** The PDF URL of the read and download handlers: a bare path is put under the server. */
  function PdfUrl(path: string): (url: string)
  {
    if !StartsWith(path, "http") && !StartsWith(path, "blob:") then Server + "/" + path else path
  }

  /** A URL passes unchanged, a path gets the server prefix, and the result is always a URL, so normalising twice changes nothing. */
  lemma PdfUrlExactly(path: string)
    ensures IsUrl(path) ==> PdfUrl(path) == path
    ensures !IsUrl(path) ==> PdfUrl(path) == "http://localhost:5000/" + path
    ensures IsUrl(PdfUrl(path)) && PdfUrl(PdfUrl(path)) == PdfUrl(path)
  {
    if !IsUrl(path) {
      assert (Server + "/" + path)[..4] == "http";
    }
  }

  /** The last piece of a split is the end of the string from some `j` on: right after a separator, or from 0 when there is one piece. */
  lemma {:induction false} SplitLast(s: string, sep: char) returns (j: nat)
    ensures j <= |s| && Split(s, sep)[|Split(s, sep)| - 1] == s[j..]
    ensures j == 0 <==> |Split(s, sep)| == 1
    ensures j > 0 ==> s[j - 1] == sep
    decreases |s|
  {
    match IndexOf(s, sep)
    case None =>
      j := 0;
    case Some(i) =>
      var rest := s[i + 1..];
      var k := SplitLast(rest, sep);
      var parts := Split(rest, sep);
      assert Split(s, sep) == [s[..i]] + parts;
      j := i + 1 + k;
      assert rest[k..] == s[j..];
      if k > 0 {
        assert s[j - 1] == rest[k - 1];
      }
  }

  /** `pdfFile.includes('/') ? pdfFile.split('/').pop() : pdfFile`. */
  function DownloadFilename(pdfFile: string): string {
    if '/' in pdfFile then var parts := Split(pdfFile, '/'); parts[|parts| - 1] else pdfFile
  }

  /** The file name is the end of the path after its last '/', or the whole path when there is none. */
  lemma DownloadFilenameExactly(pdfFile: string)
    ensures var name := DownloadFilename(pdfFile);
      && '/' !in name
      && EndsWith(pdfFile, name)
      && ('/' !in pdfFile <==> name == pdfFile)
      && ('/' in pdfFile ==> pdfFile[|pdfFile| - |name| - 1] == '/')
  {
    var parts := Split(pdfFile, '/');
    var j := SplitLast(pdfFile, '/');
    if '/' in pdfFile {
      assert |parts| > 1 by {
        assert '/' !in parts[|parts| - 1];
      }
      assert pdfFile[|pdfFile| - |parts[|parts| - 1]| - 1] == pdfFile[j - 1];
    } else {
      SplitNone(pdfFile, '/');
    }
  }

  /** `http://localhost:5000/download/<filename>`. */
  function DownloadUrl(filename: string): string {
    Server + "/download/" + filename
  }

  /** The saved name on the book list and the dashboard: `title - author.pdf`, or `title.pdf` without an author. */
  function DownloadName(book: Book): string {
    if Truthy(book.author) then book.title + " - " + book.author.value + ".pdf" else book.title + ".pdf"
  }

  /** How a template literal shows an optional string: a missing one reads `undefined`. */
  function Shown(p: Option<string>): (s: string)
    ensures p.Some? ==> s == p.value
  {
    match p
    case Some(v) => v
    case None => "undefined"
  }

  /** The saved name on the home page: always `title - author.pdf`. */
  function HomeDownloadName(book: Book): string {
    book.title + " - " + Shown(book.author) + ".pdf"
  }

  /**
   * Both names end in `.pdf` and start with the title; they agree exactly when the
   * book has an author, and without one the home page writes `undefined` or an
   * empty author into the name.
   */
  lemma DownloadNames(book: Book)
    ensures EndsWith(DownloadName(book), ".pdf") && EndsWith(HomeDownloadName(book), ".pdf")
    ensures StartsWith(DownloadName(book), book.title) && StartsWith(HomeDownloadName(book), book.title)
    ensures Truthy(book.author) <==> DownloadName(book) == HomeDownloadName(book)
    ensures book.author.None? ==> HomeDownloadName(book) == book.title + " - undefined.pdf"
  {
    var d, h := DownloadName(book), HomeDownloadName(book);
    assert d[|d| - 4..] == ".pdf";
    assert h[|h| - 4..] == ".pdf";
    assert d[..|book.title|] == book.title;
    assert h[..|book.title|] == book.title;
    if !Truthy(book.author) {
      assert |h| > |d|;
    }
  }

  /** What a click on Read or Download ends in, the I/O around it left out. */
  datatype Action =
    | Alert(message: string)            // an `alert` and nothing else
    | Redirect(path: string)            // an `alert`, then the router goes to `path`
    | OpenReader(book: Book)            // the reader opens on `book`
    | Download(url: string, name: string)  // a link to `url` is clicked, saving as `name`

  /** The book the reader opens: the same record with its PDF path normalised. */
  function WithPdfUrl(book: Book): (r: Book)
    requires book.pdfFile.Some?
    ensures r.pdfFile == Some(PdfUrl(book.pdfFile.value))
    ensures r.(pdfFile := book.pdfFile) == book
  {
    book.(pdfFile := Some(PdfUrl(book.pdfFile.value)))
  }
}
