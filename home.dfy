/**
 * The public home page: the book list it falls back to when the catalogue
 * cannot be fetched, its search filter, and its Read and Download buttons,
 * which send a visitor without an account to the sign-in page.
 */
module Home {

  import opened Wrappers
  import opened Strings
  import opened Books
  import BookDetails

  /** The three books shown when the catalogue request fails or is refused. */
  const FallbackBooks: seq<Book> := [
    Book(Num(1), "The Great Gatsby", Some("F. Scott Fitzgerald"), Some("A classic American novel"), None,
         Some("https://images.unsplash.com/photo-1544716278-ca5e3f4abd8c?w=300&h=400&fit=crop"), None, None, None),
    Book(Num(2), "To Kill a Mockingbird", Some("Harper Lee"), Some("A gripping tale of racial injustice"), None,
         Some("https://images.unsplash.com/photo-1481627834876-b7833e8f5570?w=300&h=400&fit=crop"), None, None, None),
    Book(Num(3), "1984", Some("George Orwell"), Some("A dystopian social science fiction novel"), None,
         Some("https://images.unsplash.com/photo-1512820790803-83ca734da794?w=300&h=400&fit=crop"), None, None, None)
  ]

  /** How `GET /api/books` ends: the list, a status that is not ok, or a failure to connect. */
  datatype Catalogue = Listed(books: seq<Book>) | NotOk | Unreachable

  /** `fetchBooks`: the books the page shows afterwards. */
  function FetchBooks(response: Catalogue): (books: seq<Book>)
  {
    if response.Listed? then response.books else FallbackBooks
  }

  /**
   * The page shows what the server lists, and otherwise the same three fallback
   * books whatever went wrong; none of those has a PDF, so on them Read and
   * Download can only alert.
   */
  lemma FetchBooksExactly(response: Catalogue)
    ensures response.Listed? ==> FetchBooks(response) == response.books
    ensures !response.Listed? ==> FetchBooks(response) == FallbackBooks
    ensures |FallbackBooks| == 3
    ensures forall b :: b in FallbackBooks ==> Truthy(b.author) && !Truthy(b.pdfFile)
  {
  }

  /** The home filter's test on one book; reading a missing author throws a `TypeError`. */
  function HomeMatches(book: Book, term: string): Result<bool, string>
  {
    if Contains(LowerString(book.title), LowerString(term)) then Ok(true)
    else if book.author.None? then Err("TypeError")
    else Ok(Contains(LowerString(book.author.value), LowerString(term)))
  }

  /** `books.filter(...)` on the home page: the first test that throws ends the render. */
  function HomeFiltered(books: seq<Book>, term: string): Result<seq<Book>, string>
  {
    if books == [] then Ok([])
    else match HomeMatches(books[0], term)
      case Err(e) => Err(e)
      case Ok(keep) =>
        match HomeFiltered(books[1..], term)
        case Err(e) => Err(e)
        case Ok(rest) => Ok((if keep then [books[0]] else []) + rest)
  }

  /** A book on which the home filter throws: its title does not match and it has no author. */
  predicate Throws(book: Book, term: string) {
    !Contains(LowerString(book.title), LowerString(term)) && book.author.None?
  }

  /**
   * The home filter throws exactly when some book has no author and a title
   * that does not match; otherwise it keeps the same books as the book list's
   * filter, which treats a missing author as no match.
   */
  lemma {:induction false} HomeFilteredExactly(books: seq<Book>, term: string)
    ensures HomeFiltered(books, term).Err? <==> exists b :: b in books && Throws(b, term)
    ensures HomeFiltered(books, term).Ok? ==> HomeFiltered(books, term).value == BookDetails.Filtered(books, term)
    decreases |books|
  {
    if books != [] {
      var b, rest := books[0], books[1..];
      HomeFilteredExactly(rest, term);
      assert books == [b] + rest;
      assert forall x :: x in books <==> x == b || x in rest;
      if HomeMatches(b, term).Ok? {
        if b.author.Some? && b.author.value == "" {
          ContainsEmptyOnly(LowerString(term));
          if LowerString(term) == "" {
            BookDetails.ContainsEmpty(LowerString(b.title));
          }
        }
        assert HomeMatches(b, term).value == BookDetails.Matches(b, term);
      } else {
        assert Throws(b, term);
      }
    }
  }

  /** The empty string contains only the empty string. */
  lemma ContainsEmptyOnly(t: string)
    ensures Contains("", t) <==> t == ""
  {
  }

  /** On the fallback list, which has every author, the home filter never throws. */
  lemma FallbackNeverThrows(term: string)
    ensures HomeFiltered(FallbackBooks, term).Ok?
  {
    HomeFilteredExactly(FallbackBooks, term);
  }

  /** What a click does: whether the read is recorded with `POST /books/:id/read`, and what the visitor sees. */
  datatype Click = Click(tracked: bool, action: Action)

  /** `handleReadBook(book)` on the home page. */
  function ReadBook(signedIn: bool, hasToken: bool, book: Book): (c: Click)
  {
    if !signedIn then Click(false, Redirect("/auth"))
    else if Truthy(book.pdfFile) then Click(hasToken, OpenReader(WithPdfUrl(book)))
    else Click(false, Alert("PDF file not available for this book. Please contact support or try another book."))
  }

  /** `handleDownloadBook(book)` on the home page: the link goes straight to the PDF's URL. */
  function DownloadBook(signedIn: bool, hasToken: bool, book: Book): (c: Click)
  {
    if !signedIn then Click(false, Redirect("/auth"))
    else if !Truthy(book.pdfFile) then Click(false, Alert("PDF file not available for download"))
    else Click(hasToken, Download(PdfUrl(book.pdfFile.value), HomeDownloadName(book)))
  }

  /**
   * A visitor without an account is sent to `/auth` and nothing is recorded; a
   * read is recorded only for a signed-in user with a token and a book with a
   * PDF. Reading opens the same book as the book list does; the download link is
   * the PDF's own URL, not the server's download route, and its name always has
   * an author part.
   */
  lemma HomeClicks(signedIn: bool, hasToken: bool, book: Book)
    ensures !signedIn ==>
      && ReadBook(signedIn, hasToken, book) == Click(false, Redirect("/auth"))
      && DownloadBook(signedIn, hasToken, book) == Click(false, Redirect("/auth"))
    ensures ReadBook(signedIn, hasToken, book).tracked <==> signedIn && hasToken && Truthy(book.pdfFile)
    ensures DownloadBook(signedIn, hasToken, book).tracked <==> signedIn && hasToken && Truthy(book.pdfFile)
    ensures signedIn && Truthy(book.pdfFile) ==>
      && ReadBook(signedIn, hasToken, book).action == BookDetails.ReadBook(true, book)
      && DownloadBook(signedIn, hasToken, book).action.url == PdfUrl(book.pdfFile.value)
      && IsUrl(DownloadBook(signedIn, hasToken, book).action.url)
      && EndsWith(DownloadBook(signedIn, hasToken, book).action.name, ".pdf")
  {
    if signedIn && Truthy(book.pdfFile) {
      PdfUrlExactly(book.pdfFile.value);
      DownloadNames(book);
    }
  }
}
