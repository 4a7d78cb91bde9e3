/**
 * The book list page: its search filter, the per-book review drafts and the
 * submission of a review, the star rating, and what the Read and Download
 * buttons do.
 */
module BookDetails {

  import opened Wrappers
  import opened Strings
  import opened Books

  // ---------------------------------------------------------------------------
  // filteredBooks

  /** The search test: the title, or a truthy author, contains the term, ignoring case. */
  predicate Matches(book: Book, term: string) {
    || Contains(LowerString(book.title), LowerString(term))
    || (Truthy(book.author) && Contains(LowerString(book.author.value), LowerString(term)))
  }

  /** `books.filter(...)` with that test. */
  function Filtered(books: seq<Book>, term: string): seq<Book>
  {
    if books == [] then []
    else (if Matches(books[0], term) then [books[0]] else []) + Filtered(books[1..], term)
  }

  /** Every string contains the empty one. */
  lemma ContainsEmpty(s: string)
    ensures Contains(s, "")
  {
  }

  /**
   * The filter keeps exactly the matching books, in their order, and never more
   * books than there are; the empty term keeps them all.
   */
  lemma {:induction false} FilteredExactly(books: seq<Book>, term: string)
    ensures forall b :: b in Filtered(books, term) <==> b in books && Matches(b, term)
    ensures |Filtered(books, term)| <= |books|
    ensures term == "" ==> Filtered(books, term) == books
    decreases |books|
  {
    if books != [] {
      FilteredExactly(books[1..], term);
      assert books == [books[0]] + books[1..];
      if term == "" {
        ContainsEmpty(LowerString(books[0].title));
      }
    }
  }

  /** Books on the list keep their relative order: the filter of a longer list extends the filter of its prefix. */
  lemma {:induction false} FilteredAppend(books: seq<Book>, more: seq<Book>, term: string)
    ensures Filtered(books + more, term) == Filtered(books, term) + Filtered(more, term)
    decreases |books|
  {
    if books != [] {
      assert (books + more)[1..] == books[1..] + more;
      FilteredAppend(books[1..], more, term);
    } else {
      assert books + more == more;
    }
  }

  // ---------------------------------------------------------------------------
  // Review drafts: handleReviewChange, handleRating

  /** A review being written: the properties set so far (`newReviews[bookId]`). */
  datatype Draft = Draft(rating: Option<int>, comment: Option<string>)

  /** `prev[bookId]`, where a missing entry spreads as `{}`. */
  function DraftOf(drafts: map<Id, Draft>, id: Id): Draft {
    if id in drafts then drafts[id] else Draft(None, None)
  }

  /** `handleReviewChange(bookId, 'comment', value)`, the comment box's update. */
  function ReviewChange(drafts: map<Id, Draft>, bookId: Id, value: string): map<Id, Draft> {
    drafts[bookId := DraftOf(drafts, bookId).(comment := Some(value))]
  }

  /** `handleRating(bookId, rating)`, the update of a click on a star. */
  function Rating(drafts: map<Id, Draft>, bookId: Id, rating: int): map<Id, Draft> {
    drafts[bookId := DraftOf(drafts, bookId).(rating := Some(rating))]
  }

  /**
   * Both updates touch the given book's draft only, and in it the one property
   * they set: the other books' drafts and the other property stay as they were.
   */
  lemma DraftUpdatesLocal(drafts: map<Id, Draft>, bookId: Id, other: Id, comment: string, rating: int)
    requires other != bookId
    ensures var c := ReviewChange(drafts, bookId, comment);
      && c.Keys == drafts.Keys + {bookId}
      && DraftOf(c, bookId) == Draft(DraftOf(drafts, bookId).rating, Some(comment))
      && DraftOf(c, other) == DraftOf(drafts, other)
    ensures var r := Rating(drafts, bookId, rating);
      && r.Keys == drafts.Keys + {bookId}
      && DraftOf(r, bookId) == Draft(Some(rating), DraftOf(drafts, bookId).comment)
      && DraftOf(r, other) == DraftOf(drafts, other)
  {
  }

  // ---------------------------------------------------------------------------
  // handleReviewSubmit

  /** A review as the page lists it. */
  datatype Review = Review(id: string, avatar: string, name: string, rating: int, comment: string, date: string, createdAt: string)

  /** The signed-in user, as stored. */
  datatype User = User(name: Option<string>, avatar: Option<string>)

  /** The body of `POST /api/reviews`. */
  datatype ReviewRequest = ReviewRequest(book: Id, rating: int, comment: string)

  /** How the request ends: created with the new review's id, refused with a message, or not answered. */
  datatype ReviewResponse = Created(reviewId: string) | Refused(message: string) | Unreachable

  /** The clock and the random avatar the new review gets. */
  datatype Stamp = Stamp(today: string, now: string, randomAvatar: string)

  /** The draft is complete: both a truthy rating and a truthy comment. */
  predicate Complete(d: Draft) {
    d.rating.Some? && d.rating.value != 0 && Truthy(d.comment)
  }

  /** The page state a submission changes, the request it sends and the alert it shows. */
  datatype Submission = Submission(
    sent: Option<ReviewRequest>, reviews: map<Id, seq<Review>>, drafts: map<Id, Draft>, alert: string)

  /** The review shown right away: the user's avatar and name, or a random avatar and `You`. */
  function NewReview(id: string, user: User, d: Draft, stamp: Stamp): Review
    requires Complete(d)
  {
    Review(id, if Truthy(user.avatar) then user.avatar.value else stamp.randomAvatar,
           if Truthy(user.name) then user.name.value else "You",
           d.rating.value, d.comment.value, stamp.today, stamp.now)
  }

  /** `handleReviewSubmit(e, bookId)`, given the user, the token, and how the server answers. */
  function ReviewSubmit(
    user: Option<User>, token: Option<string>, reviews: map<Id, seq<Review>>, drafts: map<Id, Draft>,
    bookId: Id, response: ReviewResponse, stamp: Stamp): Submission
  {
    if user.None? then Submission(None, reviews, drafts, "Please log in to submit a review")
    else if bookId !in drafts || !Complete(drafts[bookId]) then
      Submission(None, reviews, drafts, "Please provide both rating and comment")
    else if token.None? || token.value == "" then Submission(None, reviews, drafts, "Please log in to submit a review")
    else
      var d := drafts[bookId];
      var request := Some(ReviewRequest(bookId, d.rating.value, d.comment.value));
      match response
      case Created(id) =>
        var listed := if bookId in reviews then reviews[bookId] else [];
        Submission(request, reviews[bookId := [NewReview(id, user.value, d, stamp)] + listed],
                   drafts[bookId := Draft(Some(0), Some(""))], "Review submitted successfully!")
      case Refused(message) => Submission(request, reviews, drafts, "Error: " + message)
      case Unreachable => Submission(request, reviews, drafts, "Failed to submit review")
  }

  /**
   * A review is sent exactly when a user is signed in, the book's draft has both
   * a rating and a comment, and a token is stored; it carries the draft's values.
   * Unless the server creates it, nothing on the page changes. Once created, it
   * comes first in that book's list, ahead of the reviews already shown, no other
   * book's list changes, and only that book's draft is reset.
   */
  lemma ReviewSubmitExactly(
    user: Option<User>, token: Option<string>, reviews: map<Id, seq<Review>>, drafts: map<Id, Draft>,
    bookId: Id, response: ReviewResponse, stamp: Stamp, other: Id)
    requires other != bookId
    ensures var s := ReviewSubmit(user, token, reviews, drafts, bookId, response, stamp);
      && (s.sent.Some? <==> user.Some? && bookId in drafts && Complete(drafts[bookId]) && Truthy(token))
      && (s.sent.Some? ==> s.sent.value == ReviewRequest(bookId, drafts[bookId].rating.value, drafts[bookId].comment.value))
      && (s.sent.None? || !response.Created? ==> s.reviews == reviews && s.drafts == drafts)
      && (s.sent.Some? && response.Created? ==>
           && s.reviews.Keys == reviews.Keys + {bookId}
           && |s.reviews[bookId]| >= 1
           && s.reviews[bookId][0].id == response.reviewId
           && s.reviews[bookId][0].rating == drafts[bookId].rating.value
           && s.reviews[bookId][0].comment == drafts[bookId].comment.value
           && s.reviews[bookId][1..] == (if bookId in reviews then reviews[bookId] else [])
           && (other in reviews ==> s.reviews[other] == reviews[other])
           && s.drafts[bookId] == Draft(Some(0), Some(""))
           && (other in drafts ==> s.drafts[other] == drafts[other]))
  {
  }

  // ---------------------------------------------------------------------------
  // renderStars

  /** Which of the five stars are filled: star `i` (1 to 5) exactly when `i <= rating`. */
  function Stars(rating: int): (filled: seq<bool>)
    ensures |filled| == 5
  {
    seq(5, k requires 0 <= k < 5 => k + 1 <= rating)
  }

  /** How many stars a rating fills: the rating itself, cut to 0 to 5. */
  function FilledCount(filled: seq<bool>): nat {
    if filled == [] then 0 else (if filled[0] then 1 else 0) + FilledCount(filled[1..])
  }

  /** The filled stars come first, and there are as many as the rating, kept between 0 and 5. */
  lemma StarsCount(rating: int)
    ensures forall i, j :: 0 <= i < j < 5 && Stars(rating)[j] ==> Stars(rating)[i]
    ensures FilledCount(Stars(rating)) == if rating < 0 then 0 else if rating > 5 then 5 else rating
  {
    var s := Stars(rating);
    var c := (k: nat) requires k < 5 => if s[k] then 1 else 0;
    assert FilledCount(s[4..]) == c(4) by { assert s[4..][1..] == []; }
    assert FilledCount(s[3..]) == c(3) + c(4) by { assert s[3..][1..] == s[4..]; }
    assert FilledCount(s[2..]) == c(2) + c(3) + c(4) by { assert s[2..][1..] == s[3..]; }
    assert FilledCount(s[1..]) == c(1) + c(2) + c(3) + c(4) by { assert s[1..][1..] == s[2..]; }
  }

  // ---------------------------------------------------------------------------
  // handleReadBook, handleDownloadBook

  /** `handleReadBook(book)`: signed-in users open the reader on the book with its PDF URL normalised. */
  function ReadBook(signedIn: bool, book: Book): (a: Action)
  {
    if !signedIn then Alert("Please log in to read books")
    else if Truthy(book.pdfFile) then OpenReader(WithPdfUrl(book))
    else Alert("PDF file not available for this book")
  }

  /** `handleDownloadBook(book)`: the download link goes to the file name under `/download/`. */
  function DownloadBook(signedIn: bool, book: Book): (a: Action)
  {
    if !signedIn then Alert("Please log in to download books")
    else if !Truthy(book.pdfFile) then Alert("PDF file not available for download")
    else Download(DownloadUrl(DownloadFilename(book.pdfFile.value)), DownloadName(book))
  }

  /**
   * Without a user nothing but an alert happens. With one and a PDF, the reader
   * gets the book unchanged but for a PDF URL that is always absolute, and the
   * download goes to the server's download route for the last piece of the path.
   */
  lemma ReadAndDownload(signedIn: bool, book: Book)
    ensures !signedIn ==> ReadBook(signedIn, book).Alert? && DownloadBook(signedIn, book).Alert?
    ensures signedIn && Truthy(book.pdfFile) ==>
      && ReadBook(signedIn, book) == OpenReader(book.(pdfFile := Some(PdfUrl(book.pdfFile.value))))
      && IsUrl(PdfUrl(book.pdfFile.value))
      && DownloadBook(signedIn, book).Download?
      && '/' !in DownloadFilename(book.pdfFile.value)
      && EndsWith(book.pdfFile.value, DownloadFilename(book.pdfFile.value))
    ensures signedIn && !Truthy(book.pdfFile) ==> ReadBook(signedIn, book).Alert? && DownloadBook(signedIn, book).Alert?
  {
    if signedIn && Truthy(book.pdfFile) {
      PdfUrlExactly(book.pdfFile.value);
      DownloadFilenameExactly(book.pdfFile.value);
    }
  }
}
