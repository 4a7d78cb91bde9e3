/**
 * The signed-in user's dashboard: which tabs it offers and opens on, the
 * avatar upload's checks, the local updates after a book or review is edited
 * or deleted, the edit form's initial values, and its Read and Download buttons.
 */
module UserDashboard {

  import opened Wrappers
  import opened Strings
  import opened Books
  import BookDetails

  // ---------------------------------------------------------------------------
  // Tabs

  datatype Tab = Uploaded | Reviews | Profile

  /** The stored user's role; `None` when no user is stored. */
  type Role = Option<string>

  predicate IsAdmin(role: Role) {
    role == Some("admin")
  }

  /** The tab after mounting: `uploaded` by default, then by role once a stored user is read. */
  function InitialTab(role: Role): (t: Tab)
  {
    if role.None? || IsAdmin(role) then Uploaded else Reviews
  }

  /** `getAvailableTabs()`: My Books for an administrator, My Reviews for anyone else, then Profile. */
  function AvailableTabs(role: Role): (tabs: seq<Tab>)
  {
    if IsAdmin(role) then [Uploaded, Profile] else [Reviews, Profile]
  }

  /** Whether the open tab's panel is drawn: the books for an administrator, the reviews for role `user`. */
  predicate PanelShown(tab: Tab, role: Role) {
    match tab
    case Uploaded => IsAdmin(role)
    case Reviews => role == Some("user")
    case Profile => true
  }

  /**
   * Every role gets exactly two tabs, Profile last, and a stored user starts on
   * the first of them. Its panel is drawn exactly when the role is `admin` or
   * `user`: any other role opens on a Reviews tab with nothing under it. With no
   * stored user the page stays on My Books, which it does not offer, and draws
   * no panel.
   */
  lemma TabsExactly(role: Role)
    ensures |AvailableTabs(role)| == 2 && AvailableTabs(role)[1] == Profile
    ensures role.Some? ==> InitialTab(role) == AvailableTabs(role)[0]
    ensures role.Some? ==> (PanelShown(InitialTab(role), role) <==> role.value == "admin" || role.value == "user")
    ensures role.None? ==> InitialTab(role) !in AvailableTabs(role) && !PanelShown(InitialTab(role), role)
    ensures forall t :: t in AvailableTabs(role) ==>
      (PanelShown(t, role) <==> t == Profile || role == Some("admin") || role == Some("user"))
  {
  }

  // ---------------------------------------------------------------------------
  // handleAvatarUpload

  /** The chosen file's MIME type and size in bytes. */
  datatype File = File(mimeType: string, size: int)

  /** How `POST /users/avatar` ends: the updated user's avatar path, a refusal, or no answer. */
  datatype AvatarResponse = Stored(avatar: Option<string>) | Refused(message: string) | Unreachable

  /** The largest avatar accepted: 5 MB. */
  const MaxAvatarSize: int := 5 * 1024 * 1024

  /** The outcome: whether the upload is sent, the avatar the user then has, and the alert shown. */
  datatype AvatarUpload = AvatarUpload(sent: bool, avatar: Option<Option<string>>, alert: Option<string>)

  /** The avatar as stored locally: a path not starting with `http` is put right after the server address. */
  function AvatarUrl(avatar: Option<string>): (a: Option<string>)
  {
    if Truthy(avatar) && !StartsWith(avatar.value, "http") then Some(Server + avatar.value) else avatar
  }

  /** `handleAvatarUpload(event)`. */
  function UploadAvatar(file: Option<File>, hasToken: bool, response: AvatarResponse): (u: AvatarUpload)
  {
    if file.None? then AvatarUpload(false, None, None)
    else if !StartsWith(file.value.mimeType, "image/") then AvatarUpload(false, None, Some("Please select an image file"))
    else if file.value.size > MaxAvatarSize then AvatarUpload(false, None, Some("Image file size should be less than 5MB"))
    else if !hasToken then AvatarUpload(false, None, Some("Please log in again"))
    else match response
      case Stored(avatar) => AvatarUpload(true, Some(AvatarUrl(avatar)), Some("Avatar updated successfully!"))
      case Refused(message) => AvatarUpload(true, None, Some("Error uploading avatar: " + message))
      case Unreachable => AvatarUpload(true, None, Some("Failed to upload avatar"))
  }

  /**
   * The upload is sent exactly for an image of at most 5 MB (5,242,880 bytes)
   * with a token stored, and the user's avatar changes only when the server
   * stores it. The new avatar is the returned one when that is already a URL or
   * empty; a path is joined to `http://localhost:5000` with no `/` added.
   */
  lemma UploadAvatarExactly(file: Option<File>, hasToken: bool, response: AvatarResponse)
    ensures var u := UploadAvatar(file, hasToken, response);
      && (u.sent <==> file.Some? && StartsWith(file.value.mimeType, "image/") && file.value.size <= 5242880 && hasToken)
      && (u.avatar.Some? <==> u.sent && response.Stored?)
      && (u.alert.None? <==> file.None?)
    ensures response.Stored? && Truthy(response.avatar) ==>
      && StartsWith(AvatarUrl(response.avatar).value, "http")
      && EndsWith(AvatarUrl(response.avatar).value, response.avatar.value)
      && (!StartsWith(response.avatar.value, "http") <==> AvatarUrl(response.avatar).value == "http://localhost:5000" + response.avatar.value)
  {
    if response.Stored? && Truthy(response.avatar) && !StartsWith(response.avatar.value, "http") {
      var a := Server + response.avatar.value;
      assert a[..4] == "http";
      assert a[|a| - |response.avatar.value|..] == response.avatar.value;
    }
  }

  // ---------------------------------------------------------------------------
  // Local list updates after an edit or a deletion

  /** `list.map(x => x._id === id ? updated : x)`. */
  function Replaced<T, K(==)>(xs: seq<T>, key: T -> K, id: K, updated: T): (r: seq<T>)
  {
    if xs == [] then [] else [if key(xs[0]) == id then updated else xs[0]] + Replaced(xs[1..], key, id, updated)
  }

  /** `list.filter(x => x._id !== id)`. */
  function Removed<T, K(==)>(xs: seq<T>, key: T -> K, id: K): (r: seq<T>)
  {
    if xs == [] then [] else (if key(xs[0]) == id then [] else [xs[0]]) + Removed(xs[1..], key, id)
  }

  /** Saving an edit replaces, in place, every entry with the edited id by the server's copy, and nothing else. */
  lemma {:induction false} ReplacedExactly<T, K>(xs: seq<T>, key: T -> K, id: K, updated: T)
    ensures |Replaced(xs, key, id, updated)| == |xs|
    ensures forall i :: 0 <= i < |xs| ==>
      Replaced(xs, key, id, updated)[i] == if key(xs[i]) == id then updated else xs[i]
    decreases |xs|
  {
    if xs != [] {
      ReplacedExactly(xs[1..], key, id, updated);
      var r := Replaced(xs, key, id, updated);
      forall i | 0 <= i < |xs|
        ensures r[i] == if key(xs[i]) == id then updated else xs[i]
      {
        if i > 0 {
          assert r[i] == Replaced(xs[1..], key, id, updated)[i - 1];
        }
      }
    }
  }

  /** A deletion keeps exactly the entries with another id, and the list shrinks only when the id was on it. */
  lemma {:induction false} RemovedExactly<T, K>(xs: seq<T>, key: T -> K, id: K)
    ensures forall x :: x in Removed(xs, key, id) <==> x in xs && key(x) != id
    ensures |Removed(xs, key, id)| <= |xs|
    ensures (forall x :: x in xs ==> key(x) != id) <==> Removed(xs, key, id) == xs
    decreases |xs|
  {
    if xs != [] {
      var rest := Removed(xs[1..], key, id);
      RemovedExactly(xs[1..], key, id);
      assert xs == [xs[0]] + xs[1..];
      assert forall x :: x in xs <==> x == xs[0] || x in xs[1..];
      if key(xs[0]) == id {
        assert |Removed(xs, key, id)| < |xs|;
      } else {
        assert Removed(xs, key, id) == [xs[0]] + rest;
      }
    }
  }

  /** Deleting twice is deleting once. */
  lemma {:induction false} RemovedTwice<T, K>(xs: seq<T>, key: T -> K, id: K)
    ensures Removed(Removed(xs, key, id), key, id) == Removed(xs, key, id)
    decreases |xs|
  {
    if xs != [] {
      RemovedTwice(xs[1..], key, id);
      var rest := Removed(xs[1..], key, id);
      if key(xs[0]) != id {
        var r := [xs[0]] + rest;
        assert Removed(xs, key, id) == r;
        assert r[0] == xs[0] && r[1..] == rest;
        assert Removed(r, key, id) == [xs[0]] + Removed(rest, key, id);
      } else {
        assert Removed(xs, key, id) == [] + rest == rest;
      }
    }
  }

  /** The entries a deletion keeps stay in their order: deleting from two lists joined is joining what is left of each. */
  lemma {:induction false} RemovedAppend<T, K>(xs: seq<T>, more: seq<T>, key: T -> K, id: K)
    ensures Removed(xs + more, key, id) == Removed(xs, key, id) + Removed(more, key, id)
    decreases |xs|
  {
    if xs == [] {
      assert xs + more == more;
    } else {
      RemovedAppend(xs[1..], more, key, id);
      assert (xs + more)[0] == xs[0];
      assert (xs + more)[1..] == xs[1..] + more;
    }
  }

  /** Editing an entry and then deleting it leaves the same list as deleting it straight away. */
  lemma {:induction false} EditThenDelete<T, K>(xs: seq<T>, key: T -> K, id: K, updated: T)
    requires key(updated) == id
    ensures Removed(Replaced(xs, key, id, updated), key, id) == Removed(xs, key, id)
    decreases |xs|
  {
    if xs != [] {
      EditThenDelete(xs[1..], key, id, updated);
      var r := Replaced(xs, key, id, updated);
      assert r[0] == (if key(xs[0]) == id then updated else xs[0]);
      assert r[1..] == Replaced(xs[1..], key, id, updated);
    }
  }

  // ---------------------------------------------------------------------------
  // handleEditBook

  /** The edit form's fields. */
  datatype EditForm = EditForm(
    title: string, author: string, description: string, category: string, coverImage: string,
    available: Option<bool>, published: Option<bool>)

  /** `p || ''`. */
  function OrEmpty(p: Option<string>): (s: string)
  {
    if p.Some? then p.value else ""
  }

  /** `handleEditBook(book)`: the form starts from the book, a missing text as empty. */
  function EditFormOf(book: Book): (f: EditForm)
  {
    EditForm(book.title, OrEmpty(book.author), OrEmpty(book.description), OrEmpty(book.category),
             OrEmpty(book.coverImage), book.available, book.published)
  }

  /**
   * The form shows each text property exactly as the book has it, and empty
   * exactly when the book's is missing or empty; the flags are passed on as
   * they are, missing or not.
   */
  lemma EditFormExactly(book: Book)
    ensures var f := EditFormOf(book);
      && f.title == book.title && f.available == book.available && f.published == book.published
      && (Truthy(book.author) <==> f.author != "") && (f.author != "" ==> book.author == Some(f.author))
      && (Truthy(book.description) <==> f.description != "") && (f.description != "" ==> book.description == Some(f.description))
      && (Truthy(book.category) <==> f.category != "") && (f.category != "" ==> book.category == Some(f.category))
      && (Truthy(book.coverImage) <==> f.coverImage != "") && (f.coverImage != "" ==> book.coverImage == Some(f.coverImage))
  {
  }

  /** Two text properties look the same in the form: equal, or both missing or empty. */
  predicate SameText(p: Option<string>, q: Option<string>) {
    p == q || (!Truthy(p) && !Truthy(q))
  }

  /**
   * The form tells two books apart exactly when their titles, their flags or
   * one of their texts differ, a missing text counting as an empty one; the id
   * and the PDF never enter it.
   */
  lemma EditFormDistinguishes(b1: Book, b2: Book)
    ensures EditFormOf(b1) == EditFormOf(b2) <==>
      && b1.title == b2.title && b1.available == b2.available && b1.published == b2.published
      && SameText(b1.author, b2.author) && SameText(b1.description, b2.description)
      && SameText(b1.category, b2.category) && SameText(b1.coverImage, b2.coverImage)
  {
  }

  // ---------------------------------------------------------------------------
  // renderStars, handleReadBook, handleDownloadBook

  /** The dashboard's stars: star `i` from 0 to 4 is filled when `i < rating`. */
  function Stars(rating: int): (filled: seq<bool>)
    ensures |filled| == 5
  {
    seq(5, i requires 0 <= i < 5 => i < rating)
  }

  /** The dashboard fills the same stars as the book list, for every whole rating. */
  lemma StarsAgree(rating: int)
    ensures Stars(rating) == BookDetails.Stars(rating)
  {
  }

  /** The dashboard's Read: the same as the book list's for a signed-in user, without recording the read. */
  function ReadBook(book: Book): (a: Action)
  {
    if Truthy(book.pdfFile) then OpenReader(WithPdfUrl(book)) else Alert("PDF file not available for this book")
  }

  /** The dashboard's Download: whether the missing token is alerted first, whether the read is recorded, and the download. */
  datatype DownloadClick = DownloadClick(tokenAlert: bool, tracked: bool, action: Action)

  /** `handleDownloadBook(book)` on the dashboard; `getAuthHeaders` alerts when no token is stored. */
  function DownloadBook(hasToken: bool, book: Book): (c: DownloadClick)
  {
    if !Truthy(book.pdfFile) then DownloadClick(false, false, Alert("PDF file not available for download"))
    else DownloadClick(!hasToken, hasToken, Download(DownloadUrl(DownloadFilename(book.pdfFile.value)), DownloadName(book)))
  }

  /**
   * Both buttons do what the book list's do for a signed-in user. Download also
   * records the read when a token is stored, and otherwise alerts `Please log in
   * again` and still downloads.
   */
  lemma DashboardClicksAgree(hasToken: bool, book: Book)
    ensures ReadBook(book) == BookDetails.ReadBook(true, book)
    ensures DownloadBook(hasToken, book).action == BookDetails.DownloadBook(true, book)
    ensures DownloadBook(hasToken, book).tracked <==> Truthy(book.pdfFile) && hasToken
    ensures DownloadBook(hasToken, book).tokenAlert <==> Truthy(book.pdfFile) && !hasToken
  {
  }
}
