/**
 * The full-screen PDF reader: its zoom buttons, the choice of viewer element
 * and its retry toggle, the loading and error state the viewer's events set,
 * and the URL, with the PDF viewer's parameters, that the viewer opens.
 */
module PdfReader {

  import opened Wrappers
  import opened Strings

  /** The element that shows the PDF. */
  datatype ViewMode = IFrame | Embed | ObjectTag

  /** The message shown when the viewer reports an error. */
  const LoadError: string := "Failed to load PDF. The file might not exist or be corrupted."

  /** The zoom levels the buttons can reach: multiples of 25 from 50 to 200. */
  predicate ZoomLevel(z: int) {
    50 <= z <= 200 && z % 25 == 0
  }

  /** Zoom out: `Math.max(50, zoom - 25)`. */
  function ZoomedOut(z: int): int {
    if z - 25 > 50 then z - 25 else 50
  }

  /** Zoom in: `Math.min(200, zoom + 25)`. */
  function ZoomedIn(z: int): int {
    if z + 25 < 200 then z + 25 else 200
  }

  /** The zoom the page opens with and Reset restores. */
  const DefaultZoom: int := 100

  /**
   * From a reachable level both buttons stay on a reachable level, one step
   * away, or in place only at the end they push against; one step in is undone
   * by one step out, and the other way round.
   */
  lemma ZoomSteps(z: int)
    requires ZoomLevel(z)
    ensures ZoomLevel(ZoomedIn(z)) && ZoomLevel(ZoomedOut(z))
    ensures ZoomedIn(z) == (if z == 200 then z else z + 25)
    ensures ZoomedOut(z) == (if z == 50 then z else z - 25)
    ensures z < 200 ==> ZoomedOut(ZoomedIn(z)) == z
    ensures z > 50 ==> ZoomedIn(ZoomedOut(z)) == z
  {
  }

  /** The reset level is reachable, and exactly seven levels are: 50, 75, ..., 200. */
  lemma ZoomLevels()
    ensures ZoomLevel(DefaultZoom)
    ensures forall z :: ZoomLevel(z) <==> z in {50, 75, 100, 125, 150, 175, 200}
  {
    forall z | ZoomLevel(z)
      ensures z in {50, 75, 100, 125, 150, 175, 200}
    {
      var q := (z - 50) / 25;
      assert z == 50 + 25 * q;
      assert 0 <= q <= 6;
    }
  }

  /** `retryLoad`: the inline frame gives way to `embed`, and any other element to the inline frame. */
  function Retried(m: ViewMode): ViewMode {
    if m == IFrame then Embed else IFrame
  }

  /**
   * A retry always changes the element, which is what forces the reload; two
   * retries bring the inline frame or `embed` back, while `object` becomes the
   * inline frame and stays among those two.
   */
  lemma RetryToggles(m: ViewMode)
    ensures Retried(m) != m
    ensures m != ObjectTag ==> Retried(Retried(m)) == m
    ensures Retried(m) != ObjectTag
  {
  }

  /** The viewer parameters on a small screen, which ignore the zoom. */
  const MobileParams: string := "#toolbar=1&navpanes=0&scrollbar=1&page=1&view=FitV&zoom=page-width"

  /** The viewer parameters otherwise, up to the zoom. */
  const DesktopParams: string := "#toolbar=1&navpanes=1&scrollbar=1&page=1&view=FitH&zoom="

  /** A screen narrower than 768 pixels is a small one. */
  predicate Mobile(innerWidth: int) {
    innerWidth < 768
  }

  /** What the viewer opens: nothing without a PDF URL, else the URL with the parameters appended. */
  function ViewerUrl(pdfUrl: string, innerWidth: int, zoom: nat): Option<string> {
    if pdfUrl == "" then None
    else if Mobile(innerWidth) then Some(pdfUrl + MobileParams)
    else Some(pdfUrl + DesktopParams + DecimalString(zoom))
  }

  /**
   * Given a PDF URL, the viewer opens that URL followed by the parameters. On a
   * small screen those are fixed, whatever the zoom; otherwise they end with the
   * zoom written in decimal, which reads back as the zoom, so different zooms
   * give different URLs.
   */
  lemma ViewerUrlShape(pdfUrl: string, innerWidth: int, zoom: nat)
    ensures ViewerUrl(pdfUrl, innerWidth, zoom).None? <==> pdfUrl == ""
    ensures pdfUrl != "" && Mobile(innerWidth) ==> ViewerUrl(pdfUrl, innerWidth, zoom) == Some(pdfUrl + MobileParams)
    ensures pdfUrl != "" && !Mobile(innerWidth) ==>
      && StartsWith(ViewerUrl(pdfUrl, innerWidth, zoom).value, pdfUrl + DesktopParams)
      && var digits := ViewerUrl(pdfUrl, innerWidth, zoom).value[|pdfUrl + DesktopParams|..];
         (forall k :: 0 <= k < |digits| ==> IsDigit(digits[k])) && DecimalValue(digits) == zoom
  {
    if pdfUrl != "" && !Mobile(innerWidth) {
      var head := pdfUrl + DesktopParams;
      var url := head + DecimalString(zoom);
      assert url[..|head|] == head;
      assert url[|head|..] == DecimalString(zoom);
      DecimalRoundTrip(zoom);
    }
  }

  class Reader {
    var pdfUrl: string
    var zoom: int
    var loading: bool
    var error: Option<string>
    var viewMode: ViewMode

    /** The zoom is always one the buttons can reach. */
    predicate Valid()
      reads this
    {
      ZoomLevel(zoom)
    }

    /** The reader as first shown for a PDF URL. */
    constructor (pdfUrl: string)
      ensures Valid()
      ensures this.pdfUrl == pdfUrl && zoom == DefaultZoom && loading && error == None && viewMode == IFrame
    {
      this.pdfUrl := pdfUrl;
      zoom := DefaultZoom;
      loading := true;
      error := None;
      viewMode := IFrame;
    }

    /** The Zoom Out button. */
    method ZoomOut()
      requires Valid()
      modifies this
      ensures Valid() && zoom == ZoomedOut(old(zoom)) && zoom <= old(zoom)
      ensures pdfUrl == old(pdfUrl) && loading == old(loading) && error == old(error) && viewMode == old(viewMode)
    {
      ZoomSteps(zoom);
      zoom := if zoom - 25 > 50 then zoom - 25 else 50;
    }

    /** The Zoom In button. */
    method ZoomIn()
      requires Valid()
      modifies this
      ensures Valid() && zoom == ZoomedIn(old(zoom)) && zoom >= old(zoom)
      ensures pdfUrl == old(pdfUrl) && loading == old(loading) && error == old(error) && viewMode == old(viewMode)
    {
      ZoomSteps(zoom);
      zoom := if zoom + 25 < 200 then zoom + 25 else 200;
    }

    /** The Reset button. */
    method ResetZoom()
      modifies this
      ensures Valid() && zoom == DefaultZoom
      ensures pdfUrl == old(pdfUrl) && loading == old(loading) && error == old(error) && viewMode == old(viewMode)
    {
      zoom := DefaultZoom;
    }

    /** The viewer's `load` event: loaded, with no error. */
    method Loaded()
      requires Valid()
      modifies this
      ensures Valid() && !loading && error == None
      ensures pdfUrl == old(pdfUrl) && zoom == old(zoom) && viewMode == old(viewMode)
    {
      loading := false;
      error := None;
    }

    /** The viewer's `error` event: no longer loading, and the error shown. */
    method Failed()
      requires Valid()
      modifies this
      ensures Valid() && !loading && error == Some(LoadError)
      ensures pdfUrl == old(pdfUrl) && zoom == old(zoom) && viewMode == old(viewMode)
    {
      loading := false;
      error := Some(LoadError);
    }

    /** `retryLoad`: loading again, the error cleared, and the other element. */
    method Retry()
      requires Valid()
      modifies this
      ensures Valid() && loading && error == None && viewMode == Retried(old(viewMode))
      ensures pdfUrl == old(pdfUrl) && zoom == old(zoom)
    {
      loading := true;
      error := None;
      viewMode := if viewMode == IFrame then Embed else IFrame;
    }

    /** The viewer selector: the chosen element, and nothing else. */
    method SelectViewMode(m: ViewMode)
      requires Valid()
      modifies this
      ensures Valid() && viewMode == m
      ensures pdfUrl == old(pdfUrl) && zoom == old(zoom) && loading == old(loading) && error == old(error)
    {
      viewMode := m;
    }

    /**
     * A new PDF URL: the effect on `pdfUrl` starts loading again and clears the
     * error; the zoom and the element carry over. The same URL changes nothing.
     */
    method ChangeUrl(url: string)
      requires Valid()
      modifies this
      ensures Valid() && pdfUrl == url && zoom == old(zoom) && viewMode == old(viewMode)
      ensures url != old(pdfUrl) ==> loading && error == None
      ensures url == old(pdfUrl) ==> loading == old(loading) && error == old(error)
    {
      if url != pdfUrl {
        loading := true;
        error := None;
      }
      pdfUrl := url;
    }

    /** The URL the viewer element opens on a screen of the given width. */
    function Url(innerWidth: int): (url: Option<string>)
      requires Valid()
      reads this
      ensures url.None? <==> pdfUrl == ""
      ensures url.Some? ==> StartsWith(url.value, pdfUrl)
    {
      ViewerUrlShape(pdfUrl, innerWidth, zoom);
      var u := ViewerUrl(pdfUrl, innerWidth, zoom);
      assert u.Some? ==> u.value[..|pdfUrl|] == pdfUrl;
      u
    }
  }
}
