/** Retrieving one artifact per record (`try_download_pdf_by_url`,
    `extract_pdf_from_open_detail_page`, `download_pdf_for_row`,
    `download_pdfs_for_rows`). The browser and the network are oracles: each
    request, page and click has its outcome fixed in advance, and every
    attempt returns the trace of the browser actions it performed. */
module Retrieval {
  import opened Wrappers
  import opened Text
  import opened Rows
  import opened FileNames
  import opened Urls

  /** The outcome of one HTTP GET: a raised transport error, or a response
      with its `ok` flag and its Content-Type header, if any. */
  datatype Fetch = FetchRaised | Response(ok: bool, contentType: Option<string>)

  /** An open page, as the in-page scripts see it: whether it looks like a
      detail page on the first and on the second check, its address, the
      PDF-looking links it exposes (in discovery order), and whether a
      visible print control produces a download. */
  datatype DetailView = DetailView(
    looksDetail: bool,
    url: string,
    links: seq<string>,
    printDownload: bool,
    looksDetailAgain: bool)

  /** The response `goto` returns for the detail address (it may return none). */
  datatype GotoResponse = NoResponse | Responded(contentType: Option<string>)

  /** Navigating a new tab to the detail address: it raises, or lands on a
      page. */
  datatype Navigation = NavRaised | Navigated(response: GotoResponse, view: DetailView)

  /** Clicking the detail control of the row in the results table: it raises,
      opens nothing (with a reason), opens a popup, or navigates the results
      tab itself. */
  datatype RowClick = ClickRaised | NotOpened(reason: string) | Popup(view: DetailView) | SameTab(view: DetailView)

  /** What the browser does for one row. */
  datatype RowWorld = RowWorld(navigation: Navigation, click: RowClick)

  /** Everything an artifact attempt consults: the results page address,
      URL resolution, the digest function, the network, the per-row browser
      behaviour, and whether printing the page to PDF is the last resort. */
  datatype Site = Site(
    base: string,
    join: (string, string) -> string,
    sha1Hex: string -> string,
    fetch: string -> Fetch,
    worldOf: Row -> RowWorld,
    pagePdfFallback: bool)

  /** The browser actions an attempt performs, in order. `OpenFromRow` is
      handing the row to the results-row opener, which clicks the row's
      detail control, or gives up with a reason (such as a missing
      `_row_index`) without clicking. */
  datatype Effect = OpenTab(url: string) | OpenFromRow | FetchUrl(url: string) | TryPrint | RenderPdf | CloseTab | GoBack

  /** The `(success, reason)` pair an attempt reports, with its actions. */
  datatype Attempt = Attempt(success: bool, reason: string, effects: seq<Effect>)

  /** `try_download_pdf_by_url`: the request did not raise, the response is
      ok, and either its Content-Type or the address itself says PDF. */
  predicate PdfAccepted(url: string, fetch: string -> Fetch) {
    var f := fetch(url);
    && f.Response? && f.ok
    && (Contains(CaseFold(Normalize(f.contentType)), "pdf") || Contains(CaseFold(url), ".pdf"))
  }

  /** The loop over discovered links: each is fetched in turn until the
      first one that `accepts` (the verdict of `try_download_pdf_by_url`).
      Returns whether one was, and the fetches. */
  function TryLinks(links: seq<string>, accepts: string -> bool): (r: (bool, seq<Effect>))
    ensures |r.1| <= |links|
    ensures forall i :: 0 <= i < |r.1| ==> r.1[i] == FetchUrl(links[i])
    ensures r.0 <==> exists i :: 0 <= i < |links| && accepts(links[i])
    ensures r.0 ==> |r.1| > 0 && accepts(links[|r.1| - 1])
    ensures !r.0 ==> |r.1| == |links|
    ensures forall i :: 0 <= i < |r.1| - 1 ==> !accepts(links[i])
  {
    if links == [] then (false, [])
    else if accepts(links[0]) then
      (true, [FetchUrl(links[0])])
    else
      var rest := TryLinks(links[1..], accepts);
      var fetched := [FetchUrl(links[0])] + rest.1;
      assert forall i :: 1 <= i < |links| ==> links[i] == links[1..][i - 1];
      assert forall i :: 1 <= i < |fetched| ==> fetched[i] == rest.1[i - 1];
      (rest.0, fetched)
  }

  /** `extract_pdf_from_open_detail_page`: refuse a page that does not look
      like a detail page; otherwise try the page address as a PDF, then each
      discovered link, then the print control, then (when enabled and the
      page still looks like a detail page) print the page itself. */
  function ExtractPdfFromDetailPage(view: DetailView, accepts: string -> bool, pagePdfFallback: bool): (a: Attempt)
    ensures !view.looksDetail ==> a == Attempt(false, "nem_adatlap_oldal", [])
    ensures a.success <==> a.reason in {"detail_url_pdf", "pdf_link", "print_download", "page_pdf"}
  {
    ExtractPdfAt(view, Strip(view.url), accepts, pagePdfFallback)
  }

  /** The same, with the page address already normalised to `current`. */
  function ExtractPdfAt(view: DetailView, current: string, accepts: string -> bool, pagePdfFallback: bool): (a: Attempt)
    ensures !view.looksDetail ==> a == Attempt(false, "nem_adatlap_oldal", [])
    ensures a.success <==> a.reason in {"detail_url_pdf", "pdf_link", "print_download", "page_pdf"}
  {
    if !view.looksDetail then Attempt(false, "nem_adatlap_oldal", [])
    else
      var tried := if current != "" then [FetchUrl(current)] else [];
      if current != "" && accepts(current) then Attempt(true, "detail_url_pdf", tried)
      else
        var links := TryLinks(view.links, accepts);
        if links.0 then Attempt(true, "pdf_link", tried + links.1)
        else if view.printDownload then Attempt(true, "print_download", tried + links.1 + [TryPrint])
        else if !pagePdfFallback then Attempt(false, "nincs_pdf_mod", tried + links.1 + [TryPrint])
        else if !view.looksDetailAgain then Attempt(false, "nem_adatlap_oldal", tried + links.1 + [TryPrint])
        else Attempt(true, "page_pdf", tried + links.1 + [TryPrint, RenderPdf])
  }

  // An independent description of the same retrieval: a list of tiers
  // tried in order, where the first one that succeeds wins.

  datatype Tier = DetailUrlPdf(url: string) | PdfLink(url: string) | PrintDownload | PagePdf

  function LinkTiers(links: seq<string>): (tiers: seq<Tier>)
    ensures |tiers| == |links|
    ensures forall i :: 0 <= i < |links| ==> tiers[i] == PdfLink(links[i])
  {
    if links == [] then [] else [PdfLink(links[0])] + LinkTiers(links[1..])
  }

  /** The tiers of an open detail page, in the order they are tried. */
  function Tiers(view: DetailView, pagePdfFallback: bool): seq<Tier> {
    TiersAt(Strip(view.url), view.links, pagePdfFallback)
  }

  /** The tiers for a page whose normalised address is `current`. */
  function TiersAt(current: string, links: seq<string>, pagePdfFallback: bool): seq<Tier> {
    (if current != "" then [DetailUrlPdf(current)] else [])
    + LinkTiers(links) + [PrintDownload]
    + (if pagePdfFallback then [PagePdf] else [])
  }

  predicate TierSucceeds(t: Tier, view: DetailView, accepts: string -> bool) {
    match t
    case DetailUrlPdf(u) => accepts(u)
    case PdfLink(u) => accepts(u)
    case PrintDownload => view.printDownload
    case PagePdf => view.looksDetailAgain
  }

  function TierTag(t: Tier): string {
    match t
    case DetailUrlPdf(_) => "detail_url_pdf"
    case PdfLink(_) => "pdf_link"
    case PrintDownload => "print_download"
    case PagePdf => "page_pdf"
  }

  /** The actions a tier performs: a fetch, a print attempt, and for the
      page-to-PDF tier a render only when the page still qualifies. */
  function TierEffects(t: Tier, succeeded: bool): seq<Effect> {
    match t
    case DetailUrlPdf(u) => [FetchUrl(u)]
    case PdfLink(u) => [FetchUrl(u)]
    case PrintDownload => [TryPrint]
    case PagePdf => if succeeded then [RenderPdf] else []
  }

  /** Tries the tiers in order; the first success reports its tag, and when
      all fail the attempt reports `exhausted`. */
  function RunTiers(tiers: seq<Tier>, view: DetailView, accepts: string -> bool, exhausted: string): Attempt {
    if tiers == [] then Attempt(false, exhausted, [])
    else if TierSucceeds(tiers[0], view, accepts) then Attempt(true, TierTag(tiers[0]), TierEffects(tiers[0], true))
    else
      var rest := RunTiers(tiers[1..], view, accepts, exhausted);
      Attempt(rest.success, rest.reason, TierEffects(tiers[0], false) + rest.effects)
  }

  /** First success wins: the run succeeds exactly when some tier does, it
      then reports the tag of the first tier that succeeds, and otherwise the
      exhausted reason. */
  lemma {:induction false} RunTiersFirstSuccess(tiers: seq<Tier>, view: DetailView, accepts: string -> bool, exhausted: string)
    ensures var a := RunTiers(tiers, view, accepts, exhausted);
            && (a.success <==> exists k :: 0 <= k < |tiers| && TierSucceeds(tiers[k], view, accepts))
            && (!a.success ==> a.reason == exhausted)
            && (forall k :: 0 <= k < |tiers| && TierSucceeds(tiers[k], view, accepts)
                            && (forall m :: 0 <= m < k ==> !TierSucceeds(tiers[m], view, accepts))
                            ==> a.reason == TierTag(tiers[k]))
  {
    if tiers != [] && !TierSucceeds(tiers[0], view, accepts) {
      RunTiersFirstSuccess(tiers[1..], view, accepts, exhausted);
      assert forall k :: 1 <= k < |tiers| ==> tiers[k] == tiers[1..][k - 1];
      var a := RunTiers(tiers, view, accepts, exhausted);
      if a.success {
        var k :| 0 <= k < |tiers[1..]| && TierSucceeds(tiers[1..][k], view, accepts);
        assert TierSucceeds(tiers[k + 1], view, accepts);
      }
      forall k | 0 <= k < |tiers| && TierSucceeds(tiers[k], view, accepts)
                 && (forall m :: 0 <= m < k ==> !TierSucceeds(tiers[m], view, accepts))
        ensures a.reason == TierTag(tiers[k])
      {
        assert k > 0;
        assert forall m :: 0 <= m < k - 1 ==> !TierSucceeds(tiers[1..][m], view, accepts) by {
          forall m | 0 <= m < k - 1 ensures !TierSucceeds(tiers[1..][m], view, accepts) {
            assert tiers[1..][m] == tiers[m + 1];
          }
        }
      }
    }
  }

  /** The reference retrieval of an open page. */
  function RetrieveByTiers(view: DetailView, accepts: string -> bool, pagePdfFallback: bool): Attempt {
    if !view.looksDetail then Attempt(false, "nem_adatlap_oldal", [])
    else RunTiers(Tiers(view, pagePdfFallback), view, accepts, if pagePdfFallback then "nem_adatlap_oldal" else "nincs_pdf_mod")
  }

  lemma {:induction false} RunTiersOverLinks(links: seq<string>, tail: seq<Tier>, view: DetailView, accepts: string -> bool, exhausted: string)
    ensures var tl := TryLinks(links, accepts);
            var a := RunTiers(LinkTiers(links) + tail, view, accepts, exhausted);
            var b := RunTiers(tail, view, accepts, exhausted);
            if tl.0 then a == Attempt(true, "pdf_link", tl.1)
            else a == Attempt(b.success, b.reason, tl.1 + b.effects)
  {
    if links != [] {
      var tiers := LinkTiers(links) + tail;
      assert tiers[0] == PdfLink(links[0]);
      assert tiers[1..] == LinkTiers(links[1..]) + tail;
      if !accepts(links[0]) {
        RunTiersOverLinks(links[1..], tail, view, accepts, exhausted);
      }
    } else {
      assert LinkTiers(links) + tail == tail;
    }
  }

  /** The last tiers: the print control, then the optional page print. */
  lemma RunLastTiers(view: DetailView, accepts: string -> bool, pagePdfFallback: bool)
    ensures var exhausted := if pagePdfFallback then "nem_adatlap_oldal" else "nincs_pdf_mod";
            var b := RunTiers([PrintDownload] + (if pagePdfFallback then [PagePdf] else []), view, accepts, exhausted);
            if view.printDownload then b == Attempt(true, "print_download", [TryPrint])
            else if !pagePdfFallback then b == Attempt(false, "nincs_pdf_mod", [TryPrint])
            else if !view.looksDetailAgain then b == Attempt(false, "nem_adatlap_oldal", [TryPrint])
            else b == Attempt(true, "page_pdf", [TryPrint, RenderPdf])
  {
    var exhausted := if pagePdfFallback then "nem_adatlap_oldal" else "nincs_pdf_mod";
    var tail := [PrintDownload] + (if pagePdfFallback then [PagePdf] else []);
    assert tail[0] == PrintDownload;
    if pagePdfFallback {
      assert tail[1..] == [PagePdf];
      assert [PagePdf][1..] == [];
      var r2 := RunTiers([PagePdf], view, accepts, exhausted);
      assert r2 == RunTiers(tail[1..], view, accepts, exhausted);
      assert RunTiers([], view, accepts, exhausted) == Attempt(false, exhausted, []);
      assert !view.looksDetailAgain ==> r2 == Attempt(false, exhausted, []);
      assert [TryPrint] + [] == [TryPrint];
    } else {
      assert tail[1..] == [];
    }
  }

  /** After the page address, the links and then the last tiers. */
  lemma RunTiersAfterAddress(view: DetailView, accepts: string -> bool, pagePdfFallback: bool)
    ensures var exhausted := if pagePdfFallback then "nem_adatlap_oldal" else "nincs_pdf_mod";
            var tail := [PrintDownload] + (if pagePdfFallback then [PagePdf] else []);
            var a := RunTiers(LinkTiers(view.links) + tail, view, accepts, exhausted);
            var tl := TryLinks(view.links, accepts);
            if tl.0 then a == Attempt(true, "pdf_link", tl.1)
            else if view.printDownload then a == Attempt(true, "print_download", tl.1 + [TryPrint])
            else if !pagePdfFallback then a == Attempt(false, "nincs_pdf_mod", tl.1 + [TryPrint])
            else if !view.looksDetailAgain then a == Attempt(false, "nem_adatlap_oldal", tl.1 + [TryPrint])
            else a == Attempt(true, "page_pdf", tl.1 + [TryPrint, RenderPdf])
  {
    var exhausted := if pagePdfFallback then "nem_adatlap_oldal" else "nincs_pdf_mod";
    var tail := [PrintDownload] + (if pagePdfFallback then [PagePdf] else []);
    RunTiersOverLinks(view.links, tail, view, accepts, exhausted);
    RunLastTiers(view, accepts, pagePdfFallback);
  }

  /** Once the page address has not produced the artifact, the retrieval
      is the run of the remaining tiers behind the address fetch, if any. */
  lemma ExtractPdfAfterAddress(view: DetailView, current: string, accepts: string -> bool, pagePdfFallback: bool)
    requires view.looksDetail
    requires !(current != "" && accepts(current))
    ensures var exhausted := if pagePdfFallback then "nem_adatlap_oldal" else "nincs_pdf_mod";
            var tail := [PrintDownload] + (if pagePdfFallback then [PagePdf] else []);
            var a := RunTiers(LinkTiers(view.links) + tail, view, accepts, exhausted);
            var tried := if current != "" then [FetchUrl(current)] else [];
            ExtractPdfAt(view, current, accepts, pagePdfFallback) == Attempt(a.success, a.reason, tried + a.effects)
  {
    RunTiersAfterAddress(view, accepts, pagePdfFallback);
    var tried := if current != "" then [FetchUrl(current)] else [];
    var tl := TryLinks(view.links, accepts);
    assert tried + tl.1 + [TryPrint] == tried + (tl.1 + [TryPrint]);
    assert tried + tl.1 + [TryPrint, RenderPdf] == tried + (tl.1 + [TryPrint, RenderPdf]);
  }

  /** The page address is itself the artifact: the first tier wins. */
  lemma ExtractPdfAtAddressAccepted(view: DetailView, current: string, accepts: string -> bool, pagePdfFallback: bool)
    requires view.looksDetail && current != "" && accepts(current)
    ensures ExtractPdfAt(view, current, accepts, pagePdfFallback)
            == RunTiers(TiersAt(current, view.links, pagePdfFallback), view, accepts,
                        if pagePdfFallback then "nem_adatlap_oldal" else "nincs_pdf_mod")
  {
    assert TiersAt(current, view.links, pagePdfFallback)[0] == DetailUrlPdf(current);
  }

  /** The page address is not the artifact: the address tier, if any,
      fails and the remaining tiers decide. */
  lemma ExtractPdfAtAddressRefused(view: DetailView, current: string, accepts: string -> bool, pagePdfFallback: bool)
    requires view.looksDetail && !(current != "" && accepts(current))
    ensures ExtractPdfAt(view, current, accepts, pagePdfFallback)
            == RunTiers(TiersAt(current, view.links, pagePdfFallback), view, accepts,
                        if pagePdfFallback then "nem_adatlap_oldal" else "nincs_pdf_mod")
  {
    var exhausted := if pagePdfFallback then "nem_adatlap_oldal" else "nincs_pdf_mod";
    var tail := [PrintDownload] + (if pagePdfFallback then [PagePdf] else []);
    var rest := LinkTiers(view.links) + tail;
    ExtractPdfAfterAddress(view, current, accepts, pagePdfFallback);
    TiersAtSplit(current, view.links, pagePdfFallback);
    if current != "" {
      RunTiersBehindFailedTier(DetailUrlPdf(current), rest, view, accepts, exhausted);
    } else {
      assert [] + rest == rest;
      assert TiersAt(current, view.links, pagePdfFallback) == rest;
    }
  }

  /** The tier list is the address tier, if any, in front of the rest. */
  lemma TiersAtSplit(current: string, links: seq<string>, pagePdfFallback: bool)
    ensures TiersAt(current, links, pagePdfFallback)
            == (if current != "" then [DetailUrlPdf(current)] else [])
               + (LinkTiers(links) + ([PrintDownload] + (if pagePdfFallback then [PagePdf] else [])))
  {
    var head: seq<Tier> := if current != "" then [DetailUrlPdf(current)] else [];
    var last: seq<Tier> := if pagePdfFallback then [PagePdf] else [];
    calc {
      TiersAt(current, links, pagePdfFallback);
      head + LinkTiers(links) + [PrintDownload] + last;
      { assert head + LinkTiers(links) + [PrintDownload] == head + (LinkTiers(links) + [PrintDownload]); }
      head + (LinkTiers(links) + [PrintDownload]) + last;
      head + (LinkTiers(links) + ([PrintDownload] + last));
    }
  }

  /** A failing tier in front of a run adds its own actions and nothing else. */
  lemma RunTiersBehindFailedTier(t: Tier, rest: seq<Tier>, view: DetailView, accepts: string -> bool, exhausted: string)
    requires !TierSucceeds(t, view, accepts)
    ensures var a := RunTiers(rest, view, accepts, exhausted);
            RunTiers([t] + rest, view, accepts, exhausted) == Attempt(a.success, a.reason, TierEffects(t, false) + a.effects)
  {
    assert ([t] + rest)[0] == t && ([t] + rest)[1..] == rest;
  }

  lemma ExtractPdfAtFollowsTiers(view: DetailView, current: string, accepts: string -> bool, pagePdfFallback: bool)
    requires view.looksDetail
    ensures ExtractPdfAt(view, current, accepts, pagePdfFallback)
            == RunTiers(TiersAt(current, view.links, pagePdfFallback), view, accepts,
                        if pagePdfFallback then "nem_adatlap_oldal" else "nincs_pdf_mod")
  {
    if current != "" && accepts(current) {
      ExtractPdfAtAddressAccepted(view, current, accepts, pagePdfFallback);
    } else {
      ExtractPdfAtAddressRefused(view, current, accepts, pagePdfFallback);
    }
  }

  /** The retrieval of an open page is exactly the tier list run in order:
      the same success, the same reason and the same actions. */
  lemma ExtractPdfFollowsTierOrder(view: DetailView, accepts: string -> bool, pagePdfFallback: bool)
    ensures ExtractPdfFromDetailPage(view, accepts, pagePdfFallback) == RetrieveByTiers(view, accepts, pagePdfFallback)
  {
    if view.looksDetail {
      ExtractPdfAtFollowsTiers(view, Strip(view.url), accepts, pagePdfFallback);
    }
  }

  /** The file name an attempt writes for the row, inside the artifact
      directory. */
  function Destination(row: Row, site: Site): string {
    var detailUrl := DetailUrlFromRow(row, site.base, site.join);
    PdfFileName(row, if detailUrl != "" then detailUrl else "row_click_fallback", site.sha1Hex)
  }

  /** A click that opened nothing reports its own reason, or a timeout. */
  function NotOpenedReason(reason: string): (r: string)
    ensures r != ""
  {
    if Strip(reason) != "" then Strip(reason) else "detail_click_timeout"
  }

  /** The verdict of `try_download_pdf_by_url` on the site's network. */
  function SiteAccepts(site: Site): string -> bool {
    u => PdfAccepted(u, site.fetch)
  }

  /** The retrieval from a page opened for a row. */
  function RetrieveFrom(view: DetailView, site: Site): Attempt {
    ExtractPdfFromDetailPage(view, SiteAccepts(site), site.pagePdfFallback)
  }

  /** `goto` answered with a response whose Content-Type says PDF. */
  predicate PdfResponse(response: GotoResponse) {
    response.Responded? && Contains(CaseFold(Normalize(response.contentType)), "pdf")
  }

  /** The part of `download_pdf_for_row` after the existence check: open
      the detail address in a new tab when there is one (a PDF response is
      kept as it is), otherwise click the row's detail control; then
      retrieve from the opened page, and close the tab or go back. */
  function OpenAndRetrieve(detailUrl: string, world: RowWorld, site: Site): (a: Attempt)
    ensures a.effects != [] && (a.effects[0].OpenTab? || a.effects[0] == OpenFromRow)
    ensures a.effects[0].OpenTab? ==> a.effects[|a.effects| - 1] == CloseTab
    ensures detailUrl != "" <==> a.effects[0] == OpenTab(detailUrl)
    ensures detailUrl == "" ==> a.effects[0] == OpenFromRow
    ensures detailUrl != "" ==>
              match world.navigation
              case NavRaised => !a.success && a.reason == "playwright_hiba"
              case Navigated(response, view) =>
                if PdfResponse(response) then a.success && a.reason == "kozvetlen_pdf"
                else a.success == RetrieveFrom(view, site).success && a.reason == RetrieveFrom(view, site).reason
    ensures detailUrl == "" ==>
              match world.click
              case ClickRaised => !a.success && a.reason == "playwright_hiba"
              case NotOpened(reason) => !a.success && a.reason == NotOpenedReason(reason)
              case Popup(view) => a.success == RetrieveFrom(view, site).success && a.reason == RetrieveFrom(view, site).reason
              case SameTab(view) => a.success == RetrieveFrom(view, site).success && a.reason == RetrieveFrom(view, site).reason
  {
    if detailUrl != "" then
      match world.navigation
      case NavRaised => Attempt(false, "playwright_hiba", [OpenTab(detailUrl), CloseTab])
      case Navigated(response, view) =>
        if PdfResponse(response) then
          Attempt(true, "kozvetlen_pdf", [OpenTab(detailUrl), CloseTab])
        else
          var e := RetrieveFrom(view, site);
          Attempt(e.success, e.reason, [OpenTab(detailUrl)] + e.effects + [CloseTab])
    else
      match world.click
      case ClickRaised => Attempt(false, "playwright_hiba", [OpenFromRow])
      case NotOpened(reason) => Attempt(false, NotOpenedReason(reason), [OpenFromRow])
      case Popup(view) =>
        var e := RetrieveFrom(view, site);
        Attempt(e.success, e.reason, [OpenFromRow] + e.effects + [CloseTab])
      case SameTab(view) =>
        var e := RetrieveFrom(view, site);
        Attempt(e.success, e.reason, [OpenFromRow] + e.effects + [GoBack])
  }

  /** `download_pdf_for_row`. `stored` is the set of file names already in
      the artifact directory. */
  function DownloadPdfForRow(row: Row, stored: set<string>, site: Site): (a: Attempt)
    ensures Destination(row, site) in stored ==> a == Attempt(true, "letezik", [])
    ensures Destination(row, site) !in stored ==> a.effects != [] && (a.effects[0].OpenTab? || a.effects[0] == OpenFromRow)
    ensures var detailUrl := DetailUrlFromRow(row, site.base, site.join);
            Destination(row, site) !in stored ==>
              a.effects[0] == if detailUrl != "" then OpenTab(detailUrl) else OpenFromRow
    ensures Destination(row, site) !in stored ==>
              a == OpenAndRetrieve(DetailUrlFromRow(row, site.base, site.join), site.worldOf(row), site)
    ensures a.effects != [] && a.effects[0].OpenTab? ==> a.effects[|a.effects| - 1] == CloseTab
  {
    if Destination(row, site) in stored then Attempt(true, "letezik", [])
    else OpenAndRetrieve(DetailUrlFromRow(row, site.base, site.join), site.worldOf(row), site)
  }

  /** The artifact directory after an attempt: a success leaves the file in
      place (it was there already or has just been written). */
  function StoredAfter(row: Row, stored: set<string>, site: Site): set<string> {
    if DownloadPdfForRow(row, stored, site).success then stored + {Destination(row, site)} else stored
  }

  /** The real per-row retrieval of a site, and the file it leaves. */
  function RowAttempt(site: Site): (Row, set<string>) -> Attempt {
    (r, s) => DownloadPdfForRow(r, s, site)
  }

  function RowDestination(site: Site): Row -> string {
    r => Destination(r, site)
  }

  /** A second attempt for a record that succeeded finds its file and does
      nothing else. */
  lemma DownloadPdfForRowIdempotent(row: Row, stored: set<string>, site: Site)
    requires DownloadPdfForRow(row, stored, site).success
    ensures DownloadPdfForRow(row, StoredAfter(row, stored, site), site) == Attempt(true, "letezik", [])
  {
  }

  /** Tabs and navigations are undone: a popup is closed and a same-tab
      navigation is reversed before the attempt returns; a click that opens
      nothing leaves nothing to undo. */
  lemma RowClickCleansUp(world: RowWorld, site: Site)
    ensures var a := OpenAndRetrieve("", world, site);
            && (world.click.Popup? ==> a.effects[|a.effects| - 1] == CloseTab)
            && (world.click.SameTab? ==> a.effects[|a.effects| - 1] == GoBack)
            && (!world.click.Popup? && !world.click.SameTab? ==> a.effects == [OpenFromRow] && !a.success)
  {
  }

  /** The tally `download_pdfs_for_rows` returns, with the directory state
      the attempts leave behind. */
  datatype Tally = Tally(ok: nat, fail: nat, stored: set<string>)

  /** One row of the batch: `attempt` is the per-row retrieval (the crawler
      passes DownloadPdfForRow), and a success leaves `destination(row)` in
      the artifact directory. */
  function TallyStep(t: Tally, row: Row, attempt: (Row, set<string>) -> Attempt, destination: Row -> string): Tally {
    if attempt(row, t.stored).success then Tally(t.ok + 1, t.fail, t.stored + {destination(row)})
    else Tally(t.ok, t.fail + 1, t.stored)
  }

  /** The rows attempted, in order, one attempt each. */
  function TallyAll(rows: seq<Row>, t: Tally, attempt: (Row, set<string>) -> Attempt, destination: Row -> string): Tally
    decreases |rows|
  {
    if rows == [] then t else TallyAll(rows[1..], TallyStep(t, rows[0], attempt, destination), attempt, destination)
  }

  /** Every attempted row is counted exactly once, and files are only
      added. */
  lemma {:induction false} TallyAllCounts(rows: seq<Row>, t: Tally, attempt: (Row, set<string>) -> Attempt, destination: Row -> string)
    ensures var r := TallyAll(rows, t, attempt, destination);
            r.ok + r.fail == t.ok + t.fail + |rows| && t.ok <= r.ok && t.fail <= r.fail && t.stored <= r.stored
  {
    if rows != [] {
      TallyAllCounts(rows[1..], TallyStep(t, rows[0], attempt, destination), attempt, destination);
    }
  }

  /** Tallying a batch in two parts is tallying the whole batch. */
  lemma {:induction false} TallyAllAppend(a: seq<Row>, b: seq<Row>, t: Tally, attempt: (Row, set<string>) -> Attempt, destination: Row -> string)
    ensures TallyAll(a + b, t, attempt, destination) == TallyAll(b, TallyAll(a, t, attempt, destination), attempt, destination)
  {
    if a == [] {
      assert a + b == b;
    } else {
      assert (a + b)[0] == a[0] && (a + b)[1..] == a[1..] + b;
      TallyAllAppend(a[1..], b, TallyStep(t, a[0], attempt, destination), attempt, destination);
    }
  }

  /** A file a row of the batch leaves behind is still there for every
      later row. */
  lemma TallyAllKeepsFile(rows: seq<Row>, t: Tally, attempt: (Row, set<string>) -> Attempt, destination: Row -> string, i: nat, j: nat)
    requires i < j <= |rows|
    requires attempt(rows[i], TallyAll(rows[..i], t, attempt, destination).stored).success
    ensures destination(rows[i]) in TallyAll(rows[..j], t, attempt, destination).stored
  {
    var before := TallyAll(rows[..i], t, attempt, destination);
    var after := TallyStep(before, rows[i], attempt, destination);
    assert rows[..j] == rows[..i] + ([rows[i]] + rows[i + 1..j]);
    TallyAllAppend(rows[..i], [rows[i]] + rows[i + 1..j], t, attempt, destination);
    TallyAllAppend([rows[i]], rows[i + 1..j], before, attempt, destination);
    assert [rows[i]][1..] == [];
    assert TallyAll([rows[i]], before, attempt, destination) == after;
    TallyAllCounts(rows[i + 1..j], after, attempt, destination);
  }

  /** Within one batch, once a record's artifact has been retrieved, any
      later row of the batch with the same artifact finds the file and
      performs no action. */
  lemma TallyAllLaterRowFindsFile(rows: seq<Row>, t: Tally, site: Site, i: nat, j: nat)
    requires i < j < |rows|
    requires DownloadPdfForRow(rows[i], TallyAll(rows[..i], t, RowAttempt(site), RowDestination(site)).stored, site).success
    requires Destination(rows[j], site) == Destination(rows[i], site)
    ensures DownloadPdfForRow(rows[j], TallyAll(rows[..j], t, RowAttempt(site), RowDestination(site)).stored, site)
            == Attempt(true, "letezik", [])
  {
    TallyAllKeepsFile(rows, t, RowAttempt(site), RowDestination(site), i, j);
  }

  /** `rows[:max_per_query] if max_per_query > 0 else rows`. */
  function SelectedRows(rows: seq<Row>, maxPerQuery: int): (selected: seq<Row>)
    ensures maxPerQuery > 0 ==> |selected| == if |rows| < maxPerQuery then |rows| else maxPerQuery
    ensures maxPerQuery <= 0 ==> selected == rows
    ensures selected == rows[..|selected|]
  {
    if maxPerQuery > 0 && maxPerQuery < |rows| then rows[..maxPerQuery] else rows
  }

  /** `download_pdfs_for_rows`: one attempt per selected row, in order,
      counting successes and failures. */
  method DownloadPdfsForRows(rows: seq<Row>, maxPerQuery: int, stored0: set<string>,
                             attempt: (Row, set<string>) -> Attempt, destination: Row -> string)
    returns (ok: nat, fail: nat, stored: set<string>)
    ensures Tally(ok, fail, stored) == TallyAll(SelectedRows(rows, maxPerQuery), Tally(0, 0, stored0), attempt, destination)
    ensures ok + fail == |SelectedRows(rows, maxPerQuery)|
    ensures maxPerQuery > 0 ==> ok + fail <= maxPerQuery
    ensures stored0 <= stored
  {
    var selected := SelectedRows(rows, maxPerQuery);
    ok, fail, stored := 0, 0, stored0;
    var i := 0;
    while i < |selected|
      invariant 0 <= i <= |selected|
      invariant TallyAll(selected[i..], Tally(ok, fail, stored), attempt, destination)
                == TallyAll(selected, Tally(0, 0, stored0), attempt, destination)
      invariant ok + fail == i && stored0 <= stored
    {
      assert selected[i..][1..] == selected[i + 1..];
      var result := attempt(selected[i], stored);
      if result.success {
        ok := ok + 1;
        stored := stored + {destination(selected[i])};
      } else {
        fail := fail + 1;
      }
      i := i + 1;
    }
  }
}
