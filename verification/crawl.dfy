/**
 * `PDFSearcher` (dod_spending.py:46-98): search, dispatch each result URL,
 * HEAD-check PDF candidates, collect the admitted ones in a set.
 *
 * The network, the search provider, the HTML parser and `urljoin` are
 * oracles bundled in a `Web` value. The worker pools are run sequentially.
 * A set insertion commutes with every other insertion, so the order the
 * workers would run in does not change the final set (`FindsOverOrderIndependent`).
 * The shared `pdf_links` set is threaded through the methods as a value.
 */
module Crawl {
  import opened Basics
  import opened Text

  const PDF_SUFFIX: string := ".pdf"
  /** The only HEAD status that admits a URL. */
  const OK_STATUS: int := 200
  /** `Config.search_results_limit`. */
  const SEARCH_RESULTS_LIMIT: nat := 15

  /** Outcome of `session.head(url, allow_redirects=True)`: a status, or a raised `RequestException`. */
  datatype HeadReply = HeadStatus(code: int) | HeadFailure

  /**
   * Outcome of `session.get(url)` followed by parsing: the final status and
   * the `href` of every `<a>` that has one, in document order; or a failure
   * raised by the transport or the parser.
   */
  datatype PageReply = PageStatus(status: int, hrefs: seq<string>) | PageFailure

  /** Outcome of `list(search(query, num_results=limit))`. */
  datatype SearchReply = Results(urls: seq<string>) | SearchFailure

  /**
   * The outside world as the crawl sees it. `join(base, href)` is `urljoin`;
   * `None` stands for the `ValueError` it can raise.
   */
  datatype Web = Web(
    head: string -> HeadReply,
    get: string -> PageReply,
    join: (string, string) -> Option<string>,
    search: (string, nat) -> SearchReply)

  /** `url.endswith(".pdf")`. */
  predicate IsPdfUrl(url: string)
  {
    EndsWith(url, PDF_SUFFIX)
  }

  /** The HEAD check answers exactly 200. */
  predicate Admits(web: Web, url: string)
  {
    web.head(url) == HeadStatus(OK_STATUS)
  }

  /** `response.raise_for_status()` raises for client and server error statuses. */
  predicate RaisesForStatus(status: int)
  {
    400 <= status < 600
  }

  /**
   * The comprehension at dod_spending.py:91-92: every href ending in `.pdf`,
   * resolved against `base`; `None` when one of those resolutions raises.
   */
  function PdfUrls(web: Web, base: string, hrefs: seq<string>): (r: Option<seq<string>>)
    ensures r.None? <==> exists h :: h in hrefs && IsPdfUrl(h) && web.join(base, h).None?
    ensures r.Some? ==> |r.value| <= |hrefs|
    ensures r.Some? ==> forall c :: c in r.value <==>
              exists h :: h in hrefs && IsPdfUrl(h) && web.join(base, h) == Some(c)
  {
    if hrefs == [] then Some([])
    else
      var rest := PdfUrls(web, base, hrefs[1..]);
      assert forall h :: h in hrefs <==> h == hrefs[0] || h in hrefs[1..];
      if !IsPdfUrl(hrefs[0]) then rest
      else match web.join(base, hrefs[0])
        case None => None
        case Some(c) => if rest.None? then None else Some([c] + rest.value)
  }

  /**
   * The links a non-PDF search result offers for HEAD checks: none when the
   * fetch fails, its status raises or a single resolution raises; otherwise
   * exactly the resolved `.pdf` hrefs of that one page.
   */
  function PageCandidates(web: Web, url: string): (r: seq<string>)
    ensures forall c :: c in r ==>
              && web.get(url).PageStatus?
              && !RaisesForStatus(web.get(url).status)
              && exists h :: h in web.get(url).hrefs && IsPdfUrl(h) && web.join(url, h) == Some(c)
    ensures web.get(url).PageStatus? && !RaisesForStatus(web.get(url).status)
              && PdfUrls(web, url, web.get(url).hrefs).Some? ==>
              forall h :: h in web.get(url).hrefs && IsPdfUrl(h) ==> web.join(url, h).value in r
    ensures web.get(url).PageStatus? && PdfUrls(web, url, web.get(url).hrefs).None? ==> r == []
  {
    match web.get(url)
    case PageFailure => []
    case PageStatus(status, hrefs) =>
      if RaisesForStatus(status) then []
      else match PdfUrls(web, url, hrefs)
        case None => []
        case Some(cs) => cs
  }

  /** What `_scrape_page_for_pdfs` adds: the page's candidates that pass the HEAD check. */
  function PageFinds(web: Web, url: string): set<string>
  {
    set c | c in PageCandidates(web, url) && Admits(web, c)
  }

  /** What `_process_url` adds for one search result. */
  function UrlFinds(web: Web, url: string): set<string>
  {
    if IsPdfUrl(url) then (if Admits(web, url) then {url} else {})
    else PageFinds(web, url)
  }

  /** What processing every URL of `urls` adds. */
  function FindsOver(web: Web, urls: seq<string>): (r: set<string>)
    ensures forall u :: u in r ==> Admits(web, u)
  {
    if urls == [] then {}
    else FindsOver(web, urls[..|urls| - 1]) + UrlFinds(web, urls[|urls| - 1])
  }

  /** The set `find_pdf_links(query)` returns. */
  function QueryFinds(web: Web, query: string): set<string>
  {
    match web.search(query, SEARCH_RESULTS_LIMIT)
    case SearchFailure => {}
    case Results(urls) => FindsOver(web, urls)
  }

  /** `u` is a URL that search result `url` puts up for a HEAD check. */
  predicate Offers(web: Web, url: string, u: string)
  {
    if IsPdfUrl(url) then u == url else u in PageCandidates(web, url)
  }

  /**
   * A URL is collected from `urls` exactly when one of them offers it (as
   * itself, if it ends in `.pdf`, or as a link extracted from its page) and
   * its HEAD check answers 200.
   */
  lemma {:induction false} FindsOverMembership(web: Web, urls: seq<string>, u: string)
    ensures u in FindsOver(web, urls) <==>
              Admits(web, u) && exists i :: 0 <= i < |urls| && Offers(web, urls[i], u)
  {
    if urls != [] {
      var init := urls[..|urls| - 1];
      var last := urls[|urls| - 1];
      FindsOverMembership(web, init, u);
      UrlFindsMembership(web, last, u);
      if exists i :: 0 <= i < |urls| && Offers(web, urls[i], u) {
        var i :| 0 <= i < |urls| && Offers(web, urls[i], u);
        if i < |init| {
          assert Offers(web, init[i], u);
        }
      }
      if exists i :: 0 <= i < |init| && Offers(web, init[i], u) {
        var i :| 0 <= i < |init| && Offers(web, init[i], u);
        assert Offers(web, urls[i], u);
      }
    }
  }

  /** One search result contributes exactly the admitted URLs it offers. */
  lemma UrlFindsMembership(web: Web, url: string, u: string)
    ensures u in UrlFinds(web, url) <==> Admits(web, u) && Offers(web, url, u)
  {
  }

  /**
   * The result of a query: empty when the search fails; otherwise exactly the
   * admitted URLs some search result offers.
   */
  lemma QueryFindsMembership(web: Web, query: string, u: string)
    ensures u in QueryFinds(web, query) <==>
              && web.search(query, SEARCH_RESULTS_LIMIT).Results?
              && Admits(web, u)
              && exists i :: 0 <= i < |web.search(query, SEARCH_RESULTS_LIMIT).urls|
                               && Offers(web, web.search(query, SEARCH_RESULTS_LIMIT).urls[i], u)
  {
    if web.search(query, SEARCH_RESULTS_LIMIT).Results? {
      FindsOverMembership(web, web.search(query, SEARCH_RESULTS_LIMIT).urls, u);
    }
  }

  /** The order in which the search results are processed does not change the set. */
  lemma FindsOverOrderIndependent(web: Web, a: seq<string>, b: seq<string>)
    requires multiset(a) == multiset(b)
    ensures FindsOver(web, a) == FindsOver(web, b)
  {
    forall u ensures u in FindsOver(web, a) <==> u in FindsOver(web, b) {
      FindsOverMembership(web, a, u);
      FindsOverMembership(web, b, u);
      forall i | 0 <= i < |a| ensures a[i] in b {
        assert a[i] in multiset(b);
      }
      forall i | 0 <= i < |b| ensures b[i] in a {
        assert b[i] in multiset(a);
      }
    }
  }

  /**
   * Only non-PDF search results are ever fetched as pages, and nothing found
   * on a page is fetched: two worlds that differ only in what GET returns
   * elsewhere yield the same set.
   */
  lemma {:induction false} FindsOverFrame(web1: Web, web2: Web, urls: seq<string>)
    requires forall u :: web1.head(u) == web2.head(u)
    requires forall b, h :: web1.join(b, h) == web2.join(b, h)
    requires forall i :: 0 <= i < |urls| && !IsPdfUrl(urls[i]) ==> web1.get(urls[i]) == web2.get(urls[i])
    ensures FindsOver(web1, urls) == FindsOver(web2, urls)
  {
    if urls != [] {
      var init := urls[..|urls| - 1];
      var last := urls[|urls| - 1];
      FindsOverFrame(web1, web2, init);
      if !IsPdfUrl(last) {
        var hrefs := if web1.get(last).PageStatus? then web1.get(last).hrefs else [];
        PdfUrlsFrame(web1, web2, last, hrefs);
      }
    }
  }

  lemma {:induction false} PdfUrlsFrame(web1: Web, web2: Web, base: string, hrefs: seq<string>)
    requires forall b, h :: web1.join(b, h) == web2.join(b, h)
    ensures PdfUrls(web1, base, hrefs) == PdfUrls(web2, base, hrefs)
  {
    if hrefs != [] {
      PdfUrlsFrame(web1, web2, base, hrefs[1..]);
    }
  }

  /** The query-level form of `FindsOverFrame`. */
  lemma QueryFindsFrame(web1: Web, web2: Web, query: string)
    requires web1.search(query, SEARCH_RESULTS_LIMIT) == web2.search(query, SEARCH_RESULTS_LIMIT)
    requires forall u :: web1.head(u) == web2.head(u)
    requires forall b, h :: web1.join(b, h) == web2.join(b, h)
    requires web1.search(query, SEARCH_RESULTS_LIMIT).Results? ==>
               var urls := web1.search(query, SEARCH_RESULTS_LIMIT).urls;
               forall i :: 0 <= i < |urls| && !IsPdfUrl(urls[i]) ==> web1.get(urls[i]) == web2.get(urls[i])
    ensures QueryFinds(web1, query) == QueryFinds(web2, query)
  {
    if web1.search(query, SEARCH_RESULTS_LIMIT).Results? {
      FindsOverFrame(web1, web2, web1.search(query, SEARCH_RESULTS_LIMIT).urls);
    }
  }

  /** `_check_direct_pdf`: insert `url` when its HEAD check answers exactly 200. */
  method CheckDirectPdf(web: Web, url: string, links: set<string>) returns (links': set<string>)
    ensures links' == if Admits(web, url) then links + {url} else links
  {
    links' := links;
    match web.head(url) {
      case HeadFailure =>
      case HeadStatus(code) =>
        if code == OK_STATUS {
          links' := links + {url};
        }
    }
  }

  /** `_scrape_page_for_pdfs`: fetch the page once and HEAD-check each extracted `.pdf` link. */
  method ScrapePageForPdfs(web: Web, url: string, links: set<string>) returns (links': set<string>)
    ensures links' == links + PageFinds(web, url)
  {
    links' := links;
    match web.get(url) {
      case PageFailure =>
      case PageStatus(status, hrefs) =>
        if !RaisesForStatus(status) {
          match PdfUrls(web, url, hrefs) {
            case None =>
            case Some(candidates) =>
              var i := 0;
              while i < |candidates|
                invariant 0 <= i <= |candidates|
                invariant links' == links + set c | c in candidates[..i] && Admits(web, c)
              {
                links' := CheckDirectPdf(web, candidates[i], links');
                assert candidates[..i + 1] == candidates[..i] + [candidates[i]];
                i := i + 1;
              }
              assert candidates[..i] == candidates;
          }
        }
    }
  }

  /** `_process_url`: a `.pdf` URL is HEAD-checked directly, any other is scraped. */
  method ProcessUrl(web: Web, url: string, links: set<string>) returns (links': set<string>)
    ensures links' == links + UrlFinds(web, url)
  {
    if IsPdfUrl(url) {
      links' := CheckDirectPdf(web, url, links);
    } else {
      links' := ScrapePageForPdfs(web, url, links);
    }
  }

  /**
   * `find_pdf_links`: search, then process every result URL into one set.
   * A failed search gives the empty set.
   */
  method FindPdfLinks(web: Web, query: string) returns (links: set<string>)
    ensures links == QueryFinds(web, query)
    ensures web.search(query, SEARCH_RESULTS_LIMIT).SearchFailure? ==> links == {}
    ensures forall u :: u in links ==> Admits(web, u)
  {
    links := {};
    match web.search(query, SEARCH_RESULTS_LIMIT) {
      case SearchFailure =>
      case Results(urls) =>
        var i := 0;
        while i < |urls|
          invariant 0 <= i <= |urls|
          invariant links == FindsOver(web, urls[..i])
        {
          links := ProcessUrl(web, urls[i], links);
          assert urls[..i + 1][..i] == urls[..i];
          i := i + 1;
        }
        assert urls[..i] == urls;
    }
  }
}
