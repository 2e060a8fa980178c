/** `scrape_static` of static-data-scraping.py (lines 9-33): a recursive crawl under `BASE_URL`
    with a visited set. The fetched web is the finite map `web` from a URL to its parsed
    response; a URL that is not a key makes `requests.get` or the parse raise. `urljoin` is an
    oracle. */
module StaticCrawl {
  import opened Text
  import opened Scraped
  import DynamicCrawl

  const BaseUrl := "https://www.madewithnestle.ca/"

  /** The module-level `visited` set and `all_data` list. */
  datatype State = State(visited: set<string>, pages: seq<Page>)

  /** Line 19: every `href` resolved against `BASE_URL`, not against the page's own URL. */
  function StaticLinks(r: Rendered, urljoin: (string, string) -> string): (links: seq<string>)
    ensures |links| == |r.hrefs|
    ensures forall k :: 0 <= k < |r.hrefs| ==> links[k] == urljoin(BaseUrl, r.hrefs[k])
  {
    seq(|r.hrefs|, k requires 0 <= k < |r.hrefs| => urljoin(BaseUrl, r.hrefs[k]))
  }

  /** The record appended at lines 22-27 (without `images`): the text is not stripped. */
  function StaticPage(url: string, r: Rendered, urljoin: (string, string) -> string): Page {
    Page(url, r.text, StaticLinks(r, urljoin))
  }

  /** The static crawler's links do not depend on the page they were found on: for `href`s without
      a fragment they are the links the dynamic crawler would find on the base page itself,
      whatever the page's own URL. */
  lemma StaticLinksAsFromBase(url: string, r: Rendered, urljoin: (string, string) -> string)
    requires forall k :: 0 <= k < |r.hrefs| ==> '#' !in r.hrefs[k]
    ensures StaticPage(url, r, urljoin).links == DynamicCrawl.ScrapePage(BaseUrl, r, urljoin).links
  {
    var a, b := StaticPage(url, r, urljoin).links, DynamicCrawl.ScrapePage(BaseUrl, r, urljoin).links;
    forall k | 0 <= k < |r.hrefs|
      ensures a[k] == b[k]
    {
      DynamicCrawl.BeforeHashNoHash(r.hrefs[k]);
    }
  }

  /** `u` is a link on one of the pages of `pages[from..]`. */
  predicate LinkedFrom(u: string, pages: seq<Page>, from: nat) {
    exists i :: from <= i < |pages| && u in pages[i].links
  }

  lemma LinkedFromWider(u: string, pages: seq<Page>, from: nat, more: seq<Page>, from': nat)
    requires LinkedFrom(u, pages, from) && pages <= more && from' <= from
    ensures LinkedFrom(u, more, from')
  {
    var i :| from <= i < |pages| && u in pages[i].links;
    assert more[i] == pages[i];
  }

  /** Every page in `pages[from..]` is the record of a URL that loaded, and was newly visited
      between `before` and `after`. */
  predicate NewPagesOk(pages: seq<Page>, from: nat, before: set<string>, after: set<string>,
                       web: map<string, Rendered>, urljoin: (string, string) -> string)
    requires from <= |pages|
  {
    forall i :: from <= i < |pages| ==>
      && pages[i].url in after && pages[i].url !in before
      && pages[i].url in web && pages[i] == StaticPage(pages[i].url, web[pages[i].url], urljoin)
  }

  /** Every link under `BASE_URL` of the pages in `pages[from..]` is visited. */
  predicate LinksVisited(pages: seq<Page>, from: nat, visited: set<string>)
    requires from <= |pages|
  {
    forall i, l :: from <= i < |pages| && l in pages[i].links && StartsWith(l, BaseUrl) ==> l in visited
  }

  /** The URLs of the recorded pages. */
  function PageUrls(pages: seq<Page>): set<string> {
    set i | 0 <= i < |pages| :: pages[i].url
  }

  /** What the crawl keeps true of its state: each visited URL is under `BASE_URL`, and it has a
      record exactly when it loaded; no URL is recorded twice. */
  predicate Accounted(st: State, web: map<string, Rendered>) {
    && DistinctUrls(st.pages)
    && (forall u :: u in st.visited ==> StartsWith(u, BaseUrl))
    && (forall u :: u in st.visited ==> (u in web <==> u in PageUrls(st.pages)))
    && PageUrls(st.pages) <= st.visited
  }

  /** Marking a new URL under `BASE_URL` visited, with its record when it loaded, keeps the
      accounting. */
  lemma {:induction false} VisitKeepsAccounted(st: State, url: string, web: map<string, Rendered>, p: Page)
    requires url !in st.visited && StartsWith(url, BaseUrl) && p.url == url
    ensures Accounted(st, web) && url !in web ==> Accounted(State(st.visited + {url}, st.pages), web)
    ensures Accounted(st, web) && url in web ==> Accounted(State(st.visited + {url}, st.pages + [p]), web)
  {
    if !Accounted(st, web) { return; }
    var pages := st.pages + [p];
    assert PageUrls(pages) == PageUrls(st.pages) + {url} by {
      assert forall i :: 0 <= i < |st.pages| ==> pages[i] == st.pages[i];
      assert pages[|st.pages|] == p;
    }
    assert forall i :: 0 <= i < |st.pages| ==> st.pages[i].url in PageUrls(st.pages);
  }

  /** `scrape_static(url)` (lines 9-33) from state `st`. */
  function ScrapeStatic(url: string, st: State, web: map<string, Rendered>, urljoin: (string, string) -> string)
    : (r: State)
    ensures st.visited <= r.visited && st.pages <= r.pages
    ensures StartsWith(url, BaseUrl) ==> url in r.visited
    ensures url in st.visited || !StartsWith(url, BaseUrl) ==> r == st
    ensures url !in st.visited && StartsWith(url, BaseUrl) && url !in web ==>
      r == State(st.visited + {url}, st.pages)
    ensures url !in st.visited && StartsWith(url, BaseUrl) && url in web ==>
      |r.pages| > |st.pages| && r.pages[|st.pages|] == StaticPage(url, web[url], urljoin)
    ensures NewPagesOk(r.pages, |st.pages|, st.visited, r.visited, web, urljoin)
    ensures LinksVisited(r.pages, |st.pages|, r.visited)
    ensures Accounted(st, web) ==> Accounted(r, web)
    decreases web.Keys - st.visited, 0
  {
    if url in st.visited || !StartsWith(url, BaseUrl) then st
    else
      var visited := st.visited + {url};
      var page := StaticPage(url, if url in web then web[url] else Rendered("", []), urljoin);
      VisitKeepsAccounted(st, url, web, page);
      if url !in web then State(visited, st.pages)
      else
        var st1 := State(visited, st.pages + [page]);
        var r := ScrapeLinks(page.links, 0, st1, web, urljoin);
        assert r.pages[|st.pages|] == st1.pages[|st.pages|] == page;
        r
  }

  /** The loop of lines 29-30 from link `i` on. */
  function ScrapeLinks(links: seq<string>, i: nat, st: State, web: map<string, Rendered>,
                       urljoin: (string, string) -> string): (r: State)
    requires i <= |links|
    ensures st.visited <= r.visited && st.pages <= r.pages
    ensures forall j :: i <= j < |links| && StartsWith(links[j], BaseUrl) ==> links[j] in r.visited
    ensures NewPagesOk(r.pages, |st.pages|, st.visited, r.visited, web, urljoin)
    ensures forall j, l :: |st.pages| <= j < |r.pages| && l in r.pages[j].links && StartsWith(l, BaseUrl) ==>
      l in r.visited
    ensures LinksVisited(st.pages, 0, st.visited) ==> LinksVisited(r.pages, 0, r.visited)
    ensures Accounted(st, web) ==> Accounted(r, web)
    decreases web.Keys - st.visited, 1, |links| - i
  {
    if i == |links| then st
    else
      var st1 := ScrapeStatic(links[i], st, web, urljoin);
      ScrapeLinks(links, i + 1, st1, web, urljoin)
  }

  /** Nothing is visited that the crawl did not reach: a URL newly visited by `scrape_static(url)`
      is `url` itself or a link on one of the pages it recorded. */
  lemma {:induction false} ScrapeStaticSound(url: string, st: State, web: map<string, Rendered>,
                                             urljoin: (string, string) -> string)
    ensures var r := ScrapeStatic(url, st, web, urljoin);
      forall u :: u in r.visited && u !in st.visited ==> u == url || LinkedFrom(u, r.pages, |st.pages|)
    decreases web.Keys - st.visited, 0
  {
    if url !in st.visited && StartsWith(url, BaseUrl) && url in web {
      var page := StaticPage(url, web[url], urljoin);
      var st1 := State(st.visited + {url}, st.pages + [page]);
      var r := ScrapeLinks(page.links, 0, st1, web, urljoin);
      assert r == ScrapeStatic(url, st, web, urljoin);
      ScrapeLinksSound(page.links, 0, st1, web, urljoin);
      assert r.pages[|st.pages|] == page;
      forall u | u in r.visited && u !in st.visited && u != url
        ensures LinkedFrom(u, r.pages, |st.pages|)
      {
        if LinkedFrom(u, r.pages, |st1.pages|) {
          LinkedFromWider(u, r.pages, |st1.pages|, r.pages, |st.pages|);
        } else {
          var j :| 0 <= j < |page.links| && page.links[j] == u;
          assert u in r.pages[|st.pages|].links;
        }
      }
    }
  }

  /** A URL newly visited by the loop over `links[i..]` is one of those links or a link on one of
      the pages recorded meanwhile. */
  lemma {:induction false} ScrapeLinksSound(links: seq<string>, i: nat, st: State, web: map<string, Rendered>,
                                            urljoin: (string, string) -> string)
    requires i <= |links|
    ensures var r := ScrapeLinks(links, i, st, web, urljoin);
      forall u :: u in r.visited && u !in st.visited ==>
        (exists j :: i <= j < |links| && links[j] == u) || LinkedFrom(u, r.pages, |st.pages|)
    decreases web.Keys - st.visited, 1, |links| - i
  {
    if i < |links| {
      var st1 := ScrapeStatic(links[i], st, web, urljoin);
      var r := ScrapeLinks(links, i + 1, st1, web, urljoin);
      ScrapeStaticSound(links[i], st, web, urljoin);
      ScrapeLinksSound(links, i + 1, st1, web, urljoin);
      forall u | u in r.visited && u !in st.visited && !LinkedFrom(u, r.pages, |st.pages|)
        ensures exists j :: i <= j < |links| && links[j] == u
      {
        if u in st1.visited {
          if LinkedFrom(u, st1.pages, |st.pages|) {
            LinkedFromWider(u, st1.pages, |st.pages|, r.pages, |st.pages|);
          }
          assert links[i] == u;
        } else {
          var j :| i + 1 <= j < |links| && links[j] == u;
        }
      }
    }
  }

  /** The run of line 35, `scrape_static(BASE_URL)` from empty state: the records are those of
      distinct URLs that loaded, the first is the base page's when it loaded, and every link under
      `BASE_URL` on any recorded page was visited. */
  function ScrapeSite(web: map<string, Rendered>, urljoin: (string, string) -> string): (r: State)
    ensures BaseUrl in r.visited
    ensures Accounted(r, web)
    ensures NewPagesOk(r.pages, 0, {}, r.visited, web, urljoin)
    ensures LinksVisited(r.pages, 0, r.visited)
    ensures BaseUrl in web <==> |r.pages| > 0
    ensures BaseUrl in web ==> r.pages[0] == StaticPage(BaseUrl, web[BaseUrl], urljoin)
    ensures forall u :: u in r.visited ==> u == BaseUrl || LinkedFrom(u, r.pages, 0)
  {
    ScrapeStaticSound(BaseUrl, State({}, []), web, urljoin);
    ScrapeStatic(BaseUrl, State({}, []), web, urljoin)
  }
}
