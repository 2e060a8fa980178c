/** `crawl_site` of dynamic-content-scraping.py: a depth-first crawl over a stack of URLs with a
    visited set, saving scraped pages in batches of 20. The rendered web is the finite map `web`
    from a URL to what the browser renders for it; a URL that is not a key fails to load. The
    library functions `urljoin` and `urlparse(...).netloc` are the oracles `urljoin` and `netloc`. */
module DynamicCrawl {
  import opened Common
  import opened Text
  import opened Scraped

  const BaseDomain := "www.madewithnestle.ca"
  const StartUrl := "https://" + BaseDomain
  const SaveBatchSize := 20

  /** `link.split('#')[0]`: the part of `link` before its first `#`. */
  function BeforeHash(link: string): (r: string)
    ensures r <= link
    ensures '#' !in r
    ensures |r| < |link| ==> link[|r|] == '#'
  {
    if |link| == 0 || link[0] == '#' then "" else [link[0]] + BeforeHash(link[1..])
  }

  /** `normalize_url(base, link)` (lines 19-20). */
  function NormalizeUrl(urljoin: (string, string) -> string, base: string, link: string): string {
    urljoin(base, BeforeHash(link))
  }

  lemma {:induction false} BeforeHashOfFragment(link: string, frag: string)
    requires '#' !in link
    ensures BeforeHash(link + "#" + frag) == link
    decreases |link|
  {
    if |link| == 0 {
      assert (link + "#" + frag)[0] == '#';
    } else {
      assert (link + "#" + frag)[1..] == link[1..] + "#" + frag;
      assert link[0] != '#' by {
        assert link[0] in link;
      }
      BeforeHashOfFragment(link[1..], frag);
      assert link == [link[0]] + link[1..];
    }
  }

  /** A fragment makes no difference to the normalized URL: links that differ only after their
      first `#` are queued as the same URL. */
  lemma FragmentIgnored(urljoin: (string, string) -> string, base: string, link: string, frag: string)
    requires '#' !in link
    ensures NormalizeUrl(urljoin, base, link + "#" + frag) == NormalizeUrl(urljoin, base, link)
  {
    BeforeHashOfFragment(link, frag);
    BeforeHashNoHash(link);
  }

  lemma {:induction false} BeforeHashNoHash(link: string)
    requires '#' !in link
    ensures BeforeHash(link) == link
    decreases |link|
  {
    if |link| > 0 {
      assert link[0] in link;
      assert forall c :: c in link[1..] ==> c in link;
      BeforeHashNoHash(link[1..]);
      assert link == [link[0]] + link[1..];
    }
  }

  /** `is_internal_link(url)` (lines 16-17): a relative URL or one on the site's own host. */
  predicate IsInternalLink(netloc: string -> string, url: string) {
    netloc(url) == "" || netloc(url) == BaseDomain
  }

  /** `scrape_page(page, url)` (lines 22-39) on what the browser rendered: the stripped text, and
      every `href` normalized against the page's own URL. */
  function ScrapePage(url: string, r: Rendered, urljoin: (string, string) -> string): (p: Page)
    ensures p.url == url && p.text == Strip(r.text)
    ensures |p.links| == |r.hrefs|
    ensures forall k :: 0 <= k < |r.hrefs| ==> p.links[k] == NormalizeUrl(urljoin, url, r.hrefs[k])
  {
    Page(url, Strip(r.text), seq(|r.hrefs|, k requires 0 <= k < |r.hrefs| => NormalizeUrl(urljoin, url, r.hrefs[k])))
  }

  /** A scraped page's text is already stripped, and every link is the page's URL joined with a
      `#`-free prefix of its `href`. The links depend on the page's own URL, unlike the static
      crawler's. */
  lemma ScrapedPageNormal(url: string, r: Rendered, urljoin: (string, string) -> string)
    ensures Strip(ScrapePage(url, r, urljoin).text) == ScrapePage(url, r, urljoin).text
    ensures forall k :: 0 <= k < |r.hrefs| ==> ScrapedLinkShape(url, r.hrefs[k], ScrapePage(url, r, urljoin).links[k], urljoin)
  {
    var p := ScrapePage(url, r, urljoin);
    assert p.text == Strip(r.text);
    StripIdempotent(r.text);
    forall k | 0 <= k < |r.hrefs|
      ensures ScrapedLinkShape(url, r.hrefs[k], p.links[k], urljoin)
    {
      NormalizedShape(url, r.hrefs[k], urljoin);
    }
  }

  lemma NormalizedShape(url: string, href: string, urljoin: (string, string) -> string)
    ensures ScrapedLinkShape(url, href, NormalizeUrl(urljoin, url, href), urljoin)
  {
    var l := BeforeHash(href);
    assert l == href[..|l|];
  }

  /** `link` is `url` joined with a prefix of `href` that has no `#`. */
  predicate ScrapedLinkShape(url: string, href: string, link: string, urljoin: (string, string) -> string) {
    exists n :: 0 <= n <= |href| && '#' !in href[..n] && link == urljoin(url, href[..n])
  }

  /** The links the loop of lines 81-83 pushes, in order: the internal ones not yet visited. */
  function Pushed(links: seq<string>, visited: set<string>, netloc: string -> string): (r: seq<string>)
    ensures forall l :: l in r <==> l in links && IsInternalLink(netloc, l) && l !in visited
  {
    if |links| == 0 then []
    else
      var rest := Pushed(links[1..], visited, netloc);
      assert forall l :: l in links <==> l == links[0] || l in links[1..];
      if IsInternalLink(netloc, links[0]) && links[0] !in visited then [links[0]] + rest else rest
  }

  /** Pushing distributes over the page's link list: the links of `a + b` are pushed as those of
      `a` followed by those of `b`. */
  lemma {:induction false} PushedAppend(a: seq<string>, b: seq<string>, visited: set<string>, netloc: string -> string)
    ensures Pushed(a + b, visited, netloc) == Pushed(a, visited, netloc) + Pushed(b, visited, netloc)
    decreases |a|
  {
    if |a| == 0 {
      assert a + b == b;
    } else {
      assert (a + b)[0] == a[0] && (a + b)[1..] == a[1..] + b;
      PushedAppend(a[1..], b, visited, netloc);
    }
  }

  /** The pushes keep the links' order and repetitions: a link in the middle of the list is pushed,
      in its place, exactly when it is internal and not visited. Since the stack pops its top, the
      page's last such link is visited next. */
  lemma PushedInPlace(a: seq<string>, l: string, b: seq<string>, visited: set<string>, netloc: string -> string)
    ensures Pushed(a + [l] + b, visited, netloc) ==
      Pushed(a, visited, netloc) + (if IsInternalLink(netloc, l) && l !in visited then [l] else [])
        + Pushed(b, visited, netloc)
  {
    PushedAppend(a + [l], b, visited, netloc);
    PushedAppend(a, [l], visited, netloc);
    assert [l][1..] == [];
  }

  /** One saved file: `madewithnestle_scraped_<index>.json` and its pages. */
  datatype Batch = Batch(index: nat, pages: seq<Page>)

  /** The crawler's state: `visited`, the stack `to_visit`, the unsaved `scraped_data`,
      `file_index`, the batches saved so far and `failed_urls`. */
  datatype Crawl = Crawl(visited: set<string>, toVisit: seq<string>, buffer: seq<Page>, fileIndex: nat,
                         saved: seq<Batch>, failed: seq<string>)

  predicate IsHttp(url: string) {
    StartsWith(url, "http")
  }

  /** One turn of the loop of lines 64-87. */
  function Step(s: Crawl, web: map<string, Rendered>, urljoin: (string, string) -> string,
                netloc: string -> string): (s': Crawl)
    requires |s.toVisit| > 0
    ensures var n := |s.toVisit|; var x := s.toVisit[n - 1];
      && |s'.toVisit| >= n - 1
      && s'.toVisit[..n - 1] == s.toVisit[..n - 1]
      && s'.visited == (if IsHttp(x) then s.visited + {x} else s.visited)
      && (x in s.visited || !IsHttp(x) ==> s' == s.(toVisit := s.toVisit[..n - 1]))
      && (x !in s.visited && IsHttp(x) && x !in web ==>
            s' == s.(visited := s.visited + {x}, toVisit := s.toVisit[..n - 1], failed := s.failed + [x]))
      && (x !in s.visited && IsHttp(x) && x in web ==>
            && s'.failed == s.failed
            && s'.toVisit[n - 1..] == Pushed(ScrapePage(x, web[x], urljoin).links, s.visited + {x}, netloc))
  {
    var n := |s.toVisit|;
    var x := s.toVisit[n - 1];
    var rest := s.toVisit[..n - 1];
    if x in s.visited || !IsHttp(x) then s.(toVisit := rest)
    else
      var visited := s.visited + {x};
      if x !in web then s.(visited := visited, toVisit := rest, failed := s.failed + [x])
      else
        var page := ScrapePage(x, web[x], urljoin);
        var buffer := s.buffer + [page];
        var toVisit := rest + Pushed(page.links, visited, netloc);
        assert toVisit[..n - 1] == rest && toVisit[n - 1..] == Pushed(page.links, visited, netloc);
        if |buffer| % SaveBatchSize == 0 then
          Crawl(visited, toVisit, [], s.fileIndex + 1, s.saved + [Batch(s.fileIndex, buffer)], s.failed)
        else
          Crawl(visited, toVisit, buffer, s.fileIndex, s.saved, s.failed)
  }

  function BatchPages(bs: seq<Batch>): (pss: seq<seq<Page>>)
    ensures |pss| == |bs|
    ensures forall i :: 0 <= i < |bs| ==> pss[i] == bs[i].pages
  {
    seq(|bs|, i requires 0 <= i < |bs| => bs[i].pages)
  }

  /** Every page scraped so far, in order: the saved batches, then the buffer. */
  function AllPages(s: Crawl): seq<Page> {
    Flatten(BatchPages(s.saved)) + s.buffer
  }

  /** Saved batches are numbered from 1 and hold 20 pages each; the buffer holds fewer. */
  predicate BatchesOk(s: Crawl) {
    && |s.buffer| < SaveBatchSize
    && s.fileIndex == |s.saved| + 1
    && forall i :: 0 <= i < |s.saved| ==> s.saved[i].index == i + 1 && |s.saved[i].pages| == SaveBatchSize
  }

  /** Scraped pages: each URL once, each an http URL that loaded, each recorded as scraped. */
  predicate PagesOk(pages: seq<Page>, web: map<string, Rendered>, urljoin: (string, string) -> string) {
    && DistinctUrls(pages)
    && forall i :: 0 <= i < |pages| ==>
         && pages[i].url in web && IsHttp(pages[i].url)
         && pages[i] == ScrapePage(pages[i].url, web[pages[i].url], urljoin)
  }

  /** Failed URLs: each once, each an http URL that did not load. */
  predicate FailedOk(failed: seq<string>, web: map<string, Rendered>) {
    Distinct(failed) && forall i :: 0 <= i < |failed| ==> failed[i] !in web && IsHttp(failed[i])
  }

  function Urls(pages: seq<Page>): set<string> {
    set i | 0 <= i < |pages| :: pages[i].url
  }

  /** Every visited URL was either scraped or failed, and nothing else is. */
  predicate Accounted(visited: set<string>, pages: seq<Page>, failed: seq<string>) {
    visited == Urls(pages) + (set u | u in failed)
  }

  /** Every internal http link of a scraped page is visited or still waits on the stack. */
  predicate Complete(pages: seq<Page>, visited: set<string>, toVisit: seq<string>, netloc: string -> string) {
    forall i, l :: 0 <= i < |pages| && l in pages[i].links && IsInternalLink(netloc, l) && IsHttp(l) ==>
      l in visited || l in toVisit
  }

  predicate Inv(s: Crawl, start: string, web: map<string, Rendered>, urljoin: (string, string) -> string,
                netloc: string -> string) {
    && BatchesOk(s)
    && PagesOk(AllPages(s), web, urljoin)
    && FailedOk(s.failed, web)
    && Accounted(s.visited, AllPages(s), s.failed)
    && Complete(AllPages(s), s.visited, s.toVisit, netloc)
    && (IsHttp(start) ==> start in s.visited || start in s.toVisit)
  }

  /** Popping a URL that is visited or not http changes nothing else. */
  lemma SkipKeepsInv(s: Crawl, start: string, web: map<string, Rendered>, urljoin: (string, string) -> string,
                     netloc: string -> string)
    requires |s.toVisit| > 0 && Inv(s, start, web, urljoin, netloc)
    requires s.toVisit[|s.toVisit| - 1] in s.visited || !IsHttp(s.toVisit[|s.toVisit| - 1])
    ensures Inv(Step(s, web, urljoin, netloc), start, web, urljoin, netloc)
  {
    var s' := Step(s, web, urljoin, netloc);
    var n := |s.toVisit|;
    assert forall l :: l in s.toVisit ==> l == s.toVisit[n - 1] || l in s'.toVisit by {
      assert s.toVisit == s'.toVisit + [s.toVisit[n - 1]];
    }
    assert AllPages(s') == AllPages(s);
  }

  /** A URL that fails to load is visited and recorded as failed, and queues nothing. */
  lemma FailKeepsInv(s: Crawl, start: string, web: map<string, Rendered>, urljoin: (string, string) -> string,
                     netloc: string -> string)
    requires |s.toVisit| > 0 && Inv(s, start, web, urljoin, netloc)
    requires var x := s.toVisit[|s.toVisit| - 1]; x !in s.visited && IsHttp(x) && x !in web
    ensures Inv(Step(s, web, urljoin, netloc), start, web, urljoin, netloc)
  {
    var s' := Step(s, web, urljoin, netloc);
    var n := |s.toVisit|;
    var x := s.toVisit[n - 1];
    assert forall l :: l in s.toVisit ==> l == x || l in s'.toVisit by {
      assert s.toVisit == s'.toVisit + [x];
    }
    assert AllPages(s') == AllPages(s);
    assert x !in s.failed;
    assert (set u | u in s'.failed) == (set u | u in s.failed) + {x};
  }

  lemma AllPagesFlush(s: Crawl, buffer: seq<Page>)
    ensures Flatten(BatchPages(s.saved + [Batch(s.fileIndex, buffer)])) == Flatten(BatchPages(s.saved)) + buffer
  {
    assert BatchPages(s.saved + [Batch(s.fileIndex, buffer)]) == BatchPages(s.saved) + [buffer];
    FlattenSnoc(BatchPages(s.saved), buffer);
  }

  lemma UrlsSnoc(pages: seq<Page>, p: Page)
    ensures Urls(pages + [p]) == Urls(pages) + {p.url}
  {
    var ps := pages + [p];
    assert ps[|pages|].url == p.url;
    forall u | u in Urls(pages)
      ensures u in Urls(ps)
    {
      var i :| 0 <= i < |pages| && pages[i].url == u;
      assert ps[i].url == u;
    }
  }

  /** Scraping `x` appends its page to everything scraped so far, whether or not a batch is saved. */
  lemma ScrapeAppends(s: Crawl, web: map<string, Rendered>, urljoin: (string, string) -> string,
                      netloc: string -> string)
    requires |s.toVisit| > 0 && BatchesOk(s)
    requires var x := s.toVisit[|s.toVisit| - 1]; x !in s.visited && IsHttp(x) && x in web
    ensures var x := s.toVisit[|s.toVisit| - 1];
      AllPages(Step(s, web, urljoin, netloc)) == AllPages(s) + [ScrapePage(x, web[x], urljoin)]
    ensures BatchesOk(Step(s, web, urljoin, netloc))
  {
    var x := s.toVisit[|s.toVisit| - 1];
    var buffer := s.buffer + [ScrapePage(x, web[x], urljoin)];
    if |buffer| % SaveBatchSize == 0 {
      AllPagesFlush(s, buffer);
    }
  }

  lemma PagesOkSnoc(pages: seq<Page>, x: string, web: map<string, Rendered>, urljoin: (string, string) -> string)
    requires PagesOk(pages, web, urljoin) && x !in Urls(pages) && x in web && IsHttp(x)
    ensures PagesOk(pages + [ScrapePage(x, web[x], urljoin)], web, urljoin)
  {
    var ps := pages + [ScrapePage(x, web[x], urljoin)];
    forall i, j | 0 <= i < j < |ps|
      ensures ps[i].url != ps[j].url
    {
      if j == |pages| {
        assert ps[i].url == pages[i].url && pages[i].url in Urls(pages);
      }
    }
  }

  /** The new page's internal http links are visited or pushed; older pages' links that waited on
      the stack are still there or were the URL just visited. */
  lemma CompleteAfterScrape(pages: seq<Page>, visited: set<string>, rest: seq<string>, x: string, page: Page,
                            netloc: string -> string)
    requires Complete(pages, visited, rest + [x], netloc)
    ensures Complete(pages + [page], visited + {x}, rest + Pushed(page.links, visited + {x}, netloc), netloc)
  {
    var ps := pages + [page];
    var pushed := Pushed(page.links, visited + {x}, netloc);
    forall i, l | 0 <= i < |ps| && l in ps[i].links && IsInternalLink(netloc, l) && IsHttp(l)
      ensures l in visited + {x} || l in rest + pushed
    {
      if i < |pages| {
        assert ps[i] == pages[i];
        assert l in visited || l in rest + [x];
      }
    }
  }

  /** A URL that loads is visited, scraped into the buffer (saving a batch when the buffer reaches
      20 pages), and its unvisited internal links are pushed. */
  lemma ScrapeKeepsInv(s: Crawl, start: string, web: map<string, Rendered>, urljoin: (string, string) -> string,
                       netloc: string -> string)
    requires |s.toVisit| > 0 && Inv(s, start, web, urljoin, netloc)
    requires var x := s.toVisit[|s.toVisit| - 1]; x !in s.visited && IsHttp(x) && x in web
    ensures Inv(Step(s, web, urljoin, netloc), start, web, urljoin, netloc)
  {
    var s' := Step(s, web, urljoin, netloc);
    var n := |s.toVisit|;
    var x := s.toVisit[n - 1];
    var rest := s.toVisit[..n - 1];
    var page := ScrapePage(x, web[x], urljoin);
    assert s.toVisit == rest + [x];
    assert s'.toVisit == rest + Pushed(page.links, s.visited + {x}, netloc);
    ScrapeAppends(s, web, urljoin, netloc);
    PagesOkSnoc(AllPages(s), x, web, urljoin);
    UrlsSnoc(AllPages(s), page);
    CompleteAfterScrape(AllPages(s), s.visited, rest, x, page, netloc);
    assert IsHttp(start) ==> start in s'.visited || start in s'.toVisit;
  }

  lemma StepKeepsInv(s: Crawl, start: string, web: map<string, Rendered>, urljoin: (string, string) -> string,
                     netloc: string -> string)
    requires |s.toVisit| > 0 && Inv(s, start, web, urljoin, netloc)
    ensures Inv(Step(s, web, urljoin, netloc), start, web, urljoin, netloc)
  {
    var x := s.toVisit[|s.toVisit| - 1];
    if x in s.visited || !IsHttp(x) {
      SkipKeepsInv(s, start, web, urljoin, netloc);
    } else if x !in web {
      FailKeepsInv(s, start, web, urljoin, netloc);
    } else {
      ScrapeKeepsInv(s, start, web, urljoin, netloc);
    }
  }

  /** Each turn either visits a URL that loads, or pops the stack without loading anything. */
  lemma StepProgress(s: Crawl, web: map<string, Rendered>, urljoin: (string, string) -> string,
                     netloc: string -> string)
    requires |s.toVisit| > 0
    ensures var s' := Step(s, web, urljoin, netloc);
      || web.Keys - s'.visited < web.Keys - s.visited
      || (web.Keys - s'.visited == web.Keys - s.visited && |s'.toVisit| < |s.toVisit|)
  {
    var x := s.toVisit[|s.toVisit| - 1];
    if x !in s.visited && IsHttp(x) && x in web {
      assert x in web.Keys - s.visited;
    }
  }

  /** `u` is the start URL, or an internal link found on one of `pages`. */
  predicate Reached(u: string, start: string, pages: seq<Page>, netloc: string -> string) {
    u == start || exists i :: 0 <= i < |pages| && u in pages[i].links && IsInternalLink(netloc, u)
  }

  /** Nothing is visited or queued that the crawl did not reach: every URL is the start or an
      internal link of a scraped page. */
  predicate Sound(s: Crawl, start: string, netloc: string -> string) {
    && (forall u :: u in s.visited ==> Reached(u, start, AllPages(s), netloc))
    && (forall k :: 0 <= k < |s.toVisit| ==> Reached(s.toVisit[k], start, AllPages(s), netloc))
  }

  lemma ReachedSnoc(u: string, start: string, pages: seq<Page>, p: Page, netloc: string -> string)
    requires Reached(u, start, pages, netloc)
    ensures Reached(u, start, pages + [p], netloc)
  {
    if u != start {
      var i :| 0 <= i < |pages| && u in pages[i].links && IsInternalLink(netloc, u);
      assert (pages + [p])[i] == pages[i];
    }
  }

  /** Every turn keeps the crawl sound: it pops a reached URL and pushes only internal links of the
      page it scrapes. */
  lemma StepKeepsSound(s: Crawl, start: string, web: map<string, Rendered>, urljoin: (string, string) -> string,
                       netloc: string -> string)
    requires |s.toVisit| > 0 && BatchesOk(s) && Sound(s, start, netloc)
    ensures Sound(Step(s, web, urljoin, netloc), start, netloc)
  {
    var s' := Step(s, web, urljoin, netloc);
    var n := |s.toVisit|;
    var x := s.toVisit[n - 1];
    assert Reached(x, start, AllPages(s), netloc);
    if x in s.visited || !IsHttp(x) || x !in web {
      assert AllPages(s') == AllPages(s);
      assert forall k :: 0 <= k < |s'.toVisit| ==> s'.toVisit[k] == s.toVisit[k];
    } else {
      var page := ScrapePage(x, web[x], urljoin);
      var pages := AllPages(s);
      ScrapeAppends(s, web, urljoin, netloc);
      assert AllPages(s') == pages + [page];
      var pushed := Pushed(page.links, s.visited + {x}, netloc);
      assert s'.toVisit == s.toVisit[..n - 1] + pushed;
      forall u | u in s'.visited
        ensures Reached(u, start, pages + [page], netloc)
      {
        ReachedSnoc(u, start, pages, page, netloc);
      }
      forall k | 0 <= k < |s'.toVisit|
        ensures Reached(s'.toVisit[k], start, pages + [page], netloc)
      {
        var u := s'.toVisit[k];
        if k < n - 1 {
          assert u == s.toVisit[k];
          ReachedSnoc(u, start, pages, page, netloc);
        } else {
          assert u in pushed;
          assert (pages + [page])[|pages|] == page;
        }
      }
    }
  }

  /** The batches after lines 91-93: the saved ones and, if the buffer is not empty, one more. */
  function FinalBatches(s: Crawl): (bs: seq<Batch>)
    ensures s.saved <= bs
  {
    if |s.buffer| > 0 then s.saved + [Batch(s.fileIndex, s.buffer)] else s.saved
  }

  /** The final batches hold every page scraped, numbered from 1, all full but the last. */
  lemma FinalBatchesOk(s: Crawl)
    requires BatchesOk(s)
    ensures Flatten(BatchPages(FinalBatches(s))) == AllPages(s)
    ensures var bs := FinalBatches(s);
      forall i :: 0 <= i < |bs| ==>
        && bs[i].index == i + 1
        && 0 < |bs[i].pages| <= SaveBatchSize
        && (i < |bs| - 1 ==> |bs[i].pages| == SaveBatchSize)
  {
    if |s.buffer| > 0 {
      AllPagesFlush(s, s.buffer);
    } else {
      assert AllPages(s) == Flatten(BatchPages(s.saved));
    }
  }

  /** The whole loop of lines 64-87 as a reference: `Step` taken from `s` until the stack is
      empty. Each step pops the last URL pushed, so this is a depth-first traversal, and it fixes
      the order of the scraped pages and of the failed URLs. */
  function CrawlFrom(s: Crawl, web: map<string, Rendered>, urljoin: (string, string) -> string,
                     netloc: string -> string): (r: Crawl)
    ensures |r.toVisit| == 0
    ensures s.visited <= r.visited
    decreases web.Keys - s.visited, |s.toVisit|
  {
    if |s.toVisit| == 0 then s
    else
      StepProgress(s, web, urljoin, netloc);
      CrawlFrom(Step(s, web, urljoin, netloc), web, urljoin, netloc)
  }

  /** `crawl_site(start_url)` (lines 53-99) from the module's initial state. Returns the saved
      batches, including the final partial one, the failed URLs and the visited set. */
  method CrawlSite(start: string, web: map<string, Rendered>, urljoin: (string, string) -> string,
                   netloc: string -> string)
    returns (batches: seq<Batch>, failed: seq<string>, visited: set<string>)
    ensures var pages := Flatten(BatchPages(batches));
      && PagesOk(pages, web, urljoin)
      && FailedOk(failed, web)
      && Accounted(visited, pages, failed)
      && Complete(pages, visited, [], netloc)
    ensures IsHttp(start) ==> start in visited
    ensures var pages := Flatten(BatchPages(batches));
      && (forall u :: u in visited ==> Reached(u, start, pages, netloc))
      && (forall i :: 0 <= i < |failed| ==> Reached(failed[i], start, pages, netloc))
    ensures forall i :: 0 <= i < |batches| ==>
      && batches[i].index == i + 1
      && 0 < |batches[i].pages| <= SaveBatchSize
      && (i < |batches| - 1 ==> |batches[i].pages| == SaveBatchSize)
    ensures var r := CrawlFrom(Crawl({}, [start], [], 1, [], []), web, urljoin, netloc);
      batches == FinalBatches(r) && failed == r.failed && visited == r.visited
  {
    var s := Crawl({}, [start], [], 1, [], []);
    assert AllPages(s) == [];
    while |s.toVisit| > 0
      invariant Inv(s, start, web, urljoin, netloc)
      invariant Sound(s, start, netloc)
      invariant CrawlFrom(s, web, urljoin, netloc) == CrawlFrom(Crawl({}, [start], [], 1, [], []), web, urljoin, netloc)
      decreases web.Keys - s.visited, |s.toVisit|
    {
      StepKeepsInv(s, start, web, urljoin, netloc);
      StepKeepsSound(s, start, web, urljoin, netloc);
      StepProgress(s, web, urljoin, netloc);
      s := Step(s, web, urljoin, netloc);
    }
    FinalBatchesOk(s);
    batches, failed, visited := FinalBatches(s), s.failed, s.visited;
    assert forall i :: 0 <= i < |failed| ==> failed[i] in visited;
  }

  /** The script's run, `crawl_site(START_URL)` (lines 101-102): the site's home page is always
      visited, and everything visited was reached from it. */
  method CrawlFromStart(web: map<string, Rendered>, urljoin: (string, string) -> string, netloc: string -> string)
    returns (batches: seq<Batch>, failed: seq<string>, visited: set<string>)
    ensures StartUrl in visited
    ensures forall u :: u in visited ==> Reached(u, StartUrl, Flatten(BatchPages(batches)), netloc)
    ensures StartUrl in web <==> StartUrl in Urls(Flatten(BatchPages(batches)))
    ensures StartUrl !in web <==> StartUrl in failed
  {
    assert IsHttp(StartUrl);
    batches, failed, visited := CrawlSite(StartUrl, web, urljoin, netloc);
  }
}
