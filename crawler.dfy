/** The crawl frontier of `MpCrawler` (menupages_crawl.py): the queue of
    links still to visit, the list of links already fetched, and the loop
    that moves links from the one to the other. Fetching, page parsing and
    profile scraping are external and enter as parameters. */
module Crawler {
  import opened Lists
  import opened Urls
  import opened LinkSelection

  /** The tag every queued link carries (line 529). */
  const ByName: string := "by-name"

  /** The default of `link_queue.pop(mpp_url, 'empty')` (line 569). */
  const Empty: string := "empty"

  /** `CRAWL_MAX` when `crawl` is called without a bound (line 536). */
  const DefaultCrawlMax: int := 10000

  /** What `fetch_page` gives the crawl loop: an exception (network failure,
      or a result without a status), or a status with the page body. */
  datatype Response = FetchRaised | Fetched(status: int, body: string)

  /** Exceptions that escape `crawl`. */
  datatype CrawlError =
    | UnboundUrl              // the `finally` block reads `mpp_url` before it was bound
    | ScrapeRaised(url: string) // `scrape_profile` raised inside the `else` block

  /** How a call of `crawl` ends. */
  datatype CrawlOutcome = Returned(code: int) | Raised(error: CrawlError)

  /** Only a status-200 page is scraped and scanned for links (line 549). */
  predicate Scraped(r: Response)
  {
    r.Fetched? && r.status == 200
  }

  /** `dict.fromkeys(keys, tag)`. */
  function FromKeys(keys: seq<string>, tag: string): (m: map<string, string>)
    ensures m.Keys == set k | k in keys
    ensures forall k :: k in m ==> m[k] == tag
  {
    map k | k in keys :: tag
  }

  /** The hrefs `scan_restaurant_links(doc)` looks at: the links of `page`,
      or those of the crawler's own document when `page` is empty
      (lines 432-438); `extract` stands for the HTML link extraction. */
  function PageHrefs(page: string, doc: string, extract: string -> seq<string>): seq<string>
  {
    if page != "" then extract(page) else extract(doc)
  }

  /** The URLs `scan_restaurant_links` pushes for the given hrefs: `list_uniques`
      first, and the link filter only for a non-empty list (lines 440-444). */
  function ScanSelection(hrefs: seq<string>, crawled: seq<string>): seq<string>
  {
    var links := Uniques(hrefs);
    if links == [] then [] else UpdateSelection(links, crawled)
  }

  /** Every URL a scan pushes is an uncrawled join of one of the hrefs. */
  lemma ScanSelectionSpec(hrefs: seq<string>, crawled: seq<string>)
    ensures forall u :: u in ScanSelection(hrefs, crawled) ==>
      u !in crawled && exists i :: 0 <= i < |hrefs| && u == FullUrl(hrefs[i])
  {
    var links := Uniques(hrefs);
    UniquesKeepsValues(hrefs);
    if links != [] {
      UpdateSelectionSpec(links, crawled);
      JoinedFromMembers(hrefs, links, UpdateSelection(links, crawled), crawled);
    }
  }

  /** URLs joined from members of `links` are joined from members of `hrefs`
      when every link is one of the hrefs. */
  lemma JoinedFromMembers(hrefs: seq<string>, links: seq<string>, sel: seq<string>, crawled: seq<string>)
    requires forall x :: x in links ==> x in hrefs
    requires forall u :: u in sel ==> u !in crawled && exists j :: 0 <= j < |links| && u == FullUrl(links[j])
    ensures forall u :: u in sel ==> u !in crawled && exists i :: 0 <= i < |hrefs| && u == FullUrl(hrefs[i])
  {
    forall u | u in sel
      ensures exists i :: 0 <= i < |hrefs| && u == FullUrl(hrefs[i])
    {
      var j :| 0 <= j < |links| && u == FullUrl(links[j]);
      assert links[j] in hrefs;
    }
  }

  /** A scan pushes nothing exactly when every joined href is crawled. */
  lemma ScanSelectionEmpty(hrefs: seq<string>, crawled: seq<string>)
    ensures ScanSelection(hrefs, crawled) == [] <==> Surviving(hrefs, crawled) == []
  {
    var links := Uniques(hrefs);
    UniquesKeepsValues(hrefs);
    UpdateSelectionSpec(links, crawled);
    SameSurvivors(hrefs, links, crawled);
  }

  /** Two href lists with the same members leave the same survivors. */
  lemma SameSurvivors(a: seq<string>, b: seq<string>, crawled: seq<string>)
    requires forall h :: h in a <==> h in b
    ensures Surviving(a, crawled) == [] <==> Surviving(b, crawled) == []
  {
    SurvivingSpec(a, crawled);
    SurvivingSpec(b, crawled);
    if Surviving(a, crawled) != [] {
      var u := Surviving(a, crawled)[0];
      assert u in Surviving(a, crawled);
      var i :| 0 <= i < |a| && u == FullUrl(a[i]);
      assert a[i] in b;
      var j :| 0 <= j < |b| && b[j] == a[i];
      assert u in Surviving(b, crawled);
    }
    if Surviving(b, crawled) != [] {
      var u := Surviving(b, crawled)[0];
      assert u in Surviving(b, crawled);
      var i :| 0 <= i < |b| && u == FullUrl(b[i]);
      assert b[i] in a;
      var j :| 0 <= j < |a| && a[j] == b[i];
      assert u in Surviving(a, crawled);
    }
  }

  /** No selected URL is already crawled. */
  lemma SelectionUncrawled(hrefs: seq<string>, crawled: seq<string>)
    ensures forall u :: u in UpdateSelection(hrefs, crawled) ==> u !in crawled
    ensures Surviving(hrefs, crawled) == [] ==> UpdateSelection(hrefs, crawled) == []
  {
    UpdateSelectionSpec(hrefs, crawled);
  }

  /** The computation in `__update_link_queue` (lines 457-501), with the
      `list_uniques` loop of line 494 run as a method. */
  method SelectUrls(urls: seq<string>, crawled: seq<string>) returns (fullUrls: seq<string>)
    ensures fullUrls == UpdateSelection(urls, crawled)
  {
    var full := Surviving(urls, crawled);
    if full == [] {
      return [];
    }
    var paths := Paths(full);
    var words := Words(paths);
    var venueWords := ListUniques(MinLasts(words, MinDepth(words)));
    fullUrls := Joined(Choose(words, paths, venueWords, 0));
  }

  /** Adding uncrawled URLs tagged `by-name` keeps the queue's part of the
      frontier invariant. */
  lemma AddFresh(queue: map<string, string>, urls: seq<string>, crawled: seq<string>)
    requires forall u :: u in queue ==> queue[u] == ByName && u !in crawled
    requires forall u :: u in urls ==> u !in crawled
    ensures forall u :: u in queue + FromKeys(urls, ByName) ==>
      (queue + FromKeys(urls, ByName))[u] == ByName && u !in crawled
  {
  }

  /** How the frontier moves during `crawl`: `c1` is `c` followed by newly
      crawled URLs, and every key of the queue `q` is still in the queue `q1`
      or among those new URLs; a link leaves the queue only by being crawled. */
  ghost predicate Drained(q: map<string, string>, c: seq<string>, q1: map<string, string>, c1: seq<string>)
  {
    && |c| <= |c1| && c1[..|c|] == c
    && forall u :: u in q ==> u in q1 || u in c1[|c|..]
  }

  /** One pass of `crawl`, which pops `url` and appends it to `crawled`,
      keeps the frontier drained. */
  lemma PassDrains(q: map<string, string>, c: seq<string>, q0: map<string, string>,
                   c0: seq<string>, q1: map<string, string>, c1: seq<string>, url: string)
    requires Drained(q, c, q0, c0)
    requires forall u :: u in q0 && u != url ==> u in q1
    requires c1 == c0 + [url]
    ensures Drained(q, c, q1, c1)
  {
    assert c1[|c|..] == c0[|c|..] + [url];
    assert c1[..|c|] == c0[..|c|];
  }

  class MpCrawler {
    /** `link_queue`: URL to tag. */
    var linkQueue: map<string, string>
    /** `crawled`: the URLs fetched so far, in order. */
    var crawled: seq<string>
    /** `CRAWL_MAX`, set by `crawl`. */
    var crawlMax: int
    /** The document the crawler was built from. */
    const doc: string

    /** The frontier invariant: queued URLs are tagged `by-name` and were
        never crawled, and no URL was crawled twice. */
    ghost predicate Valid()
      reads this
    {
      && (forall u :: u in linkQueue ==> linkQueue[u] == ByName && u !in crawled)
      && Distinct(crawled)
    }

    /** `MpCrawler(doc)` (lines 151-155). */
    constructor (doc: string)
      ensures Valid()
      ensures linkQueue == map[] && crawled == [] && this.doc == doc
    {
      linkQueue := map[];
      crawled := [];
      this.doc := doc;
    }

    /** `__update_link_queue(urls)` (lines 453-530): adds the selected URLs
        with tag `by-name`, overwriting keys already there, and returns their
        number counted with repetitions. */
    method UpdateLinkQueue(urls: seq<string>) returns (count: nat)
      modifies this`linkQueue
      ensures linkQueue == old(linkQueue) + FromKeys(UpdateSelection(urls, crawled), ByName)
      ensures count == |UpdateSelection(urls, crawled)|
      ensures old(Valid()) ==> Valid()
    {
      var fullUrls := SelectUrls(urls, crawled);
      if Valid() {
        SelectionUncrawled(urls, crawled);
        AddFresh(linkQueue, fullUrls, crawled);
      }
      linkQueue := linkQueue + FromKeys(fullUrls, ByName);
      count := |fullUrls|;
    }

    /** `scan_restaurant_links(page)` (lines 428-448). */
    method ScanRestaurantLinks(page: string, extract: string -> seq<string>)
      modifies this`linkQueue
      ensures linkQueue == old(linkQueue) + FromKeys(ScanSelection(PageHrefs(page, doc, extract), crawled), ByName)
      ensures old(Valid()) ==> Valid()
    {
      var hrefs := if page != "" then extract(page) else extract(doc);
      var links := ListUniques(hrefs);
      if links != [] {
        var _ := UpdateLinkQueue(links);
      } else {
        assert FromKeys([], ByName) == map[];
      }
    }

    /** One pass of the `crawl` loop for the URL it drew (lines 542-574):
        fetch; scrape and scan only on status 200; then, whatever happened,
        pop the URL from the queue and append it to `crawled`. `raised`
        tells whether `scrape_profile` raised, which ends the crawl. */
    method Visit(url: string, site: string -> Response, extract: string -> seq<string>,
                 scrapeRaises: (string, string) -> bool) returns (raised: bool)
      requires Valid() && url in linkQueue
      modifies this`linkQueue, this`crawled
      ensures Valid()
      ensures crawled == old(crawled) + [url]
      ensures raised <==> Scraped(site(url)) && scrapeRaises(site(url).body, url)
      ensures forall u :: u in old(linkQueue) && u != url ==> u in linkQueue
      ensures linkQueue ==
        (if Scraped(site(url)) && !raised
         then old(linkQueue) + FromKeys(ScanSelection(PageHrefs(site(url).body, doc, extract), old(crawled)), ByName)
         else old(linkQueue)) - {url}
    {
      var page := site(url);
      raised := false;
      if page.Fetched? && page.status == 200 {
        raised := scrapeRaises(page.body, url);
        if !raised {
          ScanRestaurantLinks(page.body, extract);
        }
      }
      var tag := if url in linkQueue then linkQueue[url] else Empty;
      linkQueue := linkQueue - {url};
      if tag != Empty {
        crawled := crawled + [url];
      }
    }

    /** `crawl(n)` (lines 533-578). `site` stands for `fetch_page`, `extract`
        for the page parser and `scrapeRaises` for whether `scrape_profile`
        raises on a page; `link_queue.iterkeys().next()` is an arbitrary key. */
    method Crawl(n: int, site: string -> Response, extract: string -> seq<string>,
                 scrapeRaises: (string, string) -> bool) returns (r: CrawlOutcome)
      requires Valid()
      modifies this`linkQueue, this`crawled, this`crawlMax
      ensures Valid()
      ensures crawlMax == if n < 0 then DefaultCrawlMax else n
      ensures Drained(old(linkQueue), old(crawled), linkQueue, crawled)
      ensures |crawled| <= |old(crawled)| || |crawled| <= crawlMax
      ensures r.Returned? ==> r.code == 1 && (linkQueue == map[] || |crawled| >= crawlMax)
      ensures r == Raised(UnboundUrl) <==> |old(linkQueue)| < n && |old(crawled)| < n
      ensures r == Raised(UnboundUrl) ==> linkQueue == old(linkQueue) && crawled == old(crawled)
      ensures r.Raised? && r.error.ScrapeRaised? ==>
        var u := r.error.url;
        |crawled| > |old(crawled)| && crawled[|crawled| - 1] == u && Scraped(site(u)) && scrapeRaises(site(u).body, u)
    {
      var m := n;
      if m < 0 {
        m := |linkQueue|;
        crawlMax := DefaultCrawlMax;
      } else {
        crawlMax := m;
      }
      ghost var first := true;
      while m != 0 && |crawled| < crawlMax
        invariant Valid()
        invariant crawlMax == if n < 0 then DefaultCrawlMax else n
        invariant m >= 0
        invariant !first ==> m == |linkQueue|
        invariant first ==> linkQueue == old(linkQueue) && crawled == old(crawled) && m == (if n < 0 then |linkQueue| else n)
        invariant !first ==> !(|old(linkQueue)| < n && |old(crawled)| < n)
        invariant Drained(old(linkQueue), old(crawled), linkQueue, crawled)
        invariant |crawled| <= |old(crawled)| || |crawled| <= crawlMax
        decreases crawlMax - |crawled|
      {
        if m > |linkQueue| {
          // the assertion of line 543 fails; `finally` then reads `mpp_url`,
          // which no statement has bound yet
          return Raised(UnboundUrl);
        }
        var url :| url in linkQueue;
        ghost var q0, c0 := linkQueue, crawled;
        var raised := Visit(url, site, extract, scrapeRaises);
        PassDrains(old(linkQueue), old(crawled), q0, c0, linkQueue, crawled, url);
        m := |linkQueue|;
        first := false;
        if raised {
          return Raised(ScrapeRaised(url));
        }
      }
      r := Returned(1);
    }
  }
}
