# mp_crawl crawl frontier, in Dafny

This project models the crawler core of `menupages_crawl.py`:

- **The frontier.** The `MpCrawler` fields `link_queue` (a dict from URL to tag) and `crawled` (the list of URLs already fetched).
- **The link filter `__update_link_queue`.** It joins the hrefs onto `BASE_URL` and drops the URLs already crawled. It splits each remaining path with `strip('/').split('/')` and keeps every path whose last piece is the last piece of some shortest path in the batch. If several word lists are equal, `list.index` picks the first one. The kept paths are rebuilt into URLs, which go into the queue with the tag `'by-name'`.
- **`scan_restaurant_links`.** It runs `list_uniques` on the extracted hrefs and hands the result to the filter only when the result is non-empty.
- **The `crawl` loop.** Each pass draws an arbitrary queued URL and fetches it. Only a status-200 page is scraped and scanned. The `finally` block then moves the URL from the queue to `crawled`.
- **The record helpers `list_uniques`, `flatten_dict` and `flatten_r`.**

## Form of the model

- The helpers and the link filter's comprehensions are pure functions: modules `Lists`, `Urls`, `LinkSelection` and `Flatten`.
- `list_uniques` is a method with the source's nested loops. It runs over an index and removes items from the copy it is walking, as Python's `for` over a shrinking list does. It is proved equal to the function `Uniques`.
- `MpCrawler` (module `Crawler`) is a class:
  - its fields are `linkQueue: map<string, string>`, `crawled: seq<string>` and `crawlMax`;
  - `UpdateLinkQueue`, `ScanRestaurantLinks`, `Visit` (one pass of the loop) and `Crawl` change those fields;
  - `UpdateLinkQueue`, `ScanRestaurantLinks` and `Visit` state their whole new state in terms of the selection functions;
  - `Crawl` runs an unknown number of passes, so it states how the frontier moves instead (`Crawler.Drained`): `crawled` only grows by appending, and a key leaves the queue only by being crawled. It also states the crawl bound and when each outcome happens;
  - each preserves `Valid()`: queued URLs are tagged `by-name` and never crawled, and no URL is crawled twice.

## External parts, as parameters

- `fetch_page` is the parameter `site: string -> Response`. A `Response` is either a raised fetch, or a status and a body.
- The BeautifulSoup link extraction is `extract: string -> seq<string>`, from a page to the `href`s of its matching links.
- Whether `scrape_profile` raises on a page is `scrapeRaises: (string, string) -> bool`. Apart from raising, it does not touch the frontier.
- Python 2 dict iteration order is hash order. The model leaves it unspecified:
  - `Crawl` draws the next key with `:|`;
  - the flatteners visit keys in an arbitrary fixed order (`Flatten.Pick`).
  - The flatten lemmas hold for the chosen order whatever it is. Where two entries write the same flattened key, only "some leaf's value" is promised.

## Where the code and its description differ (the model follows the code)

- **`list_uniques` does not make a list unique.** The `for` loop skips the element that slides into a removed slot, so `[a,b,a,c,b,c]` gives `[b,a,b,c]` (`Lists.UniquesNotAlwaysDistinct`). What holds is proved instead:
  - the output is a subsequence of the input;
  - it has the same set of values;
  - it is the identity on a list that is already distinct.
- **No deduplication by URL before the filter.** `list_uniques` runs on the raw hrefs, before joining. So `a` and `/a` both survive, and both become the same URL.
- **The filter's return value counts selected paths with repetitions.** It is not the number of new keys (`LinkSelectionExample.CountsRepeats`). A key already queued is overwritten with the same tag, not skipped.
- **Rejected links are dropped, not queued as category links.** Only selected links are added, always with the tag `by-name`.
- **Path depth counts empty pieces.** The depth is the number of pieces `strip('/').split('/')` gives, so `/` has depth 1 and inner `//` pieces count.
- **The crawl bound applies to the whole of `crawled`.** `CRAWL_MAX` is 10000 when `n < 0` and is `n` otherwise, and the loop stops once `len(crawled)` reaches it.
  - An explicit `n` larger than the queue fails the assertion on the first pass. The `except` block catches that, but the `finally` block then reads `mpp_url`, which is still unbound, so an `UnboundLocalError` escapes. The model returns this as the outcome `Raised(UnboundUrl)`.
  - An exception from `scrape_profile` is raised in the `else` block, which the `except` does not cover. The URL is still moved to `crawled`, and then the exception ends the crawl (`Raised(ScrapeRaised(url))`).

## Model

| member | source | states |
|---|---|---|
| Lists.ListUniques | menupages_crawl.py:130-137 | equals `Uniques(olist)`, is a subsequence of the argument, and keeps exactly the argument's values |
| Lists.UniquesKeepsValues | menupages_crawl.py:130-137 | a value is in `list_uniques(s)` iff it is in `s` (values are removed only while another copy remains) |
| Lists.UniquesIsSubseq | menupages_crawl.py:130-137 | the result is a subsequence of the argument |
| Lists.UniquesOfDistinct | menupages_crawl.py:130-137 | on a list without repetitions nothing is removed |
| Lists.UniquesNotAlwaysDistinct | menupages_crawl.py:130-137 | for distinct a, b, c the result on `[a,b,a,c,b,c]` is `[b,a,b,c]`, which still repeats values |
| Lists.RemoveFirst | menupages_crawl.py:136 | for an `x` in the list (`list.remove` raises otherwise, and `list_uniques` only calls it while two copies remain) the result is the list with the first occurrence of `x` cut out, so it has one copy of `x` fewer and the order of the rest is kept |
| Lists.DropExtras | menupages_crawl.py:135-136 | the `while` loop: removes first copies of `x` until one is left; `Lists.DropExtrasSubseq` and `Lists.DropExtrasKeepsValues` prove it yields a subsequence of the argument with the same values |
| Lists.UniquesFrom | menupages_crawl.py:133-136 | the `for` loop from position `i` on the shrinking copy; `Lists.UniquesFromKeepsValues`, `Lists.UniquesFromSubseq` and `Lists.UniquesFromDistinct` state what it keeps |
| Lists.Uniques | menupages_crawl.py:130-137 | `list_uniques` as a function, the loop run from position 0; its properties are the `Uniques...` lemmas above |
| Lists.FirstIndex | menupages_crawl.py:497 | `list.index(x)` is the position of an occurrence of `x` with no occurrence before it |
| Urls.LStrip | menupages_crawl.py:457 | `lstrip('/')` gives a suffix `s[i..]` of the argument where every cut character `s[k]`, `k < i`, is a slash and the result does not start with one |
| Urls.Strip | menupages_crawl.py:491 | `strip('/')` gives a slice of the argument starting and ending with no slash, with only slashes cut off either end |
| Urls.Split | menupages_crawl.py:491 | `split('/')` gives at least one piece and no piece contains the separator |
| Urls.JoinSplit | menupages_crawl.py:491 | joining the pieces of a split with the separator gives the string back |
| Urls.SplitJoin | menupages_crawl.py:491 | splitting a join of separator-free pieces gives the pieces back |
| Urls.SplitCount | menupages_crawl.py:491 | the number of pieces is one more than the number of separators |
| Urls.FullUrl | menupages_crawl.py:457 | a joined href starts with `BASE_URL` |
| Urls.UrlPath | menupages_crawl.py:470-484 | `urlparse(u).path`: what follows `BASE_URL`'s scheme and host; `Urls.PathOfFullUrl` and `Urls.RebuildFullUrl` prove it undoes the join |
| Urls.PathOfFullUrl | menupages_crawl.py:470-484 | the path of a joined href is the href with exactly one leading slash |
| Urls.RebuildFullUrl | menupages_crawl.py:501 | rebuilding a joined URL from its own path gives the same URL |
| Urls.Pieces | menupages_crawl.py:491 | every path has at least one piece, so its last piece exists |
| LinkSelection.Joined | menupages_crawl.py:457-501 | one URL per href or chosen path, in order, each joined onto `BASE_URL` |
| LinkSelection.NotCrawled | menupages_crawl.py:460-461 | the result is a subsequence of the joined URLs (order kept); a URL survives iff it is among them and not in `crawled`; every uncrawled URL keeps its number of copies |
| LinkSelection.Surviving | menupages_crawl.py:457-461 | the joined hrefs not yet crawled, no more of them than hrefs; `LinkSelection.SurvivingSpec` states which they are |
| LinkSelection.SurvivingSpec | menupages_crawl.py:457-461 | the survivors are exactly the uncrawled joins of the hrefs, and each is rebuilt from its path unchanged |
| LinkSelection.NotCrawledNothing | menupages_crawl.py:460-461 | with nothing crawled no URL is dropped |
| LinkSelection.Paths | menupages_crawl.py:470-484 | one path per surviving URL (`urlparse(...).path`); `Urls.PathOfFullUrl` says what each path is |
| LinkSelection.Words | menupages_crawl.py:491 | one word list per path, each with at least one piece |
| LinkSelection.Last | menupages_crawl.py:493-496 | `wrd[len(wrd)-1]`, the last piece of a non-empty word list (`LinkSelection.Words` guarantees at least one piece) |
| LinkSelection.MinDepth | menupages_crawl.py:492 | the minimum is at most every depth and is the depth of some path |
| LinkSelection.MinLasts | menupages_crawl.py:493 | the last pieces of the word lists of depth `m`, no more than there are word lists; `LinkSelection.MinLastsSpec` states which |
| LinkSelection.VenueWords | menupages_crawl.py:493-494 | `list_uniques` of the last pieces of the shortest word lists; `LinkSelection.SelectedIff` states which word lists it selects |
| LinkSelection.MinLastsSpec | menupages_crawl.py:493 | the collected words are exactly the last pieces of the word lists of minimum depth |
| LinkSelection.Choose | menupages_crawl.py:496-498 | one path per word list whose last piece is a venue word, counted with repetitions |
| LinkSelection.ChooseSpec | menupages_crawl.py:496-498 | a path is chosen iff it is the first path whose word list equals a selected word list; chosen paths are batch paths |
| LinkSelection.SelectedIff | menupages_crawl.py:491-498 | a word list is selected iff its last piece is the last piece of a minimum-depth word list; every minimum-depth word list is selected |
| LinkSelection.SelectedAreSurvivors | menupages_crawl.py:484-501 | every selected URL is one of the uncrawled joined URLs of the batch |
| LinkSelection.SelectionNonEmpty | menupages_crawl.py:491-501 | a non-empty batch selects at least one URL |
| LinkSelection.SelectVenueUrls | menupages_crawl.py:470-501 | the URLs rebuilt from the chosen paths of a non-empty batch; `LinkSelection.SelectedAreSurvivors` and `LinkSelection.SelectionNonEmpty` state what they are |
| LinkSelection.UpdateSelection | menupages_crawl.py:457-501 | the URLs `__update_link_queue` pushes, none when every joined href is crawled; `LinkSelection.UpdateSelectionSpec` states what they are |
| LinkSelection.UpdateSelectionSpec | menupages_crawl.py:457-501 | nothing is selected iff every joined href is crawled; each selected URL is uncrawled and is the join of one of the hrefs |
| LinkSelectionExample.ShallowestWins | menupages_crawl.py:484-501 | from `/restaurants/ny/tartine`, `/restaurants/ny` and `/restaurants/nj/dino` (any pieces in their place, `ny` unlike `tartine` and `dino`) only the URL of `/restaurants/ny` is selected |
| LinkSelectionExample.CountsRepeats | menupages_crawl.py:497-530 | hrefs `a` and `/a` select the same URL twice, so the returned count is 2 for one key |
| Crawler.FromKeys | menupages_crawl.py:529 | `dict.fromkeys` has exactly the given keys, each with the given tag |
| Crawler.Scraped | menupages_crawl.py:547-552 | a page is scraped only when the fetch returned and its status is 200; a raised fetch or any other status goes to the `except` block; `Crawler.MpCrawler.Visit` scrapes and scans exactly when it holds |
| Crawler.PageHrefs | menupages_crawl.py:432-438 | the hrefs of the page, or of the crawler's own document when the page is empty |
| Crawler.ScanSelection | menupages_crawl.py:440-444 | `list_uniques` of the hrefs, then the link filter only when that is non-empty; `Crawler.ScanSelectionSpec` and `Crawler.ScanSelectionEmpty` state what it pushes |
| Crawler.SelectUrls | menupages_crawl.py:457-501 | the filter computed step by step, with the `list_uniques` loop of line 494 run as the method `Lists.ListUniques`, equals `UpdateSelection` |
| Crawler.ScanSelectionSpec | menupages_crawl.py:440-444 | every URL a scan pushes is uncrawled and is the join of one of the page's hrefs |
| Crawler.ScanSelectionEmpty | menupages_crawl.py:440-448 | a scan pushes nothing iff every joined href of the page is crawled |
| Crawler.Drained | menupages_crawl.py:542-574 | the frontier relation `crawl` keeps: `crawled` extended by appending, and every key of the old queue still queued or among the newly crawled URLs |
| Crawler.PassDrains | menupages_crawl.py:542-574 | a pass that keeps every other key queued and appends the drawn URL to `crawled` keeps the frontier drained |
| Crawler.MpCrawler.constructor | menupages_crawl.py:151-155 | a new crawler has an empty queue and an empty `crawled`, and satisfies the frontier invariant |
| Crawler.MpCrawler.UpdateLinkQueue | menupages_crawl.py:453-530 | the queue gains exactly the selected URLs tagged `by-name`, overwriting and never removing keys; `crawled` is untouched; the result is the number of selected URLs; the frontier invariant is kept |
| Crawler.MpCrawler.ScanRestaurantLinks | menupages_crawl.py:428-448 | the queue gains the URLs the filter selects from the page's hrefs (or the crawler's own document's when the page is empty), and nothing when `list_uniques` gives an empty list; the invariant is kept |
| Crawler.MpCrawler.Visit | menupages_crawl.py:542-574 | the drawn URL leaves the queue and is appended to `crawled` exactly once whatever the fetch gave; links are scanned only on status 200 when scraping did not raise; it reports whether scraping raised; the invariant is kept |
| Crawler.MpCrawler.Crawl | menupages_crawl.py:533-578 | `CRAWL_MAX` is 10000 for negative `n` and `n` otherwise; `crawled` only grows by appending, every URL queued at the start is still queued or was crawled by this call, and `crawled` stays within `CRAWL_MAX` once it passes its old length; a normal return gives 1 with an empty queue or `CRAWL_MAX` reached; the unbound-URL error happens iff `n` exceeds the queue while `crawled` is below `n`, and changes nothing; a scrape error names the URL last appended; the invariant is kept |
| Flatten.FlattenKeys | menupages_crawl.py:93-99 | the `for k,v in d.items()` loop over the keys still to visit; no value it writes is a dict; `Flatten.FlattenKeysSound`, `Flatten.FlattenKeysComplete` and `Flatten.FlatKeysUnchanged` state what it writes |
| Flatten.Key | menupages_crawl.py:95-97 | the `k+'_'+subk` chain for a path of keys, which starts with the outermost key; `Flatten.FlattenSound` and `Flatten.FlattenComplete` store leaves at it |
| Flatten.Prefixed | menupages_crawl.py:95-97 | every sub-key `s` is stored at `k_s` with its value, and every key written has that form |
| Flatten.FlattenDict | menupages_crawl.py:90-100 | no value of the result is a dict |
| Flatten.Contribution | menupages_crawl.py:93-99 | what one entry writes holds no dict value |
| Flatten.FlattenSound | menupages_crawl.py:90-100 | every entry of the result is a leaf of the argument stored at the `_`-joined keys of its path |
| Flatten.FlattenComplete | menupages_crawl.py:90-100 | every leaf of the argument has an entry at the joined keys of its path |
| Flatten.LeafValue | menupages_crawl.py:90-100 | a leaf whose joined key no leaf with another value shares is stored with its own value |
| Flatten.FlatUnchanged | menupages_crawl.py:90-100 | a dict without dict values comes back unchanged |
| Flatten.FlattenIdempotent | menupages_crawl.py:90-100 | flattening twice equals flattening once |
| Flatten.Dec | menupages_crawl.py:118 | `'%d' % n` is a non-empty string of decimal digits; `Flatten.DecReadsBack` shows it is the decimal numeral of `n` |
| Flatten.DecReadsBack | menupages_crawl.py:118 | the digits of `'%d' % n` read left to right give `n`; only the numeral of 0 starts with `0`; there is more than one digit exactly from 10 on |
| Flatten.DecInjective | menupages_crawl.py:118 | different numbers print differently |
| Flatten.FlattenR | menupages_crawl.py:103-127 | `flatten_r` over all keys of the record; `Flatten.FlattenRSound`, `Flatten.FlattenRComplete` and `Flatten.FlattenRAgrees` state what it holds |
| Flatten.FlattenRKeys | menupages_crawl.py:109-126 | the `for k,v in d.items()` loop of `flatten_r`; `Flatten.FlattenRKeysAgree` relates it to `flatten_dict`'s loop |
| Flatten.RContribution | menupages_crawl.py:110-126 | what one entry writes: a nested dict flattened with `flatten_dict`, a list as in `Flatten.ListContribution`, a unicode string encoded, any other value as is |
| Flatten.ElemKey | menupages_crawl.py:118-122 | the key `k_%d` of a list element, numbered by `v.index(li)`; `Flatten.ElemKeyIff` states when two keys coincide |
| Flatten.ElemValue | menupages_crawl.py:117-122 | the stored value of an element: encoded unicode, the `flatten_r` of a dict, otherwise the length of the list |
| Flatten.ListEntries | menupages_crawl.py:116-122 | the writes of the elements from position `j` on; `Flatten.ListEntriesKeys` and `Flatten.ListEntriesValues` state their keys and values |
| Flatten.ElemKeyIff | menupages_crawl.py:116-122 | two list elements get the same key iff they are equal |
| Flatten.ListContribution | menupages_crawl.py:114-122 | a list value at `k` stores its length at `k` and each element, converted, at `k_i` where `i` is the index of its first occurrence, and writes no other key |
| Flatten.FlattenRSound | menupages_crawl.py:103-127 | every entry of `flatten_r` is the write of some key of the argument, with that write's value |
| Flatten.FlattenRComplete | menupages_crawl.py:103-127 | every write of every key of the argument is present in `flatten_r` |
| Flatten.FlattenRAgrees | menupages_crawl.py:103-127 | on a record holding only dicts and non-unicode scalars, `flatten_r` equals `flatten_dict` |

## Left out

- `urljoin`/`urlparse` in general (absolute hrefs, `..` segments, queries, fragments, parameters; RFC 3986 section 5). They are modelled as appending the href, without its leading slashes, to `BASE_URL`, and taking the path back. The rebuilt URL then equals the URL that was checked against `crawled`. That is what keeps the queue and `crawled` disjoint, and `Urls.RebuildFullUrl` proves it for this join.
- The HTML parsing in `scan_restaurant_links` (the `SoupStrainer` regular expression and BeautifulSoup). It is the parameter `extract`.
- `scrape_profile` and the `restaurants` dict. What they extract is external; only whether scraping raises is modelled.
- `fetch_page` and everything else in `crawl_utils.py` (networking, gzip, redirect handlers). Only "raised, or a status and a body" is modelled. A redirect status reported instead of 200 makes the page skipped like any other non-200 status.
- `output_markup`, `output_db`, `output_csv`, `objinfo` and the `__main__` block. These are printing, database and file I/O.
- All printing.
- `unicode.encode('utf-8')` in `flatten_r`: modelled as keeping the characters and marking the value as a byte string (`Bytes`).
- Floats and booleans in the records (ratings, flags). `Scalar` has only integers, byte strings and `None`; the flatteners treat every non-dict, non-list, non-unicode value alike, so other scalars would be copied the same way.
- Python 2 equality between different types (`u'a' == 'a'`, `1 == 1.0`), which `list.index`, `list.count` and `in` would use. Values compare structurally within the model's types.
- Flatten.FlattenSound: where two entries, or two nested paths, flatten to the same key, Python keeps the write of whichever entry the hash order visits last. The model fixes one arbitrary order, so the exact winner is not stated, only that it is one of the colliding leaves.
- Crawler.MpCrawler.Crawl: which queued URL `iterkeys().next()` returns is left arbitrary, and so is how many passes run before the queue empties. Only the bounds, the outcome conditions and the drain relation `Crawler.Drained` are stated. Which passes scanned which pages is not recorded.
