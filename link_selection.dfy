/** The link filter of `MpCrawler.__update_link_queue` (menupages_crawl.py,
    lines 453-530) as pure functions: join the hrefs onto the base URL, drop
    the crawled ones, and keep the paths whose last piece is the last piece
    of some shortest path of the batch. */
module LinkSelection {
  import opened Lists
  import opened Urls

  /** `map(lambda x: urljoin(BASE_URL, x.lstrip('/')), urls)`, which both joins
      the hrefs (line 457) and rebuilds the URLs of the chosen paths (line 501). */
  function Joined(hrefs: seq<string>): (us: seq<string>)
    ensures |us| == |hrefs|
    ensures forall i :: 0 <= i < |us| ==> us[i] == FullUrl(hrefs[i])
  {
    seq(|hrefs|, i requires 0 <= i < |hrefs| => FullUrl(hrefs[i]))
  }

  /** `[url for url in urls if not url in crawled]` (lines 460-461). */
  function NotCrawled(urls: seq<string>, crawled: seq<string>): (r: seq<string>)
    ensures forall u :: u in r <==> u in urls && u !in crawled
    ensures |r| <= |urls|
    ensures IsSubseq(r, urls)
    ensures forall u :: u !in crawled ==> multiset(r)[u] == multiset(urls)[u]
  {
    if urls == [] then []
    else
      assert forall u :: u in urls <==> u == urls[0] || u in urls[1..];
      assert urls == [urls[0]] + urls[1..];
      var rest := NotCrawled(urls[1..], crawled);
      var r := (if urls[0] in crawled then [] else [urls[0]]) + rest;
      assert if urls[0] in crawled then r == rest else r[0] == urls[0] && r[1..] == rest;
      r
  }

  /** The joined hrefs that are not in `crawled`, in order (lines 457-461). */
  function Surviving(hrefs: seq<string>, crawled: seq<string>): (r: seq<string>)
    ensures |r| <= |hrefs|
  {
    NotCrawled(Joined(hrefs), crawled)
  }

  /** The survivors are exactly the uncrawled joined hrefs, and each of them
      is rebuilt from its own path unchanged. */
  lemma SurvivingSpec(hrefs: seq<string>, crawled: seq<string>)
    ensures forall u :: u in Surviving(hrefs, crawled) <==>
      u !in crawled && exists i :: 0 <= i < |hrefs| && u == FullUrl(hrefs[i])
    ensures forall u :: u in Surviving(hrefs, crawled) ==> FullUrl(UrlPath(u)) == u
  {
    var full := Joined(hrefs);
    forall i | 0 <= i < |hrefs| ensures FullUrl(UrlPath(full[i])) == full[i] {
      RebuildFullUrl(hrefs[i]);
    }
    forall u | u in full ensures exists i :: 0 <= i < |hrefs| && u == FullUrl(hrefs[i]) {
      var i :| 0 <= i < |full| && full[i] == u;
    }
  }

  /** With nothing crawled, no URL is dropped. */
  lemma {:induction false} NotCrawledNothing(urls: seq<string>)
    ensures NotCrawled(urls, []) == urls
  {
    if urls != [] {
      NotCrawledNothing(urls[1..]);
      assert urls == [urls[0]] + urls[1..];
    }
  }

  /** `[url.path for url in urlparse_objs]` (lines 470, 484). */
  function Paths(urls: seq<string>): (ps: seq<string>)
    ensures |ps| == |urls|
  {
    seq(|urls|, i requires 0 <= i < |urls| => UrlPath(urls[i]))
  }

  /** `[p.strip('/').split('/') for p in paths]` (line 491). */
  function Words(paths: seq<string>): (ws: seq<seq<string>>)
    ensures |ws| == |paths|
    ensures forall i :: 0 <= i < |ws| ==> |ws[i]| >= 1
  {
    seq(|paths|, i requires 0 <= i < |paths| => Pieces(paths[i]))
  }

  /** Every word list has at least one piece. */
  ghost predicate NonEmptyWords(words: seq<seq<string>>)
  {
    forall i :: 0 <= i < |words| ==> |words[i]| >= 1
  }

  /** `wrd[len(wrd)-1]`. */
  function Last(w: seq<string>): string
    requires |w| >= 1
  {
    w[|w| - 1]
  }

  /** `min(map(len, upo_path_wrds))` (line 492). */
  function MinDepth(words: seq<seq<string>>): (m: nat)
    requires |words| > 0
    ensures forall i :: 0 <= i < |words| ==> m <= |words[i]|
    ensures exists i :: 0 <= i < |words| && |words[i]| == m
  {
    if |words| == 1 then |words[0]|
    else
      var m := MinDepth(words[1..]);
      assert forall i :: 1 <= i < |words| ==> words[i] == words[1..][i - 1];
      if |words[0]| <= m then |words[0]| else m
  }

  /** The last pieces of the word lists with `m` pieces (line 493). */
  function MinLasts(words: seq<seq<string>>, m: nat): (r: seq<string>)
    requires NonEmptyWords(words)
    ensures |r| <= |words|
  {
    if words == [] then []
    else (if |words[0]| == m then [Last(words[0])] else []) + MinLasts(words[1..], m)
  }

  /** The collected words are exactly the last pieces of the word lists of
      `m` pieces. */
  lemma {:induction false} MinLastsSpec(words: seq<seq<string>>, m: nat)
    requires NonEmptyWords(words)
    ensures forall x :: x in MinLasts(words, m) <==>
      exists j :: 0 <= j < |words| && |words[j]| == m && Last(words[j]) == x
  {
    if words != [] {
      MinLastsSpec(words[1..], m);
      assert forall j :: 1 <= j < |words| ==> words[j] == words[1..][j - 1];
    }
  }

  /** The indices from `k` on whose last piece is a venue word. */
  ghost function SelectedFrom(words: seq<seq<string>>, venue: seq<string>, k: nat): set<nat>
    requires NonEmptyWords(words)
  {
    set i: nat | k <= i < |words| && Last(words[i]) in venue
  }

  /** `[paths[words.index(w)] for w in words[k:] if is_venue(w)]` (lines 496-498):
      `list.index` picks the first equal word list, so several paths can map
      to the same earlier path. */
  function Choose(words: seq<seq<string>>, paths: seq<string>, venue: seq<string>, k: nat): (r: seq<string>)
    requires |words| == |paths| && NonEmptyWords(words) && k <= |words|
    ensures |r| == |SelectedFrom(words, venue, k)|
    decreases |words| - k
  {
    if k == |words| then
      assert SelectedFrom(words, venue, k) == {};
      []
    else
      var rest := Choose(words, paths, venue, k + 1);
      var here := if Last(words[k]) in venue then [paths[FirstIndex(words, words[k])]] else [];
      assert SelectedFrom(words, venue, k) == (if Last(words[k]) in venue then {k} else {}) + SelectedFrom(words, venue, k + 1);
      here + rest
  }

  /** The chosen paths are exactly the first paths whose word lists equal
      a selected word list. */
  lemma {:induction false} ChooseSpec(words: seq<seq<string>>, paths: seq<string>, venue: seq<string>, k: nat)
    requires |words| == |paths| && NonEmptyWords(words) && k <= |words|
    ensures forall x :: x in Choose(words, paths, venue, k) <==>
      exists i :: k <= i < |words| && Last(words[i]) in venue && x == paths[FirstIndex(words, words[i])]
    ensures forall x :: x in Choose(words, paths, venue, k) ==> x in paths
    decreases |words| - k
  {
    if k < |words| {
      ChooseSpec(words, paths, venue, k + 1);
    }
  }

  /** The venue words: `list_uniques` of the last pieces of the shortest paths. */
  function VenueWords(words: seq<seq<string>>): seq<string>
    requires |words| > 0 && NonEmptyWords(words)
  {
    Uniques(MinLasts(words, MinDepth(words)))
  }

  /** The URLs that `__update_link_queue` pushes for a non-empty list of
      uncrawled joined URLs (lines 470-501). */
  function SelectVenueUrls(urls: seq<string>): seq<string>
    requires urls != []
  {
    var paths := Paths(urls);
    var words := Words(paths);
    Joined(Choose(words, paths, VenueWords(words), 0))
  }

  /** The URLs that `__update_link_queue(hrefs)` pushes onto the queue; none
      when every joined href is already crawled (lines 457-465). */
  function UpdateSelection(hrefs: seq<string>, crawled: seq<string>): seq<string>
  {
    var full := Surviving(hrefs, crawled);
    if full == [] then [] else SelectVenueUrls(full)
  }

  /** A word list is selected iff its last piece is the last piece of some
      word list of minimum length; in particular every shortest one is. */
  lemma SelectedIff(words: seq<seq<string>>, i: nat)
    requires |words| > 0 && NonEmptyWords(words) && i < |words|
    ensures Last(words[i]) in VenueWords(words) <==>
      exists j :: 0 <= j < |words| && |words[j]| == MinDepth(words) && Last(words[j]) == Last(words[i])
    ensures |words[i]| == MinDepth(words) ==> Last(words[i]) in VenueWords(words)
  {
    UniquesKeepsValues(MinLasts(words, MinDepth(words)));
    MinLastsSpec(words, MinDepth(words));
  }

  /** Every selected URL is one of the uncrawled joined URLs of the batch:
      the path picked by `list.index` belongs to one of them, and the URL
      rebuilt from its path is that URL again. */
  lemma SelectedAreSurvivors(urls: seq<string>)
    requires urls != []
    requires forall u :: u in urls ==> FullUrl(UrlPath(u)) == u
    ensures forall x :: x in SelectVenueUrls(urls) ==> x in urls
  {
    var paths := Paths(urls);
    var words := Words(paths);
    var chosen := Choose(words, paths, VenueWords(words), 0);
    ChooseSpec(words, paths, VenueWords(words), 0);
    forall x | x in SelectVenueUrls(urls) ensures x in urls {
      var k :| 0 <= k < |chosen| && x == FullUrl(chosen[k]);
      assert chosen[k] in paths;
      var j :| 0 <= j < |paths| && paths[j] == chosen[k];
      assert urls[j] in urls;
    }
  }

  /** At least one URL is pushed for every non-empty batch: the shortest
      word list is always selected. */
  lemma SelectionNonEmpty(urls: seq<string>)
    requires urls != []
    ensures |SelectVenueUrls(urls)| >= 1
  {
    var paths := Paths(urls);
    var words := Words(paths);
    var i :| 0 <= i < |words| && |words[i]| == MinDepth(words);
    SelectedIff(words, i);
    assert i in SelectedFrom(words, VenueWords(words), 0);
  }

  /** What `__update_link_queue` selects: nothing when every joined href is
      crawled; otherwise at least one URL, each of them an uncrawled joined
      href, one per selected path counted with repetitions. */
  lemma UpdateSelectionSpec(hrefs: seq<string>, crawled: seq<string>)
    ensures Surviving(hrefs, crawled) == [] <==> UpdateSelection(hrefs, crawled) == []
    ensures forall u :: u in UpdateSelection(hrefs, crawled) ==>
      u !in crawled && exists i :: 0 <= i < |hrefs| && u == FullUrl(hrefs[i])
  {
    var full := Surviving(hrefs, crawled);
    SurvivingSpec(hrefs, crawled);
    if full != [] {
      SelectionNonEmpty(full);
      SelectedAreSurvivors(full);
    }
  }
}

module LinkSelectionExample {
  import opened Lists
  import opened Urls
  import opened LinkSelection

  lemma PiecesOf(href: string, pieces: seq<string>)
    requires |href| >= 2 && href[0] == '/' && href[1] != '/' && href[|href| - 1] != '/'
    requires |pieces| >= 1 && forall k :: 0 <= k < |pieces| ==> '/' !in pieces[k]
    requires href[1..] == JoinWith(pieces, '/')
    ensures UrlPath(FullUrl(href)) == href
    ensures Pieces(href) == pieces
  {
    OneLeadingSlash(href);
    PathOfFullUrl(href);
    assert "/" + href[1..] == href;
    StripOneSlash(href);
    SplitJoin(pieces, '/');
  }

  lemma OneLeadingSlash(href: string)
    requires |href| >= 2 && href[0] == '/' && href[1] != '/'
    ensures LStrip(href, '/') == href[1..]
  {
    assert Leading(href, '/') == 1;
  }

  lemma StripOneSlash(href: string)
    requires |href| >= 2 && href[0] == '/' && href[1] != '/' && href[|href| - 1] != '/'
    ensures Strip(href, '/') == href[1..]
  {
    OneLeadingSlash(href);
    var l := href[1..];
    assert l[|l| - 1] == href[|href| - 1];
    assert Trailing(l, '/') == 0;
  }

  /** A path piece: non-empty and free of slashes. */
  ghost predicate IsPiece(w: string)
  {
    w != [] && '/' !in w
  }

  /** Of `/restaurants/ny/tartine`, `/restaurants/ny` and
      `/restaurants/nj/dino` (for any pieces in place of these names, as
      long as `ny` differs from `tartine` and `dino`), only the two-piece
      path is selected. */
  lemma ShallowestWins(restaurants: string, ny: string, tartine: string, nj: string, dino: string)
    requires IsPiece(restaurants) && IsPiece(ny) && IsPiece(tartine) && IsPiece(nj) && IsPiece(dino)
    requires ny != tartine && ny != dino
    ensures UpdateSelection(["/" + restaurants + "/" + ny + "/" + tartine,
                             "/" + restaurants + "/" + ny,
                             "/" + restaurants + "/" + nj + "/" + dino], [])
         == [BaseUrl + restaurants + "/" + ny]
  {
    var h0 := "/" + restaurants + "/" + ny + "/" + tartine;
    var h1 := "/" + restaurants + "/" + ny;
    var h2 := "/" + restaurants + "/" + nj + "/" + dino;
    PathPieces3(restaurants, ny, tartine);
    PathPieces2(restaurants, ny);
    PathPieces3(restaurants, nj, dino);
    OneShallowOfThree(h0, h1, h2);
    FullUrlOfPath(restaurants, ny);
  }

  lemma FullUrlOfPath(a: string, b: string)
    requires IsPiece(a)
    ensures FullUrl("/" + a + "/" + b) == BaseUrl + a + "/" + b
  {
    var h := "/" + a + "/" + b;
    assert h[1] == a[0];
    assert Leading(h, '/') == 1;
    assert LStrip(h, '/') == a + "/" + b;
  }

  lemma PathPieces3(a: string, b: string, c: string)
    requires IsPiece(a) && IsPiece(b) && IsPiece(c)
    ensures UrlPath(FullUrl("/" + a + "/" + b + "/" + c)) == "/" + a + "/" + b + "/" + c
    ensures Pieces("/" + a + "/" + b + "/" + c) == [a, b, c]
  {
    var h := "/" + a + "/" + b + "/" + c;
    assert h[1] == a[0];
    assert h[|h| - 1] == c[|c| - 1];
    assert [a, b, c][1..] == [b, c];
    assert JoinWith([b, c], '/') == b + "/" + c;
    assert h[1..] == JoinWith([a, b, c], '/');
    PiecesOf(h, [a, b, c]);
  }

  lemma PathPieces2(a: string, b: string)
    requires IsPiece(a) && IsPiece(b)
    ensures UrlPath(FullUrl("/" + a + "/" + b)) == "/" + a + "/" + b
    ensures Pieces("/" + a + "/" + b) == [a, b]
  {
    var h := "/" + a + "/" + b;
    assert h[1] == a[0];
    assert h[|h| - 1] == b[|b| - 1];
    assert [a, b][1..] == [b];
    assert h[1..] == JoinWith([a, b], '/');
    PiecesOf(h, [a, b]);
  }

  /** Three uncrawled links, the middle one shorter than the others and
      with a last piece of its own: only the middle one is selected. */
  lemma OneShallowOfThree(h0: string, h1: string, h2: string)
    requires UrlPath(FullUrl(h0)) == h0 && UrlPath(FullUrl(h1)) == h1 && UrlPath(FullUrl(h2)) == h2
    requires |Pieces(h1)| < |Pieces(h0)| && |Pieces(h1)| < |Pieces(h2)|
    requires Last(Pieces(h0)) != Last(Pieces(h1)) && Last(Pieces(h2)) != Last(Pieces(h1))
    ensures UpdateSelection([h0, h1, h2], []) == [FullUrl(h1)]
  {
    SurvivingNothingCrawled(h0, h1, h2);
    PathsOfThree(h0, h1, h2);
    WordsOfThree(h0, h1, h2);
    ShallowMiddle(Words([h0, h1, h2]), [h0, h1, h2]);
  }

  lemma SurvivingNothingCrawled(h0: string, h1: string, h2: string)
    ensures Surviving([h0, h1, h2], []) == [FullUrl(h0), FullUrl(h1), FullUrl(h2)]
  {
    NotCrawledNothing(Joined([h0, h1, h2]));
  }

  lemma PathsOfThree(h0: string, h1: string, h2: string)
    requires UrlPath(FullUrl(h0)) == h0 && UrlPath(FullUrl(h1)) == h1 && UrlPath(FullUrl(h2)) == h2
    ensures Paths([FullUrl(h0), FullUrl(h1), FullUrl(h2)]) == [h0, h1, h2]
  {
  }

  lemma WordsOfThree(h0: string, h1: string, h2: string)
    ensures Words([h0, h1, h2]) == [Pieces(h0), Pieces(h1), Pieces(h2)]
  {
  }

  lemma ShallowMiddle(words: seq<seq<string>>, paths: seq<string>)
    requires |words| == 3 == |paths| && NonEmptyWords(words)
    requires |words[1]| < |words[0]| && |words[1]| < |words[2]|
    requires Last(words[0]) != Last(words[1]) && Last(words[2]) != Last(words[1])
    ensures Choose(words, paths, VenueWords(words), 0) == [paths[1]]
  {
    assert MinDepth(words) == |words[1]| by {
      assert MinDepth(words[1..]) == |words[1]|;
    }
    var lasts := MinLasts(words, |words[1]|);
    assert lasts == [Last(words[1])] by {
      assert words[1..][1..] == words[2..];
      assert words[2..][1..] == [];
      assert MinLasts(words[2..], |words[1]|) == [];
      assert MinLasts(words[1..], |words[1]|) == [Last(words[1])];
    }
    UniquesOfDistinct(lasts);
    ChooseMiddle(words, paths, lasts);
  }

  lemma ChooseMiddle(words: seq<seq<string>>, paths: seq<string>, venue: seq<string>)
    requires |words| == 3 == |paths| && NonEmptyWords(words)
    requires words[0] != words[1] && venue == [Last(words[1])]
    requires Last(words[0]) != Last(words[1]) && Last(words[2]) != Last(words[1])
    ensures Choose(words, paths, venue, 0) == [paths[1]]
  {
    assert FirstIndex(words, words[1]) == 1;
    assert Choose(words, paths, venue, 3) == [];
    assert Choose(words, paths, venue, 2) == [];
    assert Choose(words, paths, venue, 1) == [paths[1]];
  }

  /** `a` and `/a` (for a piece `a`) join to the same URL, and both are
      selected: the count `__update_link_queue` returns is 2 although the
      queue gains one key. */
  lemma CountsRepeats(a: string)
    requires IsPiece(a)
    ensures UpdateSelection([a, "/" + a], []) == [BaseUrl + a, BaseUrl + a]
  {
    var h := "/" + a;
    JoinsOfPiece(a);
    SurvivingPair(a, h);
    SelectPair(BaseUrl + a, h, a);
  }

  lemma SurvivingPair(h0: string, h1: string)
    requires FullUrl(h0) == FullUrl(h1)
    ensures Surviving([h0, h1], []) == [FullUrl(h1), FullUrl(h1)]
  {
    NotCrawledNothing(Joined([h0, h1]));
  }

  lemma SelectPair(u: string, h: string, a: string)
    requires UrlPath(u) == h && Pieces(h) == [a]
    ensures SelectVenueUrls([u, u]) == [FullUrl(h), FullUrl(h)]
  {
    PairWords(u, h, a);
    RepeatedChoice(Words([h, h]), [h, h], a);
    assert Joined([h, h]) == [FullUrl(h), FullUrl(h)];
  }

  lemma PairWords(u: string, h: string, a: string)
    requires UrlPath(u) == h && Pieces(h) == [a]
    ensures Paths([u, u]) == [h, h]
    ensures Words([h, h]) == [[a], [a]]
  {
  }

  /** `a` and `/a` join to the same URL, whose path is `/a`, of one piece. */
  lemma JoinsOfPiece(a: string)
    requires IsPiece(a)
    ensures FullUrl(a) == FullUrl("/" + a) == BaseUrl + a
    ensures UrlPath(FullUrl("/" + a)) == "/" + a && Pieces("/" + a) == [a]
  {
    var h := "/" + a;
    assert Leading(a, '/') == 0;
    assert h[1..] == a && h[1] == a[0];
    OneLeadingSlash(h);
    assert JoinWith([a], '/') == a;
    PiecesOf(h, [a]);
  }

  lemma RepeatedChoice(words: seq<seq<string>>, paths: seq<string>, a: string)
    requires words == [[a], [a]] && |paths| == 2
    ensures Choose(words, paths, VenueWords(words), 0) == [paths[0], paths[0]]
  {
    assert MinDepth(words) == 1 by {
      assert MinDepth(words[1..]) == 1;
    }
    assert MinLasts(words, 1) == [a, a] by {
      assert words[1..][1..] == [];
      assert MinLasts(words[1..], 1) == [a];
    }
    UniquesKeepsValues([a, a]);
    var venue := VenueWords(words);
    assert a in venue;
    assert FirstIndex(words, words[1]) == 0;
    assert Choose(words, paths, venue, 2) == [];
    assert Choose(words, paths, venue, 1) == [paths[0]];
  }
}
