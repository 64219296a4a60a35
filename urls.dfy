/** The string and URL operations the link filter relies on: Python's
    `str.lstrip`, `str.strip` and `str.split` with a one-character argument,
    and `urlparse.urljoin`/`urlparse.urlparse` restricted to the site's own
    relative links. */
module Urls {

  /** Scheme and host of the crawled site. */
  const Site: string := "http://www.menupages.com"

  /** `BASE_URL` (menupages_crawl.py, line 70). */
  const BaseUrl: string := Site + "/"

  /** How many copies of `c` open `s`. */
  function Leading(s: string, c: char): (k: nat)
    ensures k <= |s|
    ensures forall i :: 0 <= i < k ==> s[i] == c
    ensures k < |s| ==> s[k] != c
  {
    if s != [] && s[0] == c then 1 + Leading(s[1..], c) else 0
  }

  /** How many copies of `c` close `s`. */
  function Trailing(s: string, c: char): (k: nat)
    ensures k <= |s|
    ensures forall i :: |s| - k <= i < |s| ==> s[i] == c
    ensures k < |s| ==> s[|s| - 1 - k] != c
  {
    if s != [] && s[|s| - 1] == c then 1 + Trailing(s[..|s| - 1], c) else 0
  }

  /** `r` is `s` with its first `i` characters, every one of them `c`,
      taken off. */
  ghost predicate LStrippedAt(s: string, c: char, r: string, i: nat)
  {
    && i <= |s| && r == s[i..]
    && forall k :: 0 <= k < i ==> s[k] == c
  }

  /** `s.lstrip(c)`: a suffix of `s` with only copies of `c` cut off, and
      none left at its head. */
  function LStrip(s: string, c: char): (r: string)
    ensures r != [] ==> r[0] != c
    ensures exists i :: LStrippedAt(s, c, r, i)
  {
    var i := Leading(s, c);
    assert LStrippedAt(s, c, s[i..], i);
    s[i..]
  }

  /** `r` is `s` with the `i` leading and all trailing characters, every
      one of them `c`, taken off. */
  ghost predicate StrippedAt(s: string, c: char, r: string, i: nat)
  {
    && i + |r| <= |s| && r == s[i..i + |r|]
    && (forall k :: 0 <= k < i ==> s[k] == c)
    && (forall k :: i + |r| <= k < |s| ==> s[k] == c)
  }

  /** `s.strip(c)`: `c` removed from both ends. */
  function Strip(s: string, c: char): (r: string)
    ensures r != [] ==> r[0] != c && r[|r| - 1] != c
    ensures exists i :: StrippedAt(s, c, r, i)
  {
    var i := Leading(s, c);
    var l := s[i..];
    var r := l[..|l| - Trailing(l, c)];
    assert r == s[i..i + |r|];
    assert forall k :: i + |r| <= k < |s| ==> s[k] == l[k - i];
    assert StrippedAt(s, c, r, i);
    r
  }

  /** `s.split(sep)`: the pieces between the separators, empty pieces
      included, so `"".split('/') == ['']`. */
  function Split(s: string, sep: char): (r: seq<string>)
    ensures |r| >= 1
    ensures forall k :: 0 <= k < |r| ==> sep !in r[k]
  {
    if s == [] then [""]
    else
      var rest := Split(s[1..], sep);
      if s[0] == sep then [""] + rest else [[s[0]] + rest[0]] + rest[1..]
  }

  /** `sep.join(pieces)`. */
  function JoinWith(pieces: seq<string>, sep: char): string
    requires |pieces| >= 1
  {
    if |pieces| == 1 then pieces[0] else pieces[0] + [sep] + JoinWith(pieces[1..], sep)
  }

  /** Joining the pieces back gives the original string. */
  lemma {:induction false} JoinSplit(s: string, sep: char)
    ensures JoinWith(Split(s, sep), sep) == s
  {
    if s != [] {
      var rest := Split(s[1..], sep);
      JoinSplit(s[1..], sep);
      assert s == [s[0]] + s[1..];
      if s[0] == sep {
        assert ([""] + rest)[1..] == rest;
      } else if |rest| > 1 {
        var r := [[s[0]] + rest[0]] + rest[1..];
        assert r[1..] == rest[1..];
      }
    }
  }

  /** Splitting a joined list of separator-free pieces gives the pieces back. */
  lemma {:induction false} SplitJoin(pieces: seq<string>, sep: char)
    requires |pieces| >= 1
    requires forall k :: 0 <= k < |pieces| ==> sep !in pieces[k]
    ensures Split(JoinWith(pieces, sep), sep) == pieces
    decreases |pieces|
  {
    if |pieces| == 1 {
      SplitNoSep(pieces[0], [], sep);
      assert pieces[0] + [] == pieces[0];
    } else {
      SplitJoin(pieces[1..], sep);
      SplitNoSep(pieces[0], [sep] + JoinWith(pieces[1..], sep), sep);
      assert pieces[0] + [sep] + JoinWith(pieces[1..], sep) == pieces[0] + ([sep] + JoinWith(pieces[1..], sep));
      var t := [sep] + JoinWith(pieces[1..], sep);
      assert t[1..] == JoinWith(pieces[1..], sep);
    }
  }

  /** A separator-free prefix glues onto the first piece of what follows. */
  lemma {:induction false} SplitNoSep(x: string, t: string, sep: char)
    requires sep !in x
    requires t == [] || t[0] == sep
    ensures t == [] ==> Split(x + t, sep) == [x]
    ensures t != [] ==> Split(x + t, sep) == [x] + Split(t[1..], sep)
    decreases |x|
  {
    if x == [] {
      assert x + t == t;
      if t != [] {
        assert Split(t, sep) == [""] + Split(t[1..], sep);
      }
    } else {
      SplitNoSep(x[1..], t, sep);
      assert (x + t)[1..] == x[1..] + t;
      assert x == [x[0]] + x[1..];
    }
  }

  /** Empty inner pieces count: there is one piece more than separators. */
  lemma {:induction false} SplitCount(s: string, sep: char)
    ensures |Split(s, sep)| == multiset(s)[sep] + 1
  {
    if s != [] {
      SplitCount(s[1..], sep);
      assert s == [s[0]] + s[1..];
    }
  }

  /** `urlparse.urljoin(BASE_URL, href.lstrip('/'))` for a relative site path
      (menupages_crawl.py, lines 457 and 501): the path is appended to the base. */
  function FullUrl(href: string): (u: string)
    ensures |BaseUrl| <= |u| && u[..|BaseUrl|] == BaseUrl
  {
    BaseUrl + LStrip(href, '/')
  }

  /** `urlparse.urlparse(u).path`: what follows the scheme and host. */
  function UrlPath(u: string): (p: string)
  {
    if |Site| <= |u| && u[..|Site|] == Site then u[|Site|..] else u
  }

  /** The path of a joined link is the link with one leading slash. */
  lemma PathOfFullUrl(href: string)
    ensures UrlPath(FullUrl(href)) == "/" + LStrip(href, '/')
  {
    var u := FullUrl(href);
    assert u[..|Site|] == Site;
    assert u[|Site|..] == "/" + u[|BaseUrl|..];
  }

  /** Stripping leading slashes twice is stripping them once. */
  lemma {:induction false} LStripTwice(s: string, c: char)
    ensures LStrip(LStrip(s, c), c) == LStrip(s, c)
  {
    var r := LStrip(s, c);
    if r != [] {
      assert r[0] != c;
    }
  }

  /** Rebuilding a URL from its own path gives the URL back, which is what
      lets the link filter push the joined URL it checked against `crawled`. */
  lemma RebuildFullUrl(href: string)
    ensures FullUrl(UrlPath(FullUrl(href))) == FullUrl(href)
  {
    PathOfFullUrl(href);
    var p := "/" + LStrip(href, '/');
    assert LStrip(p, '/') == LStrip(p[1..], '/');
    assert p[1..] == LStrip(href, '/');
    LStripTwice(href, '/');
  }

  /** The path pieces the link filter compares (`path.strip('/').split('/')`). */
  function Pieces(path: string): (ws: seq<string>)
    ensures |ws| >= 1
  {
    Split(Strip(path, '/'), '/')
  }
}
