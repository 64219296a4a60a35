/** Python list helpers used by the crawler: `list.remove`, `list.index`,
    and `list_uniques`, whose `for` loop walks the very list it shrinks. */
module Lists {

  /** Every element of `s` occurs once. */
  ghost predicate Distinct<T>(s: seq<T>)
  {
    forall i, j :: 0 <= i < j < |s| ==> s[i] != s[j]
  }

  /** `a` is obtained from `b` by deleting elements (order kept). */
  ghost predicate IsSubseq<T>(a: seq<T>, b: seq<T>)
    decreases |b|
  {
    a == [] || (b != [] && ((a[0] == b[0] && IsSubseq(a[1..], b[1..])) || IsSubseq(a, b[1..])))
  }

  /** Python's `lst.remove(x)`: drops the first element equal to `x` (Python
      raises `ValueError` when there is none; `list_uniques` only calls it
      while `x` occurs twice). */
  function RemoveFirst<T(==)>(s: seq<T>, x: T): (r: seq<T>)
    requires x in s
    ensures r == s[..FirstIndex(s, x)] + s[FirstIndex(s, x) + 1..]
    ensures multiset(r) == multiset(s) - multiset{x}
    ensures |r| == |s| - 1
  {
    if s[0] == x then
      assert s == [s[0]] + s[1..];
      s[1..]
    else
      var t := RemoveFirst(s[1..], x);
      RemoveFirstStep(s, x, t);
      [s[0]] + t
  }

  lemma RemoveFirstStep<T>(s: seq<T>, x: T, t: seq<T>)
    requires s != [] && x in s[1..] && s[0] != x
    requires t == s[1..][..FirstIndex(s[1..], x)] + s[1..][FirstIndex(s[1..], x) + 1..]
    requires multiset(t) == multiset(s[1..]) - multiset{x}
    ensures [s[0]] + t == s[..FirstIndex(s, x)] + s[FirstIndex(s, x) + 1..]
    ensures multiset([s[0]] + t) == multiset(s) - multiset{x}
  {
    var i := FirstIndex(s[1..], x);
    assert FirstIndex(s, x) == i + 1;
    ConsSlices(s, i);
    ConsMultiset(s, x, t);
  }

  lemma ConsSlices<T>(s: seq<T>, i: nat)
    requires i + 1 < |s|
    ensures s[..i + 1] + s[i + 2..] == [s[0]] + (s[1..][..i] + s[1..][i + 1..])
  {
    assert s[..i + 1] == [s[0]] + s[1..][..i];
    assert s[i + 2..] == s[1..][i + 1..];
  }

  lemma ConsMultiset<T>(s: seq<T>, x: T, t: seq<T>)
    requires s != [] && x in s[1..]
    requires multiset(t) == multiset(s[1..]) - multiset{x}
    ensures multiset([s[0]] + t) == multiset(s) - multiset{x}
  {
    assert s == [s[0]] + s[1..];
    assert x in multiset(s[1..]);
  }

  /** Python's `lst.index(x)`: the position of the first element equal to `x`. */
  function FirstIndex<T(==)>(s: seq<T>, x: T): (i: nat)
    requires x in s
    ensures i < |s| && s[i] == x
    ensures forall j :: 0 <= j < i ==> s[j] != x
  {
    if s[0] == x then 0 else 1 + FirstIndex(s[1..], x)
  }

  /** The inner loop of `list_uniques`: `while lst.count(l) > 1: lst.remove(l)`. */
  function DropExtras<T(==)>(s: seq<T>, x: T): (r: seq<T>)
    ensures |r| <= |s|
    decreases multiset(s)[x]
  {
    if multiset(s)[x] > 1 then DropExtras(RemoveFirst(s, x), x) else s
  }

  /** The outer loop of `list_uniques` from list position `i` on: Python's
      `for l in lst` reads `lst[i]` and stops as soon as `i` reaches the
      current length, even though the list shrinks under it. */
  function UniquesFrom<T(==)>(s: seq<T>, i: nat): seq<T>
    decreases |s| - i
  {
    if i >= |s| then s else UniquesFrom(DropExtras(s, s[i]), i + 1)
  }

  /** What `list_uniques(olist)` returns. */
  function Uniques<T(==)>(s: seq<T>): seq<T>
  {
    UniquesFrom(s, 0)
  }

  /** `list_uniques` (menupages_crawl.py, lines 130-137), as written: the
      copy is a value, so the argument is never changed. */
  method ListUniques<T(==)>(olist: seq<T>) returns (lst: seq<T>)
    ensures lst == Uniques(olist)
    ensures IsSubseq(lst, olist)
    ensures forall y :: y in lst <==> y in olist
  {
    lst := olist;
    var i: nat := 0;
    while i < |lst|
      invariant UniquesFrom(lst, i) == Uniques(olist)
      decreases |lst| - i
    {
      var l := lst[i];
      ghost var before := lst;
      while multiset(lst)[l] > 1
        invariant DropExtras(lst, l) == DropExtras(before, l)
        invariant |lst| <= |before|
        decreases multiset(lst)[l]
      {
        lst := RemoveFirst(lst, l);
      }
      i := i + 1;
    }
    UniquesKeepsValues(olist);
    UniquesIsSubseq(olist);
  }

  lemma {:induction false} SubseqRefl<T>(s: seq<T>)
    ensures IsSubseq(s, s)
    decreases |s|
  {
    if s != [] {
      SubseqRefl(s[1..]);
    }
  }

  /** Removing an element keeps a subsequence a subsequence. */
  lemma {:induction false} RemoveFirstSubseq<T>(a: seq<T>, b: seq<T>, x: T)
    requires IsSubseq(a, b) && x in a
    ensures IsSubseq(RemoveFirst(a, x), b)
    decreases |b|
  {
    if a != [] {
      if a[0] == b[0] && IsSubseq(a[1..], b[1..]) {
        if a[0] != x {
          RemoveFirstSubseq(a[1..], b[1..], x);
          var r := RemoveFirst(a, x);
          assert r[0] == b[0] && r[1..] == RemoveFirst(a[1..], x);
        }
      } else {
        RemoveFirstSubseq(a, b[1..], x);
      }
    }
  }

  lemma {:induction false} DropExtrasSubseq<T>(s: seq<T>, b: seq<T>, x: T)
    requires IsSubseq(s, b)
    ensures IsSubseq(DropExtras(s, x), b)
    decreases multiset(s)[x]
  {
    if multiset(s)[x] > 1 {
      RemoveFirstSubseq(s, b, x);
      DropExtrasSubseq(RemoveFirst(s, x), b, x);
    }
  }

  lemma {:induction false} DropExtrasKeepsValues<T>(s: seq<T>, x: T)
    ensures forall y :: y in DropExtras(s, x) <==> y in s
    decreases multiset(s)[x]
  {
    if multiset(s)[x] > 1 {
      var r := RemoveFirst(s, x);
      forall y ensures y in r <==> y in s {
        assert multiset(r)[y] > 0 <==> multiset(s)[y] > 0;
      }
      DropExtrasKeepsValues(r, x);
    }
  }

  /** A value is removed only while another copy of it remains. */
  lemma {:induction false} UniquesKeepsValues<T>(s: seq<T>)
    ensures forall y :: y in Uniques(s) <==> y in s
  {
    UniquesFromKeepsValues(s, 0);
  }

  lemma {:induction false} UniquesFromKeepsValues<T>(s: seq<T>, i: nat)
    ensures forall y :: y in UniquesFrom(s, i) <==> y in s
    decreases |s| - i
  {
    if i < |s| {
      DropExtrasKeepsValues(s, s[i]);
      UniquesFromKeepsValues(DropExtras(s, s[i]), i + 1);
    }
  }

  /** The result keeps the order of the argument. */
  lemma UniquesIsSubseq<T>(s: seq<T>)
    ensures IsSubseq(Uniques(s), s)
  {
    SubseqRefl(s);
    UniquesFromSubseq(s, s, 0);
  }

  lemma {:induction false} UniquesFromSubseq<T>(s: seq<T>, b: seq<T>, i: nat)
    requires IsSubseq(s, b)
    ensures IsSubseq(UniquesFrom(s, i), b)
    decreases |s| - i
  {
    if i < |s| {
      DropExtrasSubseq(s, b, s[i]);
      UniquesFromSubseq(DropExtras(s, s[i]), b, i + 1);
    }
  }

  /** A list that has no repeated value comes back unchanged. */
  lemma {:induction false} UniquesOfDistinct<T>(s: seq<T>)
    requires Distinct(s)
    ensures Uniques(s) == s
  {
    forall i | 0 <= i < |s| ensures multiset(s)[s[i]] == 1 {
      DistinctCount(s, i);
    }
    UniquesFromDistinct(s, 0);
  }

  lemma {:induction false} DistinctCount<T>(s: seq<T>, i: nat)
    requires Distinct(s) && i < |s|
    ensures multiset(s)[s[i]] == 1
    decreases |s|
  {
    assert s == [s[0]] + s[1..];
    if i == 0 {
      assert s[0] !in s[1..];
    } else {
      DistinctCount(s[1..], i - 1);
    }
  }

  lemma {:induction false} UniquesFromDistinct<T>(s: seq<T>, i: nat)
    requires forall k :: 0 <= k < |s| ==> multiset(s)[s[k]] == 1
    ensures UniquesFrom(s, i) == s
    decreases |s| - i
  {
    if i < |s| {
      UniquesFromDistinct(s, i + 1);
    }
  }

  /** The doc comment promises unique elements, but an element that slides
      into the position the loop has just passed is never looked at again:
      `[a, b, a, c, b, c]` gives `[b, a, b, c]`. */
  lemma UniquesNotAlwaysDistinct<T>(a: T, b: T, c: T)
    requires a != b && b != c && a != c
    ensures Uniques([a, b, a, c, b, c]) == [b, a, b, c]
    ensures !Distinct(Uniques([a, b, a, c, b, c]))
  {
    AllPasses(a, b, c);
    RepeatsB(a, b, c);
  }

  lemma RepeatsB<T>(a: T, b: T, c: T)
    ensures [b] + ([a] + [b, c]) == [b, a, b, c]
    ensures !Distinct([b, a, b, c])
  {
    var s2 := [b, a, b, c];
    assert s2[0] == s2[2];
  }

  lemma AllPasses<T>(a: T, b: T, c: T)
    requires a != b && b != c && a != c
    ensures Uniques([a, b, a, c, b, c]) == [b] + ([a] + [b, c])
  {
    PassOne(a, b, c);
    Rest(a, b, c);
  }

  /** Passes two to four on what the first pass leaves. */
  lemma Rest<T>(a: T, b: T, c: T)
    requires a != b && b != c && a != c
    ensures UniquesFrom([b] + ([a] + ([c] + [b, c])), 1) == [b] + ([a] + [b, c])
  {
    var s1 := [b] + ([a] + ([c] + [b, c]));
    var s2 := [b] + ([a] + [b, c]);
    PassTwo(s1, a);
    RemoveSecondC(a, b, c);
    PassThree(s1, c, s2);
    PassFour(s2, c);
  }

  /** The first pass removes the first `a`. */
  lemma PassOne<T>(a: T, b: T, c: T)
    requires a != b && b != c && a != c
    ensures Uniques([a, b, a, c, b, c]) == UniquesFrom([b] + ([a] + ([c] + [b, c])), 1)
  {
    var s0 := [a, b, a, c, b, c];
    var s1 := [b] + ([a] + ([c] + [b, c]));
    assert s0[1..] == s1;
    DropFirstOfTwo(s0, a, s1);
    UniquesFromStep(s0, 0, s1);
  }

  /** The second pass looks at the remaining `a`, which is alone. */
  lemma PassTwo<T>(s1: seq<T>, a: T)
    requires |s1| > 2 && s1[1] == a && multiset(s1)[a] <= 1
    ensures UniquesFrom(s1, 1) == UniquesFrom(s1, 2)
  {
    DropNone(s1, a);
    UniquesFromStep(s1, 1, s1);
  }

  /** The third pass removes the first of two copies of `c`. */
  lemma PassThree<T>(s1: seq<T>, c: T, s2: seq<T>)
    requires |s1| > 2 && s1[2] == c && multiset(s1)[c] == 2 && RemoveFirst(s1, c) == s2
    ensures UniquesFrom(s1, 2) == UniquesFrom(s2, 3)
  {
    DropFirstOfTwo(s1, c, s2);
    UniquesFromStep(s1, 2, s2);
  }

  /** The last pass looks at the remaining `c`, and the loop ends. */
  lemma PassFour<T>(s2: seq<T>, c: T)
    requires |s2| == 4 && s2[3] == c && multiset(s2)[c] <= 1
    ensures UniquesFrom(s2, 3) == s2
  {
    DropNone(s2, c);
    UniquesFromStep(s2, 3, s2);
  }

  /** The second pass removes the first `c` of `[b, a, c, b, c]`. */
  lemma RemoveSecondC<T>(a: T, b: T, c: T)
    requires a != b && b != c && a != c
    ensures RemoveFirst([b] + ([a] + ([c] + [b, c])), c) == [b] + ([a] + [b, c])
  {
    var t1 := [c] + [b, c];
    var t2 := [a] + t1;
    RemoveFirstHead(c, [b, c]);
    RemoveFirstSkip(a, t1, c);
    RemoveFirstSkip(b, t2, c);
  }

  lemma RemoveFirstHead<T>(x: T, t: seq<T>)
    ensures RemoveFirst([x] + t, x) == t
  {
    assert ([x] + t)[1..] == t;
  }

  lemma RemoveFirstSkip<T>(y: T, t: seq<T>, x: T)
    requires y != x && x in t
    ensures RemoveFirst([y] + t, x) == [y] + RemoveFirst(t, x)
  {
    assert ([y] + t)[1..] == t;
  }

  lemma DropFirstOfTwo<T>(s: seq<T>, x: T, r: seq<T>)
    requires multiset(s)[x] == 2
    requires RemoveFirst(s, x) == r
    ensures DropExtras(s, x) == r
  {
  }

  lemma DropNone<T>(s: seq<T>, x: T)
    requires multiset(s)[x] <= 1
    ensures DropExtras(s, x) == s
  {
  }

  lemma UniquesFromStep<T>(s: seq<T>, i: nat, r: seq<T>)
    requires i < |s| && DropExtras(s, s[i]) == r
    ensures UniquesFrom(s, i) == UniquesFrom(r, i + 1)
  {
  }
}
