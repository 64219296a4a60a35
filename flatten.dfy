/** `flatten_dict` and `flatten_r` (menupages_crawl.py:90-127): turning a
    nested restaurant record into one level of keys joined by `_`. */
module Flatten {
  import opened Lists

  /** A value that is neither unicode text nor a container: a byte string
      (what `encode('utf-8')` yields), an integer, or `None`. */
  datatype Scalar = Bytes(b: string) | Int(i: int) | NoneValue

  /** The dynamic values a record holds. */
  datatype Value =
    | Str(s: string)                       // a unicode string
    | Other(x: Scalar)
    | List(elems: seq<Value>)
    | Dict(fields: map<string, Value>)

  /** The key the loop over `ks` visits last. Python 2 dicts are visited in
      hash order, which the model leaves unspecified; both flatteners share
      this one order. */
  ghost function Pick(ks: set<string>): (k: string)
    requires ks != {}
    ensures k in ks
  {
    var k :| k in ks; k
  }

  /** `res[k+'_'+subk] = subv` for every entry of a flattened sub-dict. */
  function Prefixed(k: string, sub: map<string, Value>): (r: map<string, Value>)
    ensures forall s :: s in sub ==> k + "_" + s in r && r[k + "_" + s] == sub[s]
    ensures forall key :: key in r ==> exists s :: s in sub && key == k + "_" + s
  {
    forall s, t | s in sub && t in sub && k + "_" + s == k + "_" + t ensures s == t {
      PrefixCancel(k + "_", s, t);
    }
    map s | s in sub :: k + "_" + s := sub[s]
  }

  lemma PrefixCancel(p: string, s: string, t: string)
    requires p + s == p + t
    ensures s == t
  {
    assert s == (p + s)[|p|..];
    assert t == (p + t)[|p|..];
  }

  // ---------------------------------------------------------------- flatten_dict

  /** `flatten_dict(d)` (lines 90-100). */
  ghost function FlattenDict(m: map<string, Value>): (r: map<string, Value>)
    ensures forall k :: k in r ==> !r[k].Dict?
    decreases Dict(m), 1
  {
    FlattenKeys(m, m.Keys)
  }

  /** The loop of `flatten_dict` over the keys `ks`, the last-visited key
      writing last. */
  ghost function FlattenKeys(m: map<string, Value>, ks: set<string>): (r: map<string, Value>)
    requires ks <= m.Keys
    ensures forall k :: k in r ==> !r[k].Dict?
    decreases Dict(m), 0, ks
  {
    if ks == {} then map[]
    else
      var k := Pick(ks);
      FlattenKeys(m, ks - {k}) + Contribution(k, m[k])
  }

  /** What one entry `k: v` writes into the result of `flatten_dict`. */
  ghost function Contribution(k: string, v: Value): (r: map<string, Value>)
    ensures forall key :: key in r ==> !r[key].Dict?
    decreases v, 2
  {
    if v.Dict? then Prefixed(k, FlattenDict(v.fields)) else map[k := v]
  }

  /** The key a leaf under the keys `p[0]`, ..., `p[n-1]` is stored at. */
  function Key(p: seq<string>): (key: string)
    requires |p| >= 1
    ensures |key| >= |p[0]| && key[..|p[0]|] == p[0]
  {
    if |p| == 1 then p[0] else p[0] + "_" + Key(p[1..])
  }

  /** `v` is a non-dict value reached from `m` through the keys `p`. */
  ghost predicate IsLeaf(m: map<string, Value>, p: seq<string>, v: Value)
    decreases |p|
  {
    && |p| >= 1 && p[0] in m
    && if |p| == 1 then !m[p[0]].Dict? && m[p[0]] == v
       else m[p[0]].Dict? && IsLeaf(m[p[0]].fields, p[1..], v)
  }

  /** `v` is a leaf of `m` whose joined path is `key`. */
  ghost predicate StoredLeaf(m: map<string, Value>, key: string, v: Value)
  {
    exists p :: IsLeaf(m, p, v) && Key(p) == key
  }

  /** Every entry of the flattened dict is a leaf of the original, stored
      at the joined key of its path. */
  lemma {:induction false} FlattenSound(m: map<string, Value>)
    ensures forall key :: key in FlattenDict(m) ==>
      StoredLeaf(m, key, FlattenDict(m)[key])
    decreases Dict(m), 1
  {
    FlattenKeysSound(m, m.Keys);
  }

  lemma {:induction false} FlattenKeysSound(m: map<string, Value>, ks: set<string>)
    requires ks <= m.Keys
    ensures forall key :: key in FlattenKeys(m, ks) ==>
      StoredLeaf(m, key, FlattenKeys(m, ks)[key])
    decreases Dict(m), 0, ks
  {
    if ks != {} {
      var k := Pick(ks);
      var rest := FlattenKeys(m, ks - {k});
      var c := Contribution(k, m[k]);
      assert FlattenKeys(m, ks) == rest + c;
      FlattenKeysSound(m, ks - {k});
      forall key | key in FlattenKeys(m, ks)
        ensures StoredLeaf(m, key, FlattenKeys(m, ks)[key])
      {
        if key in c {
          ContributionSound(m, k, key);
        } else {
          assert StoredLeaf(m, key, rest[key]);
        }
      }
    }
  }

  /** An entry written by key `k` of `m` is a leaf of `m` under `k`. */
  lemma {:induction false} ContributionSound(m: map<string, Value>, k: string, key: string)
    requires k in m && key in Contribution(k, m[k])
    ensures StoredLeaf(m, key, Contribution(k, m[k])[key])
    decreases m[k], 2
  {
    var v := m[k];
    if v.Dict? {
      var sub := FlattenDict(v.fields);
      var s :| s in sub && key == k + "_" + s;
      FlattenSound(v.fields);
      var q :| IsLeaf(v.fields, q, sub[s]) && Key(q) == s;
      var p := [k] + q;
      assert p[1..] == q;
      assert IsLeaf(m, p, sub[s]) && Key(p) == key;
    } else {
      assert IsLeaf(m, [k], v) && Key([k]) == key;
    }
  }

  /** Every leaf of the original appears at its joined key. */
  lemma {:induction false} FlattenComplete(m: map<string, Value>, p: seq<string>, v: Value)
    requires IsLeaf(m, p, v)
    ensures Key(p) in FlattenDict(m)
    decreases Dict(m), 1
  {
    FlattenKeysComplete(m, m.Keys, p, v);
  }

  lemma {:induction false} FlattenKeysComplete(m: map<string, Value>, ks: set<string>, p: seq<string>, v: Value)
    requires ks <= m.Keys && IsLeaf(m, p, v) && p[0] in ks
    ensures Key(p) in FlattenKeys(m, ks)
    decreases Dict(m), 0, ks
  {
    var k := Pick(ks);
    if p[0] == k {
      if |p| > 1 {
        FlattenComplete(m[k].fields, p[1..], v);
      }
    } else {
      FlattenKeysComplete(m, ks - {k}, p, v);
    }
  }

  /** A leaf whose joined key no leaf with another value shares is stored
      with its own value. */
  lemma LeafValue(m: map<string, Value>, p: seq<string>, v: Value)
    requires IsLeaf(m, p, v)
    requires forall q, w :: IsLeaf(m, q, w) && Key(q) == Key(p) ==> w == v
    ensures Key(p) in FlattenDict(m) && FlattenDict(m)[Key(p)] == v
  {
    FlattenComplete(m, p, v);
    FlattenSound(m);
  }

  /** A dict without dict values comes back unchanged. */
  lemma FlatUnchanged(m: map<string, Value>)
    requires forall k :: k in m ==> !m[k].Dict?
    ensures FlattenDict(m) == m
  {
    FlatKeysUnchanged(m, m.Keys);
  }

  lemma {:induction false} FlatKeysUnchanged(m: map<string, Value>, ks: set<string>)
    requires ks <= m.Keys
    requires forall k :: k in m ==> !m[k].Dict?
    ensures FlattenKeys(m, ks) == map k | k in ks :: m[k]
    decreases ks
  {
    if ks != {} {
      var k := Pick(ks);
      FlatKeysUnchanged(m, ks - {k});
    }
  }

  /** Flattening twice is flattening once. */
  lemma FlattenIdempotent(m: map<string, Value>)
    ensures FlattenDict(FlattenDict(m)) == FlattenDict(m)
  {
    FlatUnchanged(FlattenDict(m));
  }

  // ---------------------------------------------------------------- flatten_r

  /** `'%d' % n`. */
  function Dec(n: nat): (s: string)
    ensures |s| >= 1
    ensures forall i :: 0 <= i < |s| ==> '0' <= s[i] <= '9'
  {
    if n < 10 then [Digit(n)] else Dec(n / 10) + [Digit(n % 10)]
  }

  function Digit(d: nat): (c: char)
    requires d < 10
    ensures '0' <= c <= '9' && c as int - '0' as int == d
  {
    ('0' as int + d) as char
  }

  /** The number a string of decimal digits denotes, read left to right. */
  function DecValue(s: string): int
  {
    if s == [] then 0 else 10 * DecValue(s[..|s| - 1]) + (s[|s| - 1] as int - '0' as int)
  }

  /** `'%d' % n` is the decimal numeral of `n`: its digits read back as `n`,
      and only the numeral of 0 starts with `0`. */
  lemma {:induction false} DecReadsBack(n: nat)
    ensures DecValue(Dec(n)) == n
    ensures Dec(n)[0] == '0' ==> n == 0
    ensures |Dec(n)| > 1 <==> n >= 10
  {
    var s := Dec(n);
    if n >= 10 {
      DecReadsBack(n / 10);
      assert s[..|s| - 1] == Dec(n / 10);
      assert s[0] == Dec(n / 10)[0];
    }
  }

  /** Different numbers print differently. */
  lemma {:induction false} DecInjective(a: nat, b: nat)
    requires Dec(a) == Dec(b)
    ensures a == b
  {
    if a >= 10 && b >= 10 {
      var da, db := Dec(a), Dec(b);
      assert da[|da| - 1] == Digit(a % 10);
      assert db[|db| - 1] == Digit(b % 10);
      assert Dec(a / 10) == da[..|da| - 1];
      assert Dec(b / 10) == db[..|db| - 1];
      DecInjective(a / 10, b / 10);
    } else if a < 10 && b < 10 {
      assert Dec(a)[0] == Digit(a);
    }
  }

  /** `flatten_r(d)` (lines 103-127). */
  ghost function FlattenR(m: map<string, Value>): (r: map<string, Value>)
    decreases Dict(m), 2
  {
    FlattenRKeys(m, m.Keys)
  }

  /** The loop of `flatten_r` over the keys `ks`, in the same order as
      `flatten_dict`. */
  ghost function FlattenRKeys(m: map<string, Value>, ks: set<string>): (r: map<string, Value>)
    requires ks <= m.Keys
    decreases Dict(m), 1, ks
  {
    if ks == {} then map[]
    else
      var k := Pick(ks);
      FlattenRKeys(m, ks - {k}) + RContribution(k, m[k])
  }

  /** What one entry `k: v` writes into the result of `flatten_r`. */
  ghost function RContribution(k: string, v: Value): (r: map<string, Value>)
    decreases v, 5
  {
    match v
    case Dict(f) => Prefixed(k, FlattenDict(f))
    case List(xs) => map[k := Other(Int(|xs|))] + ListEntries(k, xs, 0)
    case Str(s) => map[k := Other(Bytes(s))]
    case Other(_) => map[k := v]
  }

  /** `k + '_%d' % v.index(li)`, the key the element `xs[j]` is written at. */
  function ElemKey(k: string, xs: seq<Value>, j: nat): string
    requires j < |xs|
  {
    k + "_" + Dec(FirstIndex(xs, xs[j]))
  }

  /** What the element `li` of a list of length `n` is written as. */
  ghost function ElemValue(li: Value, n: nat): Value
    decreases li, 3
  {
    match li
    case Str(s) => Other(Bytes(s))
    case Dict(f) => Dict(FlattenR(f))
    case _ => Other(Int(n))
  }

  /** The inner `for li in v` loop from element `j` on. */
  ghost function ListEntries(k: string, xs: seq<Value>, j: nat): map<string, Value>
    requires j <= |xs|
    decreases List(xs), 4, |xs| - j
  {
    if j == |xs| then map[]
    else map[ElemKey(k, xs, j) := ElemValue(xs[j], |xs|)] + ListEntries(k, xs, j + 1)
  }

  /** Two elements share a key exactly when they are equal. */
  lemma ElemKeyIff(k: string, xs: seq<Value>, i: nat, j: nat)
    requires i < |xs| && j < |xs|
    ensures ElemKey(k, xs, i) == ElemKey(k, xs, j) <==> xs[i] == xs[j]
  {
    if ElemKey(k, xs, i) == ElemKey(k, xs, j) {
      PrefixCancel(k + "_", Dec(FirstIndex(xs, xs[i])), Dec(FirstIndex(xs, xs[j])));
      DecInjective(FirstIndex(xs, xs[i]), FirstIndex(xs, xs[j]));
    }
  }

  /** Each entry of the inner loop from `j` on is some element's key. */
  lemma {:induction false} ListEntriesKeys(k: string, xs: seq<Value>, j: nat)
    requires j <= |xs|
    ensures forall key :: key in ListEntries(k, xs, j) ==>
      exists i :: j <= i < |xs| && key == ElemKey(k, xs, i)
    decreases |xs| - j
  {
    if j < |xs| {
      ListEntriesKeys(k, xs, j + 1);
    }
  }

  /** Each element from `j` on is stored at its key with its value. */
  lemma {:induction false} ListEntriesValues(k: string, xs: seq<Value>, j: nat)
    requires j <= |xs|
    ensures forall i :: j <= i < |xs| ==>
      ElemKey(k, xs, i) in ListEntries(k, xs, j) &&
      ListEntries(k, xs, j)[ElemKey(k, xs, i)] == ElemValue(xs[i], |xs|)
    decreases |xs| - j
  {
    if j < |xs| {
      ListEntriesValues(k, xs, j + 1);
      ListEntriesHead(k, xs, j);
    }
  }

  lemma ListEntriesHead(k: string, xs: seq<Value>, j: nat)
    requires j < |xs|
    requires forall i :: j + 1 <= i < |xs| ==>
      ElemKey(k, xs, i) in ListEntries(k, xs, j + 1) &&
      ListEntries(k, xs, j + 1)[ElemKey(k, xs, i)] == ElemValue(xs[i], |xs|)
    ensures ListEntries(k, xs, j)[ElemKey(k, xs, j)] == ElemValue(xs[j], |xs|)
  {
    var rest := ListEntries(k, xs, j + 1);
    var key := ElemKey(k, xs, j);
    ListEntriesKeys(k, xs, j + 1);
    if key in rest {
      var i :| j + 1 <= i < |xs| && key == ElemKey(k, xs, i);
      ElemKeyIff(k, xs, i, j);
    }
  }

  /** A list value `xs` at key `k` is written as `len(xs)` at `k` and each
      element at `k` plus `_` plus the index of its first occurrence, so
      equal elements share one key and distinct elements do not. */
  lemma ListContribution(k: string, xs: seq<Value>)
    ensures k in RContribution(k, List(xs)) && RContribution(k, List(xs))[k] == Other(Int(|xs|))
    ensures forall j :: 0 <= j < |xs| ==>
      ElemKey(k, xs, j) in RContribution(k, List(xs)) &&
      RContribution(k, List(xs))[ElemKey(k, xs, j)] == ElemValue(xs[j], |xs|)
    ensures forall key :: key in RContribution(k, List(xs)) ==>
      key == k || exists j :: 0 <= j < |xs| && key == ElemKey(k, xs, j)
  {
    ListEntriesKeys(k, xs, 0);
    ListEntriesValues(k, xs, 0);
    forall j | 0 <= j < |xs| ensures ElemKey(k, xs, j) != k {
      assert |ElemKey(k, xs, j)| > |k|;
    }
  }

  /** Every entry of `flatten_r` comes from the write of one key of the
      original, with that write's value. */
  lemma {:induction false} FlattenRSound(m: map<string, Value>, ks: set<string>)
    requires ks <= m.Keys
    ensures forall key :: key in FlattenRKeys(m, ks) ==>
      exists k :: k in ks && key in RContribution(k, m[k]) &&
        FlattenRKeys(m, ks)[key] == RContribution(k, m[k])[key]
    decreases ks
  {
    if ks != {} {
      var k := Pick(ks);
      FlattenRSound(m, ks - {k});
    }
  }

  /** Every write of every key of the original is present in `flatten_r`. */
  lemma {:induction false} FlattenRComplete(m: map<string, Value>, ks: set<string>)
    requires ks <= m.Keys
    ensures forall k, key :: k in ks && key in RContribution(k, m[k]) ==> key in FlattenRKeys(m, ks)
    decreases ks
  {
    if ks != {} {
      var k := Pick(ks);
      FlattenRComplete(m, ks - {k});
    }
  }

  /** On a record holding only scalars and dicts, `flatten_r` is
      `flatten_dict`. */
  lemma FlattenRAgrees(m: map<string, Value>)
    requires forall k :: k in m ==> m[k].Dict? || m[k].Other?
    ensures FlattenR(m) == FlattenDict(m)
  {
    FlattenRKeysAgree(m, m.Keys);
  }

  lemma {:induction false} FlattenRKeysAgree(m: map<string, Value>, ks: set<string>)
    requires ks <= m.Keys
    requires forall k :: k in m ==> m[k].Dict? || m[k].Other?
    ensures FlattenRKeys(m, ks) == FlattenKeys(m, ks)
    decreases ks
  {
    if ks != {} {
      var k := Pick(ks);
      FlattenRKeysAgree(m, ks - {k});
    }
  }
}
