/** Ranking primitives shared by every recommender in the repository: a
    deterministic sort of row positions, Python's slice semantics, and sums and
    means over exact reals. */
module Ranking {

  /** The sort key of one row. Rows with a higher score come first; among equal
      scores the row with the smaller tie value comes first. Stable sorts use the
      same tie value for every row. */
  datatype Key = Key(score: real, tie: int)

  predicate Beats(a: Key, b: Key) {
    a.score > b.score || (a.score == b.score && a.tie < b.tie)
  }

  /** Position i is ranked before position j: its key beats the key of j, or the
      two keys are equal and i came first in the input. */
  predicate Before(keys: seq<Key>, i: nat, j: nat)
    requires i < |keys| && j < |keys|
  {
    Beats(keys[i], keys[j]) || (keys[i] == keys[j] && i < j)
  }

  predicate InRange(keys: seq<Key>, p: seq<nat>) {
    forall k :: 0 <= k < |p| ==> p[k] < |keys|
  }

  predicate StrictlySorted(keys: seq<Key>, p: seq<nat>)
    requires InRange(keys, p)
  {
    forall i, j :: 0 <= i < j < |p| ==> Before(keys, p[i], p[j])
  }

  /** p lists every position of keys exactly once, best first. */
  predicate IsRanking(keys: seq<Key>, p: seq<nat>) {
    && |p| == |keys|
    && InRange(keys, p)
    && StrictlySorted(keys, p)
    && forall i :: 0 <= i < |keys| ==> i in p
  }

  /** Insert position x into the ranked positions p. */
  function Insert(keys: seq<Key>, x: nat, p: seq<nat>): (r: seq<nat>)
    requires x < |keys| && InRange(keys, p)
    ensures |r| == |p| + 1
    ensures InRange(keys, r)
    ensures forall y :: y in r <==> y == x || y in p
  {
    if |p| == 0 then [x]
    else if Before(keys, x, p[0]) then [x] + p
    else [p[0]] + Insert(keys, x, p[1..])
  }

  /** Inserting a new position into a ranked list keeps it ranked. */
  lemma {:induction false} InsertSorted(keys: seq<Key>, x: nat, p: seq<nat>)
    requires x < |keys| && InRange(keys, p)
    requires StrictlySorted(keys, p) && x !in p
    ensures StrictlySorted(keys, Insert(keys, x, p))
  {
    if |p| > 0 && !Before(keys, x, p[0]) {
      var t := p[1..];
      assert StrictlySorted(keys, t) by {
        forall i, j | 0 <= i < j < |t|
          ensures Before(keys, t[i], t[j])
        {
          assert t[i] == p[i + 1] && t[j] == p[j + 1];
        }
      }
      InsertSorted(keys, x, t);
      var r := Insert(keys, x, p);
      var rest := Insert(keys, x, t);
      assert r == [p[0]] + rest;
      forall j | 1 <= j < |r|
        ensures Before(keys, p[0], r[j])
      {
        assert r[j] == rest[j - 1];
        assert r[j] in rest;
        if r[j] != x {
          assert r[j] in t;
          var k :| 0 <= k < |t| && t[k] == r[j];
          assert t[k] == p[k + 1];
        }
      }
    }
  }

  /** Insertion sort of the positions k, k+1, ..., |keys|-1. */
  function SortFrom(keys: seq<Key>, k: nat): (r: seq<nat>)
    requires k <= |keys|
    ensures |r| == |keys| - k
    ensures InRange(keys, r)
    ensures forall y :: y in r <==> k <= y < |keys|
    ensures StrictlySorted(keys, r)
    decreases |keys| - k
  {
    if k == |keys| then []
    else
      var rest := SortFrom(keys, k + 1);
      InsertSorted(keys, k, rest);
      Insert(keys, k, rest)
  }

  /** The ranking of all positions of keys. */
  function Rank(keys: seq<Key>): (r: seq<nat>)
    ensures IsRanking(keys, r)
  {
    SortFrom(keys, 0)
  }

  lemma NonEmptyHasMember(p: seq<nat>)
    ensures |p| > 0 ==> p[0] in p
  {
  }

  lemma FirstIsLeast(keys: seq<Key>, p: seq<nat>, y: nat)
    requires InRange(keys, p) && StrictlySorted(keys, p)
    requires y in p
    ensures y == p[0] || (y < |keys| && Before(keys, p[0], y))
  {
    var i :| 0 <= i < |p| && p[i] == y;
  }

  /** Two strictly sorted position lists with the same elements are equal. */
  lemma {:induction false} SortedUnique(keys: seq<Key>, p: seq<nat>, q: seq<nat>)
    requires InRange(keys, p) && InRange(keys, q)
    requires StrictlySorted(keys, p) && StrictlySorted(keys, q)
    requires forall y :: y in p <==> y in q
    ensures p == q
    decreases |p|
  {
    if |p| == 0 || |q| == 0 {
      NonEmptyHasMember(p);
      NonEmptyHasMember(q);
    } else {
      FirstIsLeast(keys, p, q[0]);
      FirstIsLeast(keys, q, p[0]);
      assert p[0] == q[0];
      forall y
        ensures y in p[1..] <==> y in q[1..]
      {
        if y in p[1..] {
          var i :| 1 <= i < |p| && p[i] == y;
          assert Before(keys, p[0], p[i]);
          assert y in q;
          var j :| 0 <= j < |q| && q[j] == y;
          assert j != 0;
          assert q[1..][j - 1] == y;
        }
        if y in q[1..] {
          var j :| 1 <= j < |q| && q[j] == y;
          assert Before(keys, q[0], q[j]);
          assert y in p;
          var i :| 0 <= i < |p| && p[i] == y;
          assert i != 0;
          assert p[1..][i - 1] == y;
        }
      }
      SortedUnique(keys, p[1..], q[1..]);
    }
  }

  /** Determinism: Rank is the only ranking of a key sequence, so the order of
      every sorted output, tie-breaks included, is fixed by the keys alone. */
  lemma RankIsUnique(keys: seq<Key>, p: seq<nat>)
    requires IsRanking(keys, p)
    ensures p == Rank(keys)
  {
    var q := Rank(keys);
    forall y
      ensures y in p <==> y in q
    {
      if y in p {
        var i :| 0 <= i < |p| && p[i] == y;
      }
    }
    SortedUnique(keys, p, q);
  }

  /** The rows of s in the order given by the positions p. */
  function Permute<T>(s: seq<T>, p: seq<nat>): (r: seq<T>)
    requires forall k :: 0 <= k < |p| ==> p[k] < |s|
    ensures |r| == |p|
    ensures forall k :: 0 <= k < |p| ==> r[k] == s[p[k]]
  {
    seq(|p|, k requires 0 <= k < |p| => s[p[k]])
  }

  /** Key a is ranked no lower than key b. */
  predicate AtLeast(a: Key, b: Key) {
    Beats(a, b) || a == b
  }

  function KeysOf<T>(s: seq<T>, key: T -> Key): (keys: seq<Key>)
    ensures |keys| == |s|
    ensures forall i :: 0 <= i < |s| ==> keys[i] == key(s[i])
  {
    seq(|s|, i requires 0 <= i < |s| => key(s[i]))
  }

  /** Sort s by key, best first; rows with equal keys keep their input order.
      This is Python's stable sort with reverse=True when every key has the same
      tie value. */
  function SortBy<T(==)>(s: seq<T>, key: T -> Key): (r: seq<T>)
    ensures |r| == |s|
    ensures forall k :: 0 <= k < |r| ==> r[k] in s
    ensures forall k :: 0 <= k < |s| ==> s[k] in r
    ensures forall i, j :: 0 <= i < j < |r| ==> AtLeast(key(r[i]), key(r[j]))
    ensures Distinct(s) ==> Distinct(r)
    ensures Distinct(s) ==> forall i, j :: 0 <= i < j < |r| && key(r[i]) == key(r[j])
                                      ==> IndexOf(s, r[i]) < IndexOf(s, r[j])
  {
    var keys := KeysOf(s, key);
    var p := Rank(keys);
    var r := Permute(s, p);
    SortByFacts(s, keys, p, r);
    r
  }

  /** Sorting rearranges: the sorted rows are the input rows, each as many
      times as it occurs in the input. */
  lemma SortByPermutes<T>(s: seq<T>, key: T -> Key)
    ensures multiset(SortBy(s, key)) == multiset(s)
  {
    var keys := KeysOf(s, key);
    GatherSortFrom(s, keys, 0);
    GatherIsPermute(s, SortFrom(keys, 0));
  }

  /** The rows a position list names, one by one from the front. */
  function Gather<T>(s: seq<T>, p: seq<nat>): seq<T>
    requires forall k :: 0 <= k < |p| ==> p[k] < |s|
    decreases |p|
  {
    if |p| == 0 then [] else [s[p[0]]] + Gather(s, p[1..])
  }

  lemma {:induction false} GatherIsPermute<T>(s: seq<T>, p: seq<nat>)
    requires forall k :: 0 <= k < |p| ==> p[k] < |s|
    ensures Gather(s, p) == Permute(s, p)
    decreases |p|
  {
    if |p| > 0 {
      GatherIsPermute(s, p[1..]);
    }
  }

  /** Inserting position x into p adds the row s[x] to the rows p names. */
  lemma {:induction false} GatherInsert<T>(s: seq<T>, keys: seq<Key>, x: nat, p: seq<nat>)
    requires |keys| == |s| && x < |keys| && InRange(keys, p)
    ensures multiset(Gather(s, Insert(keys, x, p))) == multiset(Gather(s, p)) + multiset{s[x]}
    decreases |p|
  {
    if |p| > 0 && !Before(keys, x, p[0]) {
      GatherInsert(s, keys, x, p[1..]);
    }
  }

  /** The positions k.. sorted name exactly the rows s[k..], with their
      multiplicities. */
  lemma {:induction false} GatherSortFrom<T>(s: seq<T>, keys: seq<Key>, k: nat)
    requires |keys| == |s| && k <= |keys|
    ensures multiset(Gather(s, SortFrom(keys, k))) == multiset(s[k..])
    decreases |keys| - k
  {
    if k < |keys| {
      GatherSortFrom(s, keys, k + 1);
      GatherInsert(s, keys, k, SortFrom(keys, k + 1));
      MultisetOfSuffix(s, k);
    }
  }

  lemma MultisetOfSuffix<T>(s: seq<T>, k: nat)
    requires k < |s|
    ensures multiset(s[k..]) == multiset(s[k + 1..]) + multiset{s[k]}
  {
    assert s[k..] == [s[k]] + s[k + 1..];
  }

  lemma SortByFacts<T>(s: seq<T>, keys: seq<Key>, p: seq<nat>, r: seq<T>)
    requires |keys| == |s| && IsRanking(keys, p)
    requires |r| == |p| && forall k :: 0 <= k < |p| ==> r[k] == s[p[k]]
    ensures forall k :: 0 <= k < |r| ==> r[k] in s
    ensures forall k :: 0 <= k < |s| ==> s[k] in r
    ensures forall i, j :: 0 <= i < j < |r| ==> AtLeast(keys[p[i]], keys[p[j]])
    ensures Distinct(s) ==> Distinct(r)
    ensures Distinct(s) ==> forall i, j :: 0 <= i < j < |r| && keys[p[i]] == keys[p[j]]
                                      ==> IndexOf(s, r[i]) < IndexOf(s, r[j])
  {
    forall i | 0 <= i < |s|
      ensures s[i] in r
    {
      assert i in p;
      var k :| 0 <= k < |p| && p[k] == i;
      assert r[k] == s[i];
    }
    forall i, j | 0 <= i < j < |r|
      ensures AtLeast(keys[p[i]], keys[p[j]])
    {
      assert Before(keys, p[i], p[j]);
    }
    if Distinct(s) {
      forall i, j | 0 <= i < j < |r|
        ensures r[i] != r[j]
        ensures keys[p[i]] == keys[p[j]] ==> IndexOf(s, r[i]) < IndexOf(s, r[j])
      {
        assert Before(keys, p[i], p[j]);
        DistinctIndexOf(s, p[i]);
        DistinctIndexOf(s, p[j]);
      }
    }
  }

  predicate Distinct<T(==)>(s: seq<T>) {
    forall i, j :: 0 <= i < j < |s| ==> s[i] != s[j]
  }

  /** The position of the first occurrence of x in s. */
  function IndexOf<T(==)>(s: seq<T>, x: T): (i: nat)
    requires x in s
    ensures i < |s| && s[i] == x
    ensures forall k :: 0 <= k < i ==> s[k] != x
  {
    if s[0] == x then 0 else 1 + IndexOf(s[1..], x)
  }

  lemma DistinctIndexOf<T>(s: seq<T>, i: nat)
    requires Distinct(s) && i < |s|
    ensures IndexOf(s, s[i]) == i
  {
  }

  /** A row missing from a prefix of a sorted list ranks no higher than any row
      of the prefix. */
  lemma PrefixKeepsBest<T>(sorted: seq<T>, r: seq<T>, key: T -> Key, m: nat)
    requires forall i, j :: 0 <= i < j < |sorted| ==> AtLeast(key(sorted[i]), key(sorted[j]))
    requires |r| <= |sorted| && r == sorted[..|r|]
    requires m < |sorted| && sorted[m] !in r
    ensures forall k :: 0 <= k < |r| ==> AtLeast(key(r[k]), key(sorted[m]))
  {
    assert forall k :: 0 <= k < |r| ==> sorted[k] == r[k] && r[k] in r;
  }

  /** The best n rows of s by key (Python's sorted(...)[:n], pandas'
      sort_values(...).head(n)). */
  function TopBy<T(==)>(s: seq<T>, key: T -> Key, n: int): (r: seq<T>)
    ensures |r| <= |s| && (0 <= n ==> |r| <= n)
    ensures 0 <= n && n <= |s| ==> |r| == n
    ensures 0 <= n && |s| <= n ==> |r| == |s|
    ensures n < 0 ==> |r| == if |s| + n < 0 then 0 else |s| + n
    ensures forall k :: 0 <= k < |r| ==> r[k] in s
    ensures forall i, j :: 0 <= i < j < |r| ==> AtLeast(key(r[i]), key(r[j]))
    ensures Distinct(s) ==> Distinct(r)
    ensures Distinct(s) ==> forall i, j :: 0 <= i < j < |r| && key(r[i]) == key(r[j])
                                      ==> IndexOf(s, r[i]) < IndexOf(s, r[j])
    ensures forall i :: 0 <= i < |s| && s[i] !in r ==> forall k :: 0 <= k < |r| ==> AtLeast(key(r[k]), key(s[i]))
  {
    var r := Head(SortBy(s, key), n);
    HeadOfSorted(s, key, r);
    HeadKeepsBest(s, key, r);
    r
  }

  /** A prefix of the sorted rows is drawn from s, sorted, and inherits the
      tie order of the sort. */
  lemma HeadOfSorted<T>(s: seq<T>, key: T -> Key, r: seq<T>)
    requires |r| <= |s| && r == SortBy(s, key)[..|r|]
    ensures forall k :: 0 <= k < |r| ==> r[k] in s
    ensures forall i, j :: 0 <= i < j < |r| ==> AtLeast(key(r[i]), key(r[j]))
    ensures Distinct(s) ==> Distinct(r)
    ensures Distinct(s) ==> forall i, j :: 0 <= i < j < |r| && key(r[i]) == key(r[j])
                                      ==> IndexOf(s, r[i]) < IndexOf(s, r[j])
  {
    var sorted := SortBy(s, key);
    assert forall k :: 0 <= k < |r| ==> r[k] == sorted[k];
  }

  /** Every row of s left out of a prefix of the sorted rows ranks no higher
      than the rows kept. */
  lemma HeadKeepsBest<T>(s: seq<T>, key: T -> Key, r: seq<T>)
    requires |r| <= |s| && r == SortBy(s, key)[..|r|]
    ensures forall i :: 0 <= i < |s| && s[i] !in r ==> forall k :: 0 <= k < |r| ==> AtLeast(key(r[k]), key(s[i]))
  {
    var sorted := SortBy(s, key);
    forall i | 0 <= i < |s| && s[i] !in r
      ensures forall k :: 0 <= k < |r| ==> AtLeast(key(r[k]), key(s[i]))
    {
      var m :| 0 <= m < |sorted| && sorted[m] == s[i];
      PrefixKeepsBest(sorted, r, key, m);
    }
  }

  /** A key ranked no lower than another and the other way round is the same
      key. */
  lemma AtLeastAntisymmetric(a: Key, b: Key)
    requires AtLeast(a, b) && AtLeast(b, a)
    ensures a == b
  {
  }

  /** When no two rows of s share a key, TopBy's contract determines its
      result: any list of min(n, |s|) distinct rows of s, sorted by key, that
      leaves out only rows ranking no higher than those it keeps, is TopBy. */
  lemma {:induction false} TopByDetermined<T>(s: seq<T>, key: T -> Key, n: int, r: seq<T>)
    requires Distinct(s) && 0 <= n
    requires forall i, j :: 0 <= i < |s| && 0 <= j < |s| && key(s[i]) == key(s[j]) ==> i == j
    requires |r| == if n < |s| then n else |s|
    requires Distinct(r) && forall k :: 0 <= k < |r| ==> r[k] in s
    requires forall i, j :: 0 <= i < j < |r| ==> AtLeast(key(r[i]), key(r[j]))
    requires forall i :: 0 <= i < |s| && s[i] !in r ==> forall k :: 0 <= k < |r| ==> AtLeast(key(r[k]), key(s[i]))
    ensures r == TopBy(s, key, n)
  {
    var t := TopBy(s, key, n);
    forall k | 0 <= k < |r|
      ensures r[k] == t[k]
    {
      SamePlace(s, key, r, t, k);
    }
  }

  /** Two lists meeting TopBy's contract over rows with distinct keys agree at
      place k, given that they agree before it. */
  lemma {:induction false} SamePlace<T>(s: seq<T>, key: T -> Key, r: seq<T>, t: seq<T>, k: nat)
    requires Distinct(s)
    requires forall i, j :: 0 <= i < |s| && 0 <= j < |s| && key(s[i]) == key(s[j]) ==> i == j
    requires |r| == |t| && k < |r|
    requires Distinct(r) && forall m :: 0 <= m < |r| ==> r[m] in s
    requires Distinct(t) && forall m :: 0 <= m < |t| ==> t[m] in s
    requires forall i, j :: 0 <= i < j < |r| ==> AtLeast(key(r[i]), key(r[j]))
    requires forall i, j :: 0 <= i < j < |t| ==> AtLeast(key(t[i]), key(t[j]))
    requires forall i :: 0 <= i < |s| && s[i] !in r ==> forall m :: 0 <= m < |r| ==> AtLeast(key(r[m]), key(s[i]))
    requires forall i :: 0 <= i < |s| && s[i] !in t ==> forall m :: 0 <= m < |t| ==> AtLeast(key(t[m]), key(s[i]))
    ensures r[k] == t[k]
    decreases k
  {
    forall m | 0 <= m < k
      ensures r[m] == t[m]
    {
      SamePlace(s, key, r, t, m);
    }
    NoLowerAt(s, key, r, t, k);
    NoLowerAt(s, key, t, r, k);
    AtLeastAntisymmetric(key(r[k]), key(t[k]));
    var a :| 0 <= a < |s| && s[a] == r[k];
    var b :| 0 <= b < |s| && s[b] == t[k];
  }

  /** The row r keeps at place k ranks no lower than the row t keeps there,
      when the two agree before k. */
  lemma NoLowerAt<T>(s: seq<T>, key: T -> Key, r: seq<T>, t: seq<T>, k: nat)
    requires |r| == |t| && k < |r|
    requires Distinct(t) && t[k] in s
    requires forall m :: 0 <= m < k ==> r[m] == t[m]
    requires forall i, j :: 0 <= i < j < |r| ==> AtLeast(key(r[i]), key(r[j]))
    requires forall i :: 0 <= i < |s| && s[i] !in r ==> forall m :: 0 <= m < |r| ==> AtLeast(key(r[m]), key(s[i]))
    ensures AtLeast(key(r[k]), key(t[k]))
  {
    if t[k] in r {
      var j :| 0 <= j < |r| && r[j] == t[k];
      if k < j {
        assert AtLeast(key(r[k]), key(r[j]));
      }
    } else {
      var b :| 0 <= b < |s| && s[b] == t[k];
    }
  }

  /** Python's resolution of a slice bound against a sequence of length n. */
  function Bound(b: int, n: nat): (r: nat)
    ensures r <= n
    ensures 0 <= b ==> r == if b < n then b else n
    ensures b < 0 ==> r == if n + b < 0 then 0 else n + b
  {
    if b < 0 then (if n + b < 0 then 0 else n + b) else if b > n then n else b
  }

  /** Python's s[lo:hi]. */
  function Slice<T>(s: seq<T>, lo: int, hi: int): (r: seq<T>)
    ensures |r| <= |s|
    ensures Bound(lo, |s|) <= Bound(hi, |s|) ==> r == s[Bound(lo, |s|)..Bound(hi, |s|)]
    ensures Bound(hi, |s|) < Bound(lo, |s|) ==> r == []
  {
    var a := Bound(lo, |s|);
    var b := Bound(hi, |s|);
    if a < b then s[a..b] else []
  }

  /** Python's s[:n], which is also what pandas' head(n) keeps. */
  function Head<T>(s: seq<T>, n: int): (r: seq<T>)
    ensures |r| <= |s|
    ensures r == s[..|r|]
    ensures 0 <= n ==> |r| == if n < |s| then n else |s|
    ensures n < 0 ==> |r| == if |s| + n < 0 then 0 else |s| + n
  {
    Slice(s, 0, n)
  }

  /** Python's slice rules: in-range bounds take the plain subsequence, a
      negative bound counts from the end (and stops at the front), a stop bound
      past the end stops at the end, and crossed bounds give nothing. */
  lemma SliceFollowsPython<T>(s: seq<T>, lo: int, hi: int)
    ensures 0 <= lo <= hi <= |s| ==> Slice(s, lo, hi) == s[lo..hi]
    ensures -|s| <= lo < 0 ==> Slice(s, lo, hi) == Slice(s, |s| + lo, hi)
    ensures lo < -|s| ==> Slice(s, lo, hi) == Slice(s, 0, hi)
    ensures -|s| <= hi < 0 ==> Slice(s, lo, hi) == Slice(s, lo, |s| + hi)
    ensures hi < -|s| ==> Slice(s, lo, hi) == []
    ensures |s| <= hi ==> Slice(s, lo, hi) == Slice(s, lo, |s|)
    ensures 0 <= hi <= lo ==> Slice(s, lo, hi) == []
  {
  }

  /** Slicing from 1 a sequence with one extra element in front takes a prefix
      of the rest, one element shorter than the stop bound asks for. */
  lemma SliceAfterFront<T>(x: T, rest: seq<T>, hi: int)
    ensures |Slice([x] + rest, 1, hi)| <= |rest|
    ensures Slice([x] + rest, 1, hi) == rest[..|Slice([x] + rest, 1, hi)|]
    ensures 1 <= hi ==> |Slice([x] + rest, 1, hi)| == if hi - 1 < |rest| then hi - 1 else |rest|
    ensures hi == 0 ==> |Slice([x] + rest, 1, hi)| == 0
    ensures hi < 0 ==> |Slice([x] + rest, 1, hi)| == if |rest| + hi < 0 then 0 else |rest| + hi
  {
    var s := [x] + rest;
    var b := Bound(hi, |s|);
    if 1 <= b {
      assert s[1..b] == rest[..b - 1];
    }
  }

  function Sum(xs: seq<real>): real {
    if |xs| == 0 then 0.0 else xs[0] + Sum(xs[1..])
  }

  /** Arithmetic mean, as numpy's mean and sum(...)/len(...) compute it. */
  function Mean(xs: seq<real>): real
    requires |xs| > 0
  {
    Sum(xs) / |xs| as real
  }

  predicate AllWithin(xs: seq<real>, lo: real, hi: real) {
    forall k :: 0 <= k < |xs| ==> lo <= xs[k] <= hi
  }

  lemma {:induction false} SumBounds(xs: seq<real>, lo: real, hi: real)
    requires AllWithin(xs, lo, hi)
    ensures |xs| as real * lo <= Sum(xs) <= |xs| as real * hi
  {
    if |xs| > 0 {
      assert AllWithin(xs[1..], lo, hi) by {
        forall k | 0 <= k < |xs[1..]|
          ensures lo <= xs[1..][k] <= hi
        {
          assert xs[1..][k] == xs[k + 1];
        }
      }
      SumBounds(xs[1..], lo, hi);
    }
  }

  /** The mean of values in [lo, hi] lies in [lo, hi]. */
  lemma MeanBounds(xs: seq<real>, lo: real, hi: real)
    requires |xs| > 0
    requires AllWithin(xs, lo, hi)
    ensures lo <= Mean(xs) <= hi
  {
    SumBounds(xs, lo, hi);
    var n := |xs| as real;
    assert Sum(xs) == Mean(xs) * n;
  }
}
