/** The tables the recommenders read (anime.csv and rating.csv rows), the error
    result the Python code signals with an exception or a message string, and the
    order-preserving sequence operations that pandas filtering and unique()
    perform. */
module Tables {
  import opened Ranking

  /** A value, or the message of the error the source raises or returns. */
  datatype Result<T> = Ok(value: T) | Err(message: string)

  datatype Option<T> = None | Some(value: T)

  /** Success, or the message of the error; for checks that return no value. */
  datatype Outcome = Pass | Fail(message: string)

  /** One row of the anime catalog. */
  datatype Anime = Anime(id: int, name: string, genre: string)

  /** One row of the rating history; a rating of -1 means "watched, not rated". */
  datatype Rating = Rating(userId: int, animeId: int, rating: real)

  /** The catalog invariant: anime ids are unique. */
  predicate UniqueIds(catalog: seq<Anime>) {
    forall i, j :: 0 <= i < j < |catalog| ==> catalog[i].id != catalog[j].id
  }

  /** a is obtained from b by deleting elements, so a keeps b's order. */
  predicate Subseq<T(==)>(a: seq<T>, b: seq<T>)
    decreases |b|
  {
    if |a| == 0 then true
    else if |b| == 0 then false
    else if a[0] == b[0] then Subseq(a[1..], b[1..])
    else Subseq(a, b[1..])
  }

  /** Every element of a subsequence comes from the original. */
  lemma {:induction false} SubseqMembers<T>(a: seq<T>, b: seq<T>)
    requires Subseq(a, b)
    ensures forall x :: x in a ==> x in b
    decreases |b|
  {
    if |a| > 0 {
      if a[0] == b[0] {
        SubseqMembers(a[1..], b[1..]);
        forall x | x in a
          ensures x in b
        {
          if x != a[0] {
            assert x in a[1..];
            assert x in b[1..];
          }
        }
      } else {
        SubseqMembers(a, b[1..]);
      }
    }
  }

  /** pandas' unique(): the distinct values of s in order of first appearance. */
  function Unique(s: seq<int>): (r: seq<int>)
    ensures Distinct(r)
    ensures forall x :: x in r <==> x in s
  {
    if |s| == 0 then []
    else
      var u := Unique(s[..|s| - 1]);
      assert forall x :: x in s <==> x in s[..|s| - 1] || x == s[|s| - 1];
      if s[|s| - 1] in u then u else u + [s[|s| - 1]]
  }

  /** unique() lists the values in the order of their first appearance. */
  lemma {:induction false} UniqueKeepsFirstAppearanceOrder(s: seq<int>)
    ensures forall i, j :: 0 <= i < j < |Unique(s)| ==> IndexOf(s, Unique(s)[i]) < IndexOf(s, Unique(s)[j])
  {
    if |s| > 0 {
      var init := s[..|s| - 1];
      var u := Unique(init);
      UniqueKeepsFirstAppearanceOrder(init);
      IndexOfPrefix(s, init);
      var r := Unique(s);
      forall i, j | 0 <= i < j < |r|
        ensures IndexOf(s, r[i]) < IndexOf(s, r[j])
      {
        assert r[i] == u[i];
        if j < |u| {
          assert r[j] == u[j];
        } else {
          assert r[j] == s[|s| - 1] && r[j] !in init;
          assert IndexOf(init, r[i]) < |init|;
        }
      }
    }
  }

  /** unique() of values without repeats is the values themselves. */
  lemma {:induction false} UniqueOfDistinct(s: seq<int>)
    requires Distinct(s)
    ensures Unique(s) == s
  {
    if |s| > 0 {
      var init := s[..|s| - 1];
      assert Distinct(init) by {
        assert forall k :: 0 <= k < |init| ==> init[k] == s[k];
      }
      UniqueOfDistinct(init);
      assert s[|s| - 1] !in init;
      assert init + [s[|s| - 1]] == s;
    }
  }

  /** First occurrences in a prefix are first occurrences in the whole. */
  lemma IndexOfPrefix(s: seq<int>, init: seq<int>)
    requires |s| > 0 && init == s[..|s| - 1]
    ensures forall x :: x in init ==> IndexOf(s, x) == IndexOf(init, x)
    ensures forall x :: x in s && x !in init ==> IndexOf(s, x) == |s| - 1
  {
    forall x | x in init
      ensures IndexOf(s, x) == IndexOf(init, x)
    {
      var i := IndexOf(init, x);
      assert s[i] == x;
      var k := IndexOf(s, x);
      assert k <= i;
      assert init[k] == x;
    }
    forall x | x in s && x !in init
      ensures IndexOf(s, x) == |s| - 1
    {
      assert forall k :: 0 <= k < |s| - 1 ==> s[k] == init[k];
    }
  }
}
