/** The stand-alone hybrid recommender of src/hybrid_recommender.py: for each
    input title, its most similar catalog rows are scored by a blend of
    similarity and predicted rating; the scores of a row are averaged over the
    titles that reached it, and the best averages are returned. */
module LegacyHybrid {
  import opened Tables
  import opened Ranking
  import opened Text
  import Svd
  import Hybrid

  /** The anime_titles argument: one title, or a list of titles. */
  datatype Titles = One(title: string) | Many(titles: seq<string>)

  /** One entry of an enumerated similarity row: a catalog position and its
      similarity to the title. */
  datatype Neighbour = Neighbour(row: nat, sim: real)

  /** A score attached to a catalog position: one pair score, or the average
      of all pair scores of that position. */
  datatype Scored = Scored(row: int, score: real)

  /** One row of the returned table. */
  datatype LegacyRec = LegacyRec(name: string, genre: string, finalScore: real, imageUrl: string)

  /** A single title is treated as the list holding it. */
  function AsList(t: Titles): (r: seq<string>)
    ensures t.One? ==> r == [t.title]
    ensures t.Many? ==> r == t.titles
  {
    match t
    case One(title) => [title]
    case Many(titles) => titles
  }

  // ---------------------------------------------------------------------------
  // Title lookup

  /** Two names are equal once both are lower-cased. */
  predicate SameTitle(name: string, title: string) {
    Lower(name) == Lower(title)
  }

  /** The first position from k on whose name matches the title. */
  function FindTitleFrom(catalog: seq<Anime>, title: string, k: nat): (r: Option<nat>)
    requires k <= |catalog|
    ensures r.None? <==> forall i :: k <= i < |catalog| ==> !SameTitle(catalog[i].name, title)
    ensures r.Some? ==> k <= r.value < |catalog| && SameTitle(catalog[r.value].name, title)
    ensures r.Some? ==> forall i :: k <= i < r.value ==> !SameTitle(catalog[i].name, title)
    decreases |catalog| - k
  {
    if k == |catalog| then None
    else if SameTitle(catalog[k].name, title) then Some(k)
    else FindTitleFrom(catalog, title, k + 1)
  }

  /** The position of the first catalog row whose name equals the title,
      ignoring case; None when there is none. */
  function FindTitle(catalog: seq<Anime>, title: string): (r: Option<nat>)
    ensures r.None? <==> forall i :: 0 <= i < |catalog| ==> !SameTitle(catalog[i].name, title)
    ensures r.Some? ==> r.value < |catalog| && SameTitle(catalog[r.value].name, title)
    ensures r.Some? ==> forall i :: 0 <= i < r.value ==> !SameTitle(catalog[i].name, title)
  {
    FindTitleFrom(catalog, title, 0)
  }

  /** The lookup does not depend on the case of the title. */
  lemma FindTitleIgnoresCase(catalog: seq<Anime>, title: string)
    ensures FindTitle(catalog, Lower(title)) == FindTitle(catalog, title)
  {
    LowerIdempotent(title);
    assert forall i :: 0 <= i < |catalog| ==> (SameTitle(catalog[i].name, Lower(title)) <==> SameTitle(catalog[i].name, title));
  }

  /** The message returned for a title that is not in the catalog. */
  function NotFound(title: string): string {
    "Anime titled '" + title + "' not found in dataset."
  }

  // ---------------------------------------------------------------------------
  // Neighbour windows

  /** list(enumerate(row)). */
  function Enumerate(row: seq<real>): (r: seq<Neighbour>)
    ensures |r| == |row|
    ensures forall k :: 0 <= k < |r| ==> r[k] == Neighbour(k, row[k])
    ensures Distinct(r)
  {
    seq(|row|, k requires 0 <= k < |row| => Neighbour(k, row[k]))
  }

  /** The key of the stable sort by similarity: every entry has the same tie
      value, so equal similarities keep their enumeration order. */
  function BySimilarity(x: Neighbour): Key {
    Key(x.sim, 0)
  }

  /** Higher similarity first; among equal similarities the lower position
      first. */
  predicate Precedes(a: Neighbour, b: Neighbour) {
    a.sim > b.sim || (a.sim == b.sim && a.row < b.row)
  }

  predicate Ranked(s: seq<Neighbour>) {
    forall i, j :: 0 <= i < j < |s| ==> Precedes(s[i], s[j])
  }

  /** Every entry is the enumeration entry of its own position. */
  predicate FromRow(s: seq<Neighbour>, row: seq<real>) {
    forall k :: 0 <= k < |s| ==> s[k].row < |row| && s[k].sim == row[s[k].row]
  }

  /** sorted(enumerate(row), key=similarity, reverse=True): every position
      once, by descending similarity, ties in position order. */
  function SortedNeighbours(row: seq<real>): (r: seq<Neighbour>)
    ensures |r| == |row|
    ensures FromRow(r, row)
    ensures forall j :: 0 <= j < |row| ==> Neighbour(j, row[j]) in r
    ensures Ranked(r)
    ensures Distinct(r)
  {
    var e := Enumerate(row);
    var r := SortBy(e, BySimilarity);
    forall i, j | 0 <= i < j < |r|
      ensures Precedes(r[i], r[j])
    {
      assert AtLeast(BySimilarity(r[i]), BySimilarity(r[j]));
      if BySimilarity(r[i]) == BySimilarity(r[j]) {
        assert IndexOf(e, r[i]) < IndexOf(e, r[j]);
        DistinctIndexOf(e, r[i].row);
        DistinctIndexOf(e, r[j].row);
      }
    }
    assert forall j :: 0 <= j < |row| ==> e[j] in r;
    r
  }

  /** Positions listed at most once. */
  predicate DistinctRows(s: seq<Neighbour>) {
    forall i, j :: 0 <= i < j < |s| ==> s[i].row != s[j].row
  }

  /** A sequence drawn from one row lists each position at most once. */
  lemma FromRowDistinctRows(s: seq<Neighbour>, row: seq<real>)
    requires FromRow(s, row) && Distinct(s)
    ensures DistinctRows(s)
  {
  }

  /** The window hybrid_recommender.py takes: the sorted row without its first
      entry, cut to top_n + 20 with Python's slice rules. The first entry is
      the title itself only when no earlier position ties with it. */
  function WindowAsWritten(row: seq<real>, topN: int): (r: seq<Neighbour>)
    ensures forall k :: 0 <= k < |r| ==> k + 1 < |row| && r[k] == SortedNeighbours(row)[k + 1]
    ensures |row| > 0 && 0 <= topN + 19 ==> |r| == if topN + 19 < |row| - 1 then topN + 19 else |row| - 1
    ensures |row| == 0 ==> r == []
    ensures FromRow(r, row) && Ranked(r)
  {
    var sorted := SortedNeighbours(row);
    var r := Slice(sorted, 1, topN + 20);
    SliceFromOne(sorted, topN, r);
    r
  }

  /** Slicing [1:top_n+20] skips the first entry and keeps the next ones, as
      many as the bound and the sequence allow. */
  lemma SliceFromOne(sorted: seq<Neighbour>, topN: int, r: seq<Neighbour>)
    requires r == Slice(sorted, 1, topN + 20) && Ranked(sorted)
    ensures forall k :: 0 <= k < |r| ==> k + 1 < |sorted| && r[k] == sorted[k + 1]
    ensures |sorted| > 0 && 0 <= topN + 19 ==>
              |r| == if topN + 19 < |sorted| - 1 then topN + 19 else |sorted| - 1
    ensures |sorted| == 0 ==> r == []
    ensures Ranked(r)
  {
    if |sorted| > 0 {
      assert [sorted[0]] + sorted[1..] == sorted;
      SliceAfterFront(sorted[0], sorted[1..], topN + 20);
      assert forall k :: 0 <= k < |r| ==> r[k] == sorted[1..][k];
    }
    forall i, j | 0 <= i < j < |r|
      ensures Precedes(r[i], r[j])
    {
      assert r[i] == sorted[i + 1] && r[j] == sorted[j + 1];
    }
  }

  /** The entries of s for other positions than idx, in order. */
  function Others(s: seq<Neighbour>, idx: nat): (r: seq<Neighbour>)
    ensures |r| <= |s|
    ensures forall k :: 0 <= k < |r| ==> r[k].row != idx && r[k] in s
    ensures (forall k :: 0 <= k < |s| ==> s[k].row != idx) ==> r == s
  {
    if |s| == 0 then []
    else
      var rest := Others(s[1..], idx);
      assert forall k :: 0 <= k < |rest| ==> rest[k] in s;
      if s[0].row == idx then rest else [s[0]] + rest
  }

  /** Dropping entries keeps a ranked sequence ranked. */
  lemma {:induction false} OthersRanked(s: seq<Neighbour>, idx: nat)
    requires Ranked(s)
    ensures Ranked(Others(s, idx))
  {
    if |s| > 0 {
      RankedTail(s);
      OthersRanked(s[1..], idx);
      if s[0].row != idx {
        HeadPrecedesOthers(s, idx);
        RankedCons(s[0], Others(s[1..], idx));
      }
    }
  }

  /** The tail of a ranked sequence is ranked. */
  lemma RankedTail(s: seq<Neighbour>)
    requires Ranked(s) && |s| > 0
    ensures Ranked(s[1..])
  {
    forall i, j | 0 <= i < j < |s[1..]|
      ensures Precedes(s[1..][i], s[1..][j])
    {
      assert s[1..][i] == s[i + 1] && s[1..][j] == s[j + 1];
    }
  }

  /** The head of a ranked sequence precedes every entry kept from its tail. */
  lemma HeadPrecedesOthers(s: seq<Neighbour>, idx: nat)
    requires Ranked(s) && |s| > 0
    ensures forall k :: 0 <= k < |Others(s[1..], idx)| ==> Precedes(s[0], Others(s[1..], idx)[k])
  {
    var rest := Others(s[1..], idx);
    forall k | 0 <= k < |rest|
      ensures Precedes(s[0], rest[k])
    {
      assert rest[k] in s[1..];
      var m :| 0 <= m < |s[1..]| && s[1..][m] == rest[k];
      assert s[m + 1] == rest[k];
    }
  }

  /** An entry that precedes every entry of a ranked sequence can be put in
      front of it. */
  lemma RankedCons(x: Neighbour, rest: seq<Neighbour>)
    requires Ranked(rest) && forall k :: 0 <= k < |rest| ==> Precedes(x, rest[k])
    ensures Ranked([x] + rest)
  {
    var r := [x] + rest;
    forall i, j | 0 <= i < j < |r|
      ensures Precedes(r[i], r[j])
    {
      if i == 0 {
        assert r[j] == rest[j - 1];
      } else {
        assert r[i] == rest[i - 1] && r[j] == rest[j - 1];
      }
    }
  }

  /** When s lists idx exactly once, exactly one entry is dropped. */
  lemma {:induction false} OthersDropsOne(s: seq<Neighbour>, idx: nat)
    requires DistinctRows(s) && exists k :: 0 <= k < |s| && s[k].row == idx
    ensures |Others(s, idx)| == |s| - 1
  {
    if s[0].row == idx {
      assert forall m :: 0 <= m < |s[1..]| ==> s[1..][m].row != idx;
    } else {
      var k :| 0 <= k < |s| && s[k].row == idx;
      assert s[1..][k - 1].row == idx;
      OthersDropsOne(s[1..], idx);
    }
  }

  /** The sorted row with the title's own entry moved to the front: the
      order the slice [1:top_n+20] takes for granted. */
  function SelfFirst(row: seq<real>, idx: nat): (r: seq<Neighbour>)
    requires idx < |row|
  {
    [Neighbour(idx, row[idx])] + Others(SortedNeighbours(row), idx)
  }

  /** The title's own entry in its sorted row. */
  lemma TitleEntry(row: seq<real>, idx: nat)
    requires idx < |row|
    ensures exists k :: 0 <= k < |row| && SortedNeighbours(row)[k].row == idx
  {
    var sorted := SortedNeighbours(row);
    assert Neighbour(idx, row[idx]) in sorted;
    var k :| 0 <= k < |sorted| && sorted[k] == Neighbour(idx, row[idx]);
    assert sorted[k].row == idx;
  }

  /** A prefix keeps the properties of the entries it is cut from. */
  lemma PrefixFacts(s: seq<Neighbour>, r: seq<Neighbour>, row: seq<real>, idx: nat)
    requires |r| <= |s| && r == s[..|r|]
    requires FromRow(s, row) && Ranked(s) && forall k :: 0 <= k < |s| ==> s[k].row != idx
    ensures FromRow(r, row) && Ranked(r) && forall k :: 0 <= k < |r| ==> r[k].row != idx
  {
    assert forall k :: 0 <= k < |r| ==> r[k] == s[k];
  }

  /** Dropping entries keeps every entry's similarity that of its position. */
  lemma OthersFromRow(s: seq<Neighbour>, row: seq<real>, idx: nat)
    requires FromRow(s, row)
    ensures FromRow(Others(s, idx), row)
  {
    var others := Others(s, idx);
    forall m | 0 <= m < |others|
      ensures others[m].row < |row| && others[m].sim == row[others[m].row]
    {
      assert others[m] in s;
      var j :| 0 <= j < |s| && s[j] == others[m];
    }
  }

  /** The sorted row without the title's entry: one entry shorter, still
      ranked, still drawn from the row. */
  lemma OthersOfSorted(row: seq<real>, idx: nat)
    requires idx < |row|
    ensures var others := Others(SortedNeighbours(row), idx);
      |others| == |row| - 1 && FromRow(others, row) && Ranked(others)
  {
    var sorted := SortedNeighbours(row);
    FromRowDistinctRows(sorted, row);
    OthersRanked(sorted, idx);
    TitleEntry(row, idx);
    OthersDropsOne(sorted, idx);
    OthersFromRow(sorted, row, idx);
  }

  /** The facts NeighbourWindow promises, about the slice it takes. */
  lemma WindowFacts(row: seq<real>, idx: nat, topN: int, r: seq<Neighbour>)
    requires idx < |row| && r == Slice(SelfFirst(row, idx), 1, topN + 20)
    ensures FromRow(r, row)
    ensures forall k :: 0 <= k < |r| ==> r[k].row != idx
    ensures Ranked(r)
    ensures 0 <= topN + 19 ==> |r| == if topN + 19 < |row| - 1 then topN + 19 else |row| - 1
    ensures topN + 20 == 0 ==> |r| == 0
    ensures topN + 20 < 0 ==> |r| == if |row| + topN + 19 < 0 then 0 else |row| + topN + 19
  {
    var others := Others(SortedNeighbours(row), idx);
    OthersOfSorted(row, idx);
    SliceAfterFront(Neighbour(idx, row[idx]), others, topN + 20);
    PrefixFacts(others, r, row, idx);
  }

  /** The window the slice is meant to take: the top_n + 19 positions most
      similar to the title, the title itself excluded. */
  function NeighbourWindow(row: seq<real>, idx: nat, topN: int): (r: seq<Neighbour>)
    requires idx < |row|
    ensures FromRow(r, row)
    ensures forall k :: 0 <= k < |r| ==> r[k].row != idx
    ensures Ranked(r)
    ensures 0 <= topN + 19 ==> |r| == if topN + 19 < |row| - 1 then topN + 19 else |row| - 1
    ensures topN + 20 == 0 ==> |r| == 0
    ensures topN + 20 < 0 ==> |r| == if |row| + topN + 19 < 0 then 0 else |row| + topN + 19
  {
    var r := Slice(SelfFirst(row, idx), 1, topN + 20);
    WindowFacts(row, idx, topN, r);
    r
  }

  /** When the title sorts first in its own row, the corrected window is the
      window the source takes. */
  lemma WindowsAgreeWhenTitleSortsFirst(row: seq<real>, idx: nat, topN: int)
    requires idx < |row|
    requires SortedNeighbours(row)[0].row == idx
    ensures NeighbourWindow(row, idx, topN) == WindowAsWritten(row, topN)
  {
    var sorted := SortedNeighbours(row);
    assert sorted[0] == Neighbour(idx, row[idx]);
    TailAvoidsTitle(sorted, row, idx);
    assert SelfFirst(row, idx) == [sorted[0]] + sorted[1..] == sorted;
  }

  /** When the title heads a sequence drawn from its row, dropping the title
      is dropping the head. */
  lemma TailAvoidsTitle(s: seq<Neighbour>, row: seq<real>, idx: nat)
    requires FromRow(s, row) && Distinct(s) && |s| > 0 && s[0].row == idx
    ensures Others(s, idx) == s[1..]
  {
    FromRowDistinctRows(s, row);
    var t := s[1..];
    assert forall k :: 0 <= k < |t| ==> t[k] == s[k + 1];
    assert forall k :: 0 <= k < |t| ==> t[k].row != idx;
  }

  /** Two catalog rows with the same genre: the title at position 1 ties with
      position 0, so the stable sort lists position 0 first and the source's
      window keeps the title's own row. */
  lemma WindowAsWrittenKeepsTitle()
    ensures WindowAsWritten([1.0, 1.0], 5) == [Neighbour(1, 1.0)]
    ensures NeighbourWindow([1.0, 1.0], 1, 5) == [Neighbour(0, 1.0)]
  {
    var row := [1.0, 1.0];
    var sorted := SortedNeighbours(row);
    assert row[0] == 1.0 && row[1] == 1.0;
    assert Neighbour(0, 1.0) in sorted && Neighbour(1, 1.0) in sorted;
    assert sorted[0].row < sorted[1].row;
    assert sorted == [Neighbour(0, 1.0), Neighbour(1, 1.0)];
    var w := NeighbourWindow(row, 1, 5);
    assert |w| == 1;
  }

  // ---------------------------------------------------------------------------
  // Pair scores

  /** The score of one (title, neighbour) pair: the similarity weighted by
      1 - alpha plus the predicted rating, divided by 10, weighted by alpha. */
  function PairScore(alpha: real, sim: real, pred: real): real {
    Hybrid.Blend(alpha, pred / 10.0, sim)
  }

  /** A similarity in [0, 1] and a prediction on the 0-10 scale give a pair
      score in [0, 1] for any alpha in [0, 1]. */
  lemma PairScoreBounds(alpha: real, sim: real, pred: real)
    requires 0.0 <= alpha <= 1.0 && 0.0 <= sim <= 1.0 && 0.0 <= pred <= 10.0
    ensures 0.0 <= PairScore(alpha, sim, pred) <= 1.0
  {
    Hybrid.BlendBounds(alpha, pred / 10.0, sim);
  }

  /** The pair score moves with each signal when the other is fixed. */
  lemma PairScoreMonotone(alpha: real, sim: real, sim': real, pred: real, pred': real)
    requires 0.0 <= alpha <= 1.0 && sim <= sim' && pred <= pred'
    ensures PairScore(alpha, sim, pred) <= PairScore(alpha, sim', pred')
  {
    Hybrid.ProductNonNegative(alpha, pred' / 10.0 - pred / 10.0);
    Hybrid.ProductNonNegative(1.0 - alpha, sim' - sim);
  }

  /** The predictor rates every catalog row for the user on the 0-10 scale,
      as an SVD clipped to the rating scale does. */
  predicate PredictsWithin(model: Svd.Model, userId: int, catalog: seq<Anime>) {
    forall i :: 0 <= i < |catalog| ==> 0.0 <= model.predict(userId, catalog[i].id) <= 10.0
  }

  /** The pair scores of one title's window, in window order. */
  function ScoreWindow(catalog: seq<Anime>, model: Svd.Model, userId: int, alpha: real, window: seq<Neighbour>)
    : (r: seq<Scored>)
    requires forall k :: 0 <= k < |window| ==> window[k].row < |catalog|
    ensures |r| == |window|
    ensures forall k :: 0 <= k < |r| ==> r[k].row == window[k].row
    ensures forall k :: 0 <= k < |r| ==>
              r[k].score == PairScore(alpha, window[k].sim, model.predict(userId, catalog[window[k].row].id))
  {
    seq(|window|, k requires 0 <= k < |window| =>
      Scored(window[k].row, PairScore(alpha, window[k].sim, model.predict(userId, catalog[window[k].row].id))))
  }

  function Rows(pairs: seq<Scored>): (rows: seq<int>)
    ensures |rows| == |pairs| && forall k :: 0 <= k < |pairs| ==> rows[k] == pairs[k].row
  {
    seq(|pairs|, k requires 0 <= k < |pairs| => pairs[k].row)
  }

  function Scores(pairs: seq<Scored>): (xs: seq<real>)
    ensures |xs| == |pairs| && forall k :: 0 <= k < |pairs| ==> xs[k] == pairs[k].score
  {
    seq(|pairs|, k requires 0 <= k < |pairs| => pairs[k].score)
  }

  /** Every pair names a catalog row other than the given one. */
  predicate AvoidsRow(pairs: seq<Scored>, n: nat, idx: int) {
    forall k :: 0 <= k < |pairs| ==> 0 <= pairs[k].row < n && pairs[k].row != idx
  }

  /** The pairs one found title contributes: its window, scored. */
  function TitlePairs(catalog: seq<Anime>, sim: seq<seq<real>>, model: Svd.Model, userId: int,
                      idx: nat, topN: int, alpha: real): (r: seq<Scored>)
    requires Hybrid.IsSimilarity(sim, |catalog|) && idx < |catalog|
    ensures AvoidsRow(r, |catalog|, idx)
    ensures Distinct(Rows(r))
    ensures 0 <= topN + 19 ==> |r| == if topN + 19 < |catalog| - 1 then topN + 19 else |catalog| - 1
    ensures topN + 20 == 0 ==> |r| == 0
    ensures topN + 20 < 0 ==> |r| == if |catalog| + topN + 19 < 0 then 0 else |catalog| + topN + 19
    ensures var w := NeighbourWindow(sim[idx], idx, topN);
            && |r| == |w|
            && forall k :: 0 <= k < |r| ==>
                 && r[k].row == w[k].row
                 && r[k].score == PairScore(alpha, sim[idx][w[k].row], model.predict(userId, catalog[w[k].row].id))
    ensures Hybrid.UnitSimilarity(sim) && PredictsWithin(model, userId, catalog) && 0.0 <= alpha <= 1.0
            ==> AllWithin(Scores(r), 0.0, 1.0)
  {
    var window := NeighbourWindow(sim[idx], idx, topN);
    var r := ScoreWindow(catalog, model, userId, alpha, window);
    WindowScoresWithin(catalog, sim, model, userId, idx, alpha, window, r);
    RankedWindowDistinct(window, sim[idx]);
    assert forall k :: 0 <= k < |r| ==> Rows(r)[k] == window[k].row;
    r
  }

  /** A ranked window drawn from one row lists each position once. */
  lemma RankedWindowDistinct(window: seq<Neighbour>, row: seq<real>)
    requires Ranked(window) && FromRow(window, row)
    ensures DistinctRows(window)
  {
    forall i, j | 0 <= i < j < |window|
      ensures window[i].row != window[j].row
    {
      assert Precedes(window[i], window[j]);
    }
  }

  lemma WindowScoresWithin(catalog: seq<Anime>, sim: seq<seq<real>>, model: Svd.Model, userId: int,
                           idx: nat, alpha: real, window: seq<Neighbour>, r: seq<Scored>)
    requires Hybrid.IsSimilarity(sim, |catalog|) && idx < |catalog| && FromRow(window, sim[idx])
    requires r == ScoreWindow(catalog, model, userId, alpha, window)
    ensures Hybrid.UnitSimilarity(sim) && PredictsWithin(model, userId, catalog) && 0.0 <= alpha <= 1.0
            ==> AllWithin(Scores(r), 0.0, 1.0)
  {
    if Hybrid.UnitSimilarity(sim) && PredictsWithin(model, userId, catalog) && 0.0 <= alpha <= 1.0 {
      forall k | 0 <= k < |r|
        ensures 0.0 <= Scores(r)[k] <= 1.0
      {
        PairScoreBounds(alpha, window[k].sim, model.predict(userId, catalog[window[k].row].id));
      }
    }
  }

  /** The first title of the list that the catalog does not hold. */
  predicate FirstMissing(catalog: seq<Anime>, titles: seq<string>, k: nat) {
    && k < |titles|
    && FindTitle(catalog, titles[k]).None?
    && forall j :: 0 <= j < k ==> FindTitle(catalog, titles[j]).Some?
  }

  /** Some title of the list is not in the catalog. */
  predicate AnyMissing(catalog: seq<Anime>, titles: seq<string>) {
    exists k :: 0 <= k < |titles| && FindTitle(catalog, titles[k]).None?
  }

  /** Every pair names a catalog row. */
  predicate InCatalog(pairs: seq<Scored>, n: nat) {
    forall k :: 0 <= k < |pairs| ==> 0 <= pairs[k].row < n
  }

  /** When the first title is found, the missing titles are those of the rest,
      one position further on. */
  lemma FoundFirst(catalog: seq<Anime>, titles: seq<string>)
    requires |titles| > 0 && FindTitle(catalog, titles[0]).Some?
    ensures AnyMissing(catalog, titles) <==> AnyMissing(catalog, titles[1..])
    ensures forall k: nat :: FirstMissing(catalog, titles[1..], k) ==> FirstMissing(catalog, titles, k + 1)
  {
    var tail := titles[1..];
    assert forall k :: 1 <= k < |titles| ==> titles[k] == tail[k - 1];
    if AnyMissing(catalog, titles) {
      var k :| 0 <= k < |titles| && FindTitle(catalog, titles[k]).None?;
      assert FindTitle(catalog, tail[k - 1]).None?;
    }
    if AnyMissing(catalog, tail) {
      var k :| 0 <= k < |tail| && FindTitle(catalog, tail[k]).None?;
      assert FindTitle(catalog, titles[k + 1]).None?;
    }
  }

  /** Concatenating pair lists keeps their rows in the catalog and their
      scores within bounds. */
  lemma JoinPairs(a: seq<Scored>, b: seq<Scored>, n: nat)
    requires InCatalog(a, n) && InCatalog(b, n)
    ensures InCatalog(a + b, n)
    ensures AllWithin(Scores(a), 0.0, 1.0) && AllWithin(Scores(b), 0.0, 1.0) ==> AllWithin(Scores(a + b), 0.0, 1.0)
  {
    assert forall k :: 0 <= k < |a + b| ==> (a + b)[k] == if k < |a| then a[k] else b[k - |a|];
  }

  /** The loop over the input titles: the pairs of every title, title by
      title, or the message for the first title that is not found. */
  function CollectPairs(catalog: seq<Anime>, sim: seq<seq<real>>, model: Svd.Model, userId: int,
                        titles: seq<string>, topN: int, alpha: real): (r: Result<seq<Scored>>)
    requires Hybrid.IsSimilarity(sim, |catalog|)
    ensures r.Err? <==> AnyMissing(catalog, titles)
    ensures r.Err? ==> exists k: nat :: FirstMissing(catalog, titles, k) && r.message == NotFound(titles[k])
    ensures r.Ok? ==> InCatalog(r.value, |catalog|)
    ensures r.Ok? && Hybrid.UnitSimilarity(sim) && PredictsWithin(model, userId, catalog) && 0.0 <= alpha <= 1.0
            ==> AllWithin(Scores(r.value), 0.0, 1.0)
    decreases |titles|
  {
    if |titles| == 0 then Ok([])
    else
      match FindTitle(catalog, titles[0])
      case None =>
        assert FirstMissing(catalog, titles, 0);
        Err(NotFound(titles[0]))
      case Some(idx) =>
        var rest := CollectPairs(catalog, sim, model, userId, titles[1..], topN, alpha);
        FoundFirst(catalog, titles);
        if rest.Err? then
          var k: nat :| FirstMissing(catalog, titles[1..], k) && rest.message == NotFound(titles[1..][k]);
          assert titles[k + 1] == titles[1..][k];
          assert FirstMissing(catalog, titles, k + 1);
          rest
        else
          var own := TitlePairs(catalog, sim, model, userId, idx, topN, alpha);
          JoinPairs(own, rest.value, |catalog|);
          Ok(own + rest.value)
  }

  // ---------------------------------------------------------------------------
  // Averaging and ranking

  /** The pair scores of one catalog row, in pair order. */
  function ScoresOf(pairs: seq<Scored>, row: int): (xs: seq<real>)
    ensures |xs| <= |pairs|
    ensures |xs| > 0 <==> row in Rows(pairs)
  {
    if |pairs| == 0 then []
    else
      assert Rows(pairs) == [pairs[0].row] + Rows(pairs[1..]);
      (if pairs[0].row == row then [pairs[0].score] else []) + ScoresOf(pairs[1..], row)
  }

  /** A bound on every pair score bounds the scores of each row. */
  lemma {:induction false} ScoresOfWithin(pairs: seq<Scored>, row: int, lo: real, hi: real)
    requires AllWithin(Scores(pairs), lo, hi)
    ensures AllWithin(ScoresOf(pairs, row), lo, hi)
  {
    if |pairs| > 0 {
      assert Scores(pairs[1..]) == Scores(pairs)[1..];
      ScoresOfWithin(pairs[1..], row, lo, hi);
      assert pairs[0].score == Scores(pairs)[0];
    }
  }

  /** The score_dict loop: one entry per catalog row that some pair names, in
      order of first appearance, holding the mean of that row's pair scores. */
  function Aggregate(pairs: seq<Scored>): (agg: seq<Scored>)
    ensures Rows(agg) == Unique(Rows(pairs))
    ensures forall k :: 0 <= k < |agg| ==> agg[k].row in Rows(pairs)
    ensures forall k :: 0 <= k < |agg| ==>
              |ScoresOf(pairs, agg[k].row)| > 0 && agg[k].score == Mean(ScoresOf(pairs, agg[k].row))
  {
    var rows := Unique(Rows(pairs));
    seq(|rows|, k requires 0 <= k < |rows| => Scored(rows[k], Mean(ScoresOf(pairs, rows[k]))))
  }

  /** Every row some pair names is averaged exactly once, and nothing else
      is. */
  lemma AggregateRows(pairs: seq<Scored>)
    ensures forall x :: x in Rows(Aggregate(pairs)) <==> x in Rows(pairs)
    ensures Distinct(Rows(Aggregate(pairs)))
    ensures Distinct(Aggregate(pairs))
  {
    var agg := Aggregate(pairs);
    assert forall i, j :: 0 <= i < j < |agg| ==> Rows(agg)[i] != Rows(agg)[j];
  }

  /** The averages come in the order in which their rows first appear among
      the pairs, as a dict keeps insertion order. */
  lemma AggregateFirstAppearance(pairs: seq<Scored>)
    ensures var agg := Aggregate(pairs);
            forall i, j :: 0 <= i < j < |agg| ==> IndexOf(Rows(pairs), agg[i].row) < IndexOf(Rows(pairs), agg[j].row)
  {
    UniqueKeepsFirstAppearanceOrder(Rows(pairs));
    var agg := Aggregate(pairs);
    assert forall k :: 0 <= k < |agg| ==> agg[k].row == Unique(Rows(pairs))[k];
  }

  /** A bound on every pair score bounds every average. */
  lemma AggregateWithin(pairs: seq<Scored>, lo: real, hi: real)
    requires AllWithin(Scores(pairs), lo, hi)
    ensures AllWithin(Scores(Aggregate(pairs)), lo, hi)
  {
    var agg := Aggregate(pairs);
    forall k | 0 <= k < |agg|
      ensures lo <= agg[k].score <= hi
    {
      ScoresOfWithin(pairs, agg[k].row, lo, hi);
      MeanBounds(ScoresOf(pairs, agg[k].row), lo, hi);
    }
  }

  /** The key of the final stable sort by average score. */
  function ByAverage(x: Scored): Key {
    Key(x.score, 0)
  }

  /** Every row is a row some pair names, with the mean of its pair scores. */
  predicate MeansOfPairs(r: seq<Scored>, pairs: seq<Scored>) {
    forall k :: 0 <= k < |r| ==> r[k].row in Rows(pairs) && r[k].score == Mean(ScoresOf(pairs, r[k].row))
  }

  /** Scores never increase along the sequence. */
  predicate Descending(r: seq<Scored>) {
    forall i, j :: 0 <= i < j < |r| ==> r[i].score >= r[j].score
  }

  /** Rows with equal scores keep the order in which pairs first name them. */
  predicate TiesByFirstAppearance(r: seq<Scored>, pairs: seq<Scored>) {
    forall i, j :: 0 <= i < j < |r| && r[i].row in Rows(pairs) && r[j].row in Rows(pairs) && r[i].score == r[j].score
                   ==> IndexOf(Rows(pairs), r[i].row) < IndexOf(Rows(pairs), r[j].row)
  }

  /** A row some pair names but r leaves out averages no higher than any row
      of r. */
  predicate KeepsBestAverages(r: seq<Scored>, pairs: seq<Scored>) {
    forall x :: x in Rows(pairs) && x !in Rows(r)
                ==> forall k :: 0 <= k < |r| ==> Mean(ScoresOf(pairs, x)) <= r[k].score
  }

  /** r ranks the averages of the pairs: min(top_n, number of rows reached)
      of them, best first, ties by first appearance, each row once with its
      mean score, and no row left out averaging more than a row kept. */
  predicate RankedAverages(r: seq<Scored>, pairs: seq<Scored>, topN: int) {
    && (0 <= topN ==> |r| == if topN < |Unique(Rows(pairs))| then topN else |Unique(Rows(pairs))|)
    && (topN < 0 ==> |r| == if |Unique(Rows(pairs))| + topN < 0 then 0 else |Unique(Rows(pairs))| + topN)
    && Descending(r)
    && MeansOfPairs(r, pairs)
    && Distinct(Rows(r))
    && TiesByFirstAppearance(r, pairs)
    && KeepsBestAverages(r, pairs)
  }

  /** The averages, best first, cut to top_n with Python's slice rules. */
  function RankAverages(pairs: seq<Scored>, topN: int): (r: seq<Scored>)
    ensures 0 <= topN ==> |r| <= topN
    ensures 0 <= topN ==> |r| == if topN < |Unique(Rows(pairs))| then topN else |Unique(Rows(pairs))|
    ensures topN < 0 ==> |r| == if |Unique(Rows(pairs))| + topN < 0 then 0 else |Unique(Rows(pairs))| + topN
    ensures Descending(r)
    ensures MeansOfPairs(r, pairs)
    ensures Distinct(Rows(r))
    ensures TiesByFirstAppearance(r, pairs)
    ensures KeepsBestAverages(r, pairs)
  {
    var agg := Aggregate(pairs);
    var r := TopBy(agg, ByAverage, topN);
    RankedDescending(agg, topN, r);
    RankedMembers(pairs, agg, topN, r);
    RankedDistinct(pairs, agg, topN, r);
    RankedTies(pairs, agg, topN, r);
    RankedKeepsBest(pairs, agg, topN, r);
    r
  }

  lemma RankedDescending(agg: seq<Scored>, topN: int, r: seq<Scored>)
    requires r == TopBy(agg, ByAverage, topN)
    ensures Descending(r)
  {
    forall i, j | 0 <= i < j < |r|
      ensures r[i].score >= r[j].score
    {
      assert AtLeast(ByAverage(r[i]), ByAverage(r[j]));
    }
  }

  lemma RankedMembers(pairs: seq<Scored>, agg: seq<Scored>, topN: int, r: seq<Scored>)
    requires agg == Aggregate(pairs) && r == TopBy(agg, ByAverage, topN)
    ensures MeansOfPairs(r, pairs)
  {
    AggregateRows(pairs);
    forall k | 0 <= k < |r|
      ensures r[k].row in Rows(pairs) && r[k].score == Mean(ScoresOf(pairs, r[k].row))
    {
      var m :| 0 <= m < |agg| && agg[m] == r[k];
      assert Rows(agg)[m] == r[k].row;
    }
  }

  lemma RankedDistinct(pairs: seq<Scored>, agg: seq<Scored>, topN: int, r: seq<Scored>)
    requires agg == Aggregate(pairs) && r == TopBy(agg, ByAverage, topN)
    ensures Distinct(Rows(r))
  {
    AggregateRows(pairs);
    DrawnRowsDistinct(agg, r);
  }

  /** Distinct rows drawn from a table with distinct row ids have distinct ids. */
  lemma DrawnRowsDistinct(agg: seq<Scored>, r: seq<Scored>)
    requires Distinct(Rows(agg)) && Distinct(r)
    requires forall k :: 0 <= k < |r| ==> r[k] in agg
    ensures Distinct(Rows(r))
  {
    forall i, j | 0 <= i < j < |r|
      ensures Rows(r)[i] != Rows(r)[j]
    {
      var a :| 0 <= a < |agg| && agg[a] == r[i];
      var b :| 0 <= b < |agg| && agg[b] == r[j];
      assert Rows(agg)[a] == r[i].row && Rows(agg)[b] == r[j].row;
    }
  }

  lemma RankedTies(pairs: seq<Scored>, agg: seq<Scored>, topN: int, r: seq<Scored>)
    requires agg == Aggregate(pairs) && r == TopBy(agg, ByAverage, topN)
    ensures TiesByFirstAppearance(r, pairs)
  {
    AggregateRows(pairs);
    AggregateFirstAppearance(pairs);
    forall i, j | 0 <= i < j < |r| && r[i].row in Rows(pairs) && r[j].row in Rows(pairs) && r[i].score == r[j].score
      ensures IndexOf(Rows(pairs), r[i].row) < IndexOf(Rows(pairs), r[j].row)
    {
      assert ByAverage(r[i]) == ByAverage(r[j]);
      var a := IndexOf(agg, r[i]);
      var b := IndexOf(agg, r[j]);
      assert a < b;
    }
  }

  lemma RankedKeepsBest(pairs: seq<Scored>, agg: seq<Scored>, topN: int, r: seq<Scored>)
    requires agg == Aggregate(pairs) && r == TopBy(agg, ByAverage, topN)
    ensures KeepsBestAverages(r, pairs)
  {
    AggregateRows(pairs);
    LeftOutScoresLower(agg, r);
    forall x | x in Rows(pairs) && x !in Rows(r)
      ensures forall k :: 0 <= k < |r| ==> Mean(ScoresOf(pairs, x)) <= r[k].score
    {
      var m :| 0 <= m < |agg| && Rows(agg)[m] == x;
      assert agg[m].row == x;
    }
  }

  /** A row whose position the ranking lacks scores no higher than any row
      it keeps. */
  lemma LeftOutScoresLower(agg: seq<Scored>, r: seq<Scored>)
    requires forall i :: 0 <= i < |agg| && agg[i] !in r
                         ==> forall k :: 0 <= k < |r| ==> AtLeast(ByAverage(r[k]), ByAverage(agg[i]))
    ensures forall i :: 0 <= i < |agg| && agg[i].row !in Rows(r)
                        ==> forall k :: 0 <= k < |r| ==> agg[i].score <= r[k].score
  {
    forall i | 0 <= i < |agg| && agg[i].row !in Rows(r)
      ensures forall k :: 0 <= k < |r| ==> agg[i].score <= r[k].score
    {
      assert forall k :: 0 <= k < |r| ==> Rows(r)[k] == r[k].row;
      assert agg[i] !in r;
    }
  }

  // ---------------------------------------------------------------------------
  // The pipeline

  /** hybrid_recommend up to the choice of rows: the ranked averages of the
      pairs of all input titles, or the message for the first title the
      catalog does not hold. */
  function LegacyRanking(catalog: seq<Anime>, sim: seq<seq<real>>, model: Svd.Model, userId: int,
                         titles: Titles, topN: int, alpha: real): (r: Result<seq<Scored>>)
    requires Hybrid.IsSimilarity(sim, |catalog|)
    ensures r.Err? <==> exists k :: 0 <= k < |AsList(titles)| && FindTitle(catalog, AsList(titles)[k]).None?
    ensures r.Err? ==> exists k: nat :: FirstMissing(catalog, AsList(titles), k) && r.message == NotFound(AsList(titles)[k])
    ensures r.Ok? && 0 <= topN ==> |r.value| <= topN
    ensures r.Ok? ==> forall k :: 0 <= k < |r.value| ==> 0 <= r.value[k].row < |catalog|
    ensures r.Ok? ==> Distinct(Rows(r.value))
    ensures r.Ok? ==> forall i, j :: 0 <= i < j < |r.value| ==> r.value[i].score >= r.value[j].score
    ensures r.Ok? && Hybrid.UnitSimilarity(sim) && PredictsWithin(model, userId, catalog) && 0.0 <= alpha <= 1.0
            ==> AllWithin(Scores(r.value), 0.0, 1.0)
    ensures r.Ok? ==> var pairs := CollectPairs(catalog, sim, model, userId, AsList(titles), topN, alpha);
                      pairs.Ok? && RankedAverages(r.value, pairs.value, topN)
  {
    var pairs := CollectPairs(catalog, sim, model, userId, AsList(titles), topN, alpha);
    if pairs.Err? then Err(pairs.message)
    else
      var r := RankAverages(pairs.value, topN);
      RankedWithin(catalog, sim, model, userId, pairs.value, r, alpha, topN);
      Ok(r)
  }

  lemma RankedWithin(catalog: seq<Anime>, sim: seq<seq<real>>, model: Svd.Model, userId: int,
                     pairs: seq<Scored>, r: seq<Scored>, alpha: real, topN: int)
    requires forall k :: 0 <= k < |pairs| ==> 0 <= pairs[k].row < |catalog|
    requires Hybrid.UnitSimilarity(sim) && PredictsWithin(model, userId, catalog) && 0.0 <= alpha <= 1.0
             ==> AllWithin(Scores(pairs), 0.0, 1.0)
    requires r == RankAverages(pairs, topN)
    ensures forall k :: 0 <= k < |r| ==> 0 <= r[k].row < |catalog|
    ensures Hybrid.UnitSimilarity(sim) && PredictsWithin(model, userId, catalog) && 0.0 <= alpha <= 1.0
            ==> AllWithin(Scores(r), 0.0, 1.0)
  {
    forall k | 0 <= k < |r|
      ensures 0 <= r[k].row < |catalog|
    {
      var m :| 0 <= m < |pairs| && Rows(pairs)[m] == r[k].row;
    }
    if Hybrid.UnitSimilarity(sim) && PredictsWithin(model, userId, catalog) && 0.0 <= alpha <= 1.0 {
      forall k | 0 <= k < |r|
        ensures 0.0 <= r[k].score <= 1.0
      {
        ScoresOfWithin(pairs, r[k].row, 0.0, 1.0);
        MeanBounds(ScoresOf(pairs, r[k].row), 0.0, 1.0);
      }
    }
  }

  /** With a single title, the title itself is never among the results. */
  lemma SingleTitleNotRecommended(catalog: seq<Anime>, sim: seq<seq<real>>, model: Svd.Model, userId: int,
                                  title: string, topN: int, alpha: real)
    requires Hybrid.IsSimilarity(sim, |catalog|)
    requires FindTitle(catalog, title).Some?
    ensures var r := LegacyRanking(catalog, sim, model, userId, One(title), topN, alpha);
            r.Ok? && forall k :: 0 <= k < |r.value| ==> r.value[k].row != FindTitle(catalog, title).value
  {
    var idx := FindTitle(catalog, title).value;
    var pairs := TitlePairs(catalog, sim, model, userId, idx, topN, alpha);
    SingleTitlePairs(catalog, sim, model, userId, title, topN, alpha);
    assert AsList(One(title)) == [title];
    var r := RankAverages(pairs, topN);
    assert LegacyRanking(catalog, sim, model, userId, One(title), topN, alpha) == Ok(r);
    RankedAvoids(pairs, r, |catalog|, idx);
  }

  /** With a single title that is found, min(top_n, n - 1) rows come back:
      the title's window reaches min(top_n + 19, n - 1) distinct rows. */
  lemma SingleTitleCount(catalog: seq<Anime>, sim: seq<seq<real>>, model: Svd.Model, userId: int,
                         title: string, topN: int, alpha: real)
    requires Hybrid.IsSimilarity(sim, |catalog|)
    requires FindTitle(catalog, title).Some? && 0 <= topN
    ensures var r := LegacyRanking(catalog, sim, model, userId, One(title), topN, alpha);
            r.Ok? && |r.value| == if topN < |catalog| - 1 then topN else |catalog| - 1
  {
    var idx := FindTitle(catalog, title).value;
    var pairs := TitlePairs(catalog, sim, model, userId, idx, topN, alpha);
    SingleTitlePairs(catalog, sim, model, userId, title, topN, alpha);
    assert AsList(One(title)) == [title];
    UniqueOfDistinct(Rows(pairs));
    var r := RankAverages(pairs, topN);
    assert LegacyRanking(catalog, sim, model, userId, One(title), topN, alpha) == Ok(r);
  }

  /** A single found title contributes exactly its own window's pairs. */
  lemma SingleTitlePairs(catalog: seq<Anime>, sim: seq<seq<real>>, model: Svd.Model, userId: int,
                         title: string, topN: int, alpha: real)
    requires Hybrid.IsSimilarity(sim, |catalog|)
    requires FindTitle(catalog, title).Some?
    ensures CollectPairs(catalog, sim, model, userId, [title], topN, alpha)
         == Ok(TitlePairs(catalog, sim, model, userId, FindTitle(catalog, title).value, topN, alpha))
  {
    var pairs := TitlePairs(catalog, sim, model, userId, FindTitle(catalog, title).value, topN, alpha);
    assert [title][1..] == [];
    assert CollectPairs(catalog, sim, model, userId, [], topN, alpha) == Ok([]);
    assert pairs + [] == pairs;
  }

  /** Rows drawn from pairs that avoid a row avoid it too. */
  lemma RankedAvoids(pairs: seq<Scored>, r: seq<Scored>, n: nat, idx: int)
    requires AvoidsRow(pairs, n, idx)
    requires forall k :: 0 <= k < |r| ==> r[k].row in Rows(pairs)
    ensures forall k :: 0 <= k < |r| ==> r[k].row != idx
  {
    forall k | 0 <= k < |r|
      ensures r[k].row != idx
    {
      var m :| 0 <= m < |pairs| && Rows(pairs)[m] == r[k].row;
    }
  }

  /** With a single title the averages are the pair scores themselves: every
      row is reached once. */
  lemma {:induction false} SingleTitleScoresArePairScores(pairs: seq<Scored>, k: nat)
    requires forall i, j :: 0 <= i < j < |pairs| ==> pairs[i].row != pairs[j].row
    requires k < |pairs|
    ensures ScoresOf(pairs, pairs[k].row) == [pairs[k].score]
    decreases |pairs|
  {
    var tail := pairs[1..];
    if k == 0 {
      assert forall i :: 0 <= i < |tail| ==> tail[i].row != pairs[0].row by {
        assert forall i :: 0 <= i < |tail| ==> tail[i] == pairs[i + 1];
      }
      ScoresOfMissing(tail, pairs[0].row);
    } else {
      assert tail[k - 1] == pairs[k];
      assert forall i, j :: 0 <= i < j < |tail| ==> tail[i].row != tail[j].row by {
        assert forall i :: 0 <= i < |tail| ==> tail[i] == pairs[i + 1];
      }
      SingleTitleScoresArePairScores(tail, k - 1);
      assert pairs[0].row != pairs[k].row;
    }
  }

  lemma {:induction false} ScoresOfMissing(pairs: seq<Scored>, row: int)
    requires forall i :: 0 <= i < |pairs| ==> pairs[i].row != row
    ensures ScoresOf(pairs, row) == []
  {
    if |pairs| > 0 {
      ScoresOfMissing(pairs[1..], row);
    }
  }

  // ---------------------------------------------------------------------------
  // The returned table

  const PlaceholderPrefix: string := "https://via.placeholder.com/120/ff4baf/ffffff?text="

  /** The placeholder image URL, carrying the first ten characters of the
      name. */
  function ImageUrl(name: string): (url: string)
    ensures |PlaceholderPrefix| <= |url| <= |PlaceholderPrefix| + 10
    ensures |url| <= |PlaceholderPrefix| + |name|
    ensures url[..|PlaceholderPrefix|] == PlaceholderPrefix
    ensures url[|PlaceholderPrefix|..] == name[..|url| - |PlaceholderPrefix|]
    ensures |name| <= 10 ==> url == PlaceholderPrefix + name
    ensures |name| > 10 ==> url == PlaceholderPrefix + name[..10]
  {
    PlaceholderPrefix + Head(name, 10)
  }

  /** Two names get the same URL exactly when their first ten characters (the
      whole name, when shorter) agree. */
  lemma ImageUrlSameIff(a: string, b: string)
    ensures ImageUrl(a) == ImageUrl(b) <==> a[..if |a| < 10 then |a| else 10] == b[..if |b| < 10 then |b| else 10]
  {
    var n := |PlaceholderPrefix|;
    if ImageUrl(a) == ImageUrl(b) {
      assert ImageUrl(a)[n..] == ImageUrl(b)[n..];
    }
  }

  /** The record shows the name, lower-cased genre and image of some catalog
      row. */
  predicate ShowsCatalogRow(catalog: seq<Anime>, rec: LegacyRec) {
    exists i :: 0 <= i < |catalog| && rec.name == catalog[i].name && rec.genre == Lower(catalog[i].genre)
                && rec.imageUrl == ImageUrl(catalog[i].name)
  }

  /** The record shows the ranked row: its catalog name and its genre as the
      table holds it after lower-casing, its average as the final score, and
      the image URL of its name. */
  predicate ShowsRanked(catalog: seq<Anime>, x: Scored, rec: LegacyRec) {
    && 0 <= x.row < |catalog|
    && rec.name == catalog[x.row].name && rec.genre == Lower(catalog[x.row].genre)
    && rec.finalScore == x.score
    && rec.imageUrl == ImageUrl(catalog[x.row].name)
  }

  /** One row of the result: the catalog row's name and genre (lower-cased,
      as the table was at load time), its average score and its image URL. */
  function Present(catalog: seq<Anime>, x: Scored): (rec: LegacyRec)
    requires 0 <= x.row < |catalog|
  {
    LegacyRec(catalog[x.row].name, Lower(catalog[x.row].genre), x.score, ImageUrl(catalog[x.row].name))
  }

  /** hybrid_recommend: the result table, or the message for the first title
      that is not found. */
  function LegacyRecommend(catalog: seq<Anime>, sim: seq<seq<real>>, model: Svd.Model, userId: int,
                           titles: Titles, topN: int, alpha: real): (r: Result<seq<LegacyRec>>)
    requires Hybrid.IsSimilarity(sim, |catalog|)
    ensures r.Err? <==> exists k :: 0 <= k < |AsList(titles)| && FindTitle(catalog, AsList(titles)[k]).None?
    ensures r.Err? ==> exists k: nat :: FirstMissing(catalog, AsList(titles), k) && r.message == NotFound(AsList(titles)[k])
    ensures r.Ok? && 0 <= topN ==> |r.value| <= topN
    ensures r.Ok? ==> forall i, j :: 0 <= i < j < |r.value| ==> r.value[i].finalScore >= r.value[j].finalScore
    ensures r.Ok? ==> forall k :: 0 <= k < |r.value| ==> ShowsCatalogRow(catalog, r.value[k])
    ensures r.Ok? && Hybrid.UnitSimilarity(sim) && PredictsWithin(model, userId, catalog) && 0.0 <= alpha <= 1.0
            ==> forall k :: 0 <= k < |r.value| ==> 0.0 <= r.value[k].finalScore <= 1.0
    ensures r.Ok? ==> var ranked := LegacyRanking(catalog, sim, model, userId, titles, topN, alpha);
                      && ranked.Ok? && |r.value| == |ranked.value|
                      && forall k :: 0 <= k < |r.value| ==> ShowsRanked(catalog, ranked.value[k], r.value[k])
  {
    var ranked := LegacyRanking(catalog, sim, model, userId, titles, topN, alpha);
    match ranked
    case Err(message) => Err(message)
    case Ok(rs) =>
      var out := PresentAll(catalog, rs);
      PresentFacts(catalog, sim, model, userId, alpha, rs, out);
      Ok(out)
  }

  function PresentAll(catalog: seq<Anime>, rs: seq<Scored>): (out: seq<LegacyRec>)
    requires forall k :: 0 <= k < |rs| ==> 0 <= rs[k].row < |catalog|
    ensures |out| == |rs|
    ensures forall k :: 0 <= k < |rs| ==> out[k] == Present(catalog, rs[k])
  {
    seq(|rs|, k requires 0 <= k < |rs| => Present(catalog, rs[k]))
  }

  lemma PresentFacts(catalog: seq<Anime>, sim: seq<seq<real>>, model: Svd.Model, userId: int, alpha: real,
                     rs: seq<Scored>, out: seq<LegacyRec>)
    requires forall k :: 0 <= k < |rs| ==> 0 <= rs[k].row < |catalog|
    requires out == PresentAll(catalog, rs)
    requires forall i, j :: 0 <= i < j < |rs| ==> rs[i].score >= rs[j].score
    requires Hybrid.UnitSimilarity(sim) && PredictsWithin(model, userId, catalog) && 0.0 <= alpha <= 1.0
             ==> AllWithin(Scores(rs), 0.0, 1.0)
    ensures forall i, j :: 0 <= i < j < |out| ==> out[i].finalScore >= out[j].finalScore
    ensures forall k :: 0 <= k < |out| ==> ShowsCatalogRow(catalog, out[k])
    ensures |out| == |rs| && forall k :: 0 <= k < |out| ==> ShowsRanked(catalog, rs[k], out[k])
    ensures Hybrid.UnitSimilarity(sim) && PredictsWithin(model, userId, catalog) && 0.0 <= alpha <= 1.0
            ==> forall k :: 0 <= k < |out| ==> 0.0 <= out[k].finalScore <= 1.0
  {
    assert forall k :: 0 <= k < |rs| ==> out[k].finalScore == rs[k].score && Scores(rs)[k] == rs[k].score;
    forall k | 0 <= k < |out|
      ensures ShowsCatalogRow(catalog, out[k])
    {
      var i := rs[k].row;
      assert out[k] == Present(catalog, rs[k]);
      assert 0 <= i < |catalog| && out[k].name == catalog[i].name && out[k].genre == Lower(catalog[i].genre)
             && out[k].imageUrl == ImageUrl(catalog[i].name);
    }
  }
}
