/** The two-signal recommender: content ranking by mean genre similarity to a
    seed list, and the fusion of that ranking with the collaborative one by
    outer join, min-max normalisation and a weighted blend. The TF-IDF cosine
    similarity is an input matrix and the trained SVD an input model. */
module Hybrid {
  import opened Tables
  import opened Ranking
  import Svd

  /** A content-ranked row: its catalog position, the catalog row, and its mean
      similarity to the matched seeds. */
  datatype ContentRec = ContentRec(row: nat, anime: Anime, contentScore: real)

  /** A row of the outer join of the collaborative and content tables. */
  datatype Joined = Joined(animeId: int, name: string, genre: string, predictedRating: real, contentScore: real)

  /** A row of the fused ranking; both signals are min-max normalised. */
  datatype FusedRec = FusedRec(
    animeId: int, name: string, genre: string,
    predictedRating: real, contentScore: real, finalScore: real)

  /** hybrid_recommend either passes the collaborative table through (no seed
      matched) or returns the fused table. */
  datatype HybridResult = CollaborativeOnly(recs: seq<Svd.Recommendation>) | Fused(fused: seq<FusedRec>)

  /** An n-by-n similarity matrix over the catalog rows. */
  predicate IsSimilarity(sim: seq<seq<real>>, n: nat) {
    |sim| == n && forall i :: 0 <= i < n ==> |sim[i]| == n
  }

  /** Every similarity lies in [0, 1], as cosine similarity of non-negative
      TF-IDF weights does. */
  predicate UnitSimilarity(sim: seq<seq<real>>) {
    forall i, j :: 0 <= i < |sim| && 0 <= j < |sim[i]| ==> 0.0 <= sim[i][j] <= 1.0
  }

  // ---------------------------------------------------------------------------
  // Content ranking

  /** The positions, from k on, of the catalog rows whose name is a seed. */
  function SeedRowsFrom(catalog: seq<Anime>, seeds: seq<string>, k: nat): (rows: seq<nat>)
    requires k <= |catalog|
    ensures forall m :: 0 <= m < |rows| ==> k <= rows[m] < |catalog| && catalog[rows[m]].name in seeds
    ensures forall i :: k <= i < |catalog| && catalog[i].name in seeds ==> i in rows
    ensures forall a, b :: 0 <= a < b < |rows| ==> rows[a] < rows[b]
    decreases |catalog| - k
  {
    if k == |catalog| then []
    else if catalog[k].name in seeds then [k] + SeedRowsFrom(catalog, seeds, k + 1)
    else SeedRowsFrom(catalog, seeds, k + 1)
  }

  /** The catalog positions of the seeds (name.isin(selected)). */
  function SeedRows(catalog: seq<Anime>, seeds: seq<string>): (rows: seq<nat>)
    ensures forall m :: 0 <= m < |rows| ==> rows[m] < |catalog| && catalog[rows[m]].name in seeds
    ensures forall i :: 0 <= i < |catalog| && catalog[i].name in seeds ==> i in rows
    ensures |rows| == 0 <==> forall i :: 0 <= i < |catalog| ==> catalog[i].name !in seeds
    ensures forall a, b :: 0 <= a < b < |rows| ==> rows[a] < rows[b]
  {
    var rows := SeedRowsFrom(catalog, seeds, 0);
    assert |rows| > 0 ==> catalog[rows[0]].name in seeds;
    rows
  }

  /** The similarities of catalog row i to each seed row. */
  function SeedSimilarities(sim: seq<seq<real>>, seedRows: seq<nat>, i: nat): (xs: seq<real>)
    requires IsSimilarity(sim, |sim|) && i < |sim|
    requires forall m :: 0 <= m < |seedRows| ==> seedRows[m] < |sim|
    ensures |xs| == |seedRows|
    ensures forall m :: 0 <= m < |seedRows| ==> xs[m] == sim[seedRows[m]][i]
  {
    seq(|seedRows|, m requires 0 <= m < |seedRows| => sim[seedRows[m]][i])
  }

  /** The content score of catalog row i: its similarity averaged over the
      seed rows. */
  function MeanSimilarity(sim: seq<seq<real>>, seedRows: seq<nat>, i: nat): real
    requires IsSimilarity(sim, |sim|) && i < |sim| && |seedRows| > 0
    requires forall m :: 0 <= m < |seedRows| ==> seedRows[m] < |sim|
  {
    Mean(SeedSimilarities(sim, seedRows, i))
  }

  /** With similarities in [0, 1], every content score lies in [0, 1]. */
  lemma MeanSimilarityBounds(sim: seq<seq<real>>, seedRows: seq<nat>, i: nat)
    requires IsSimilarity(sim, |sim|) && i < |sim| && |seedRows| > 0
    requires forall m :: 0 <= m < |seedRows| ==> seedRows[m] < |sim|
    requires UnitSimilarity(sim)
    ensures 0.0 <= MeanSimilarity(sim, seedRows, i) <= 1.0
  {
    var xs := SeedSimilarities(sim, seedRows, i);
    assert AllWithin(xs, 0.0, 1.0);
    MeanBounds(xs, 0.0, 1.0);
  }

  /** Every catalog row with its content score. */
  function ScoreRows(catalog: seq<Anime>, sim: seq<seq<real>>, seedRows: seq<nat>): (recs: seq<ContentRec>)
    requires IsSimilarity(sim, |catalog|) && |seedRows| > 0
    requires forall m :: 0 <= m < |seedRows| ==> seedRows[m] < |catalog|
    ensures |recs| == |catalog|
    ensures forall i :: 0 <= i < |catalog| ==> recs[i] == ContentRec(i, catalog[i], MeanSimilarity(sim, seedRows, i))
  {
    seq(|catalog|, i requires 0 <= i < |catalog| => ContentRec(i, catalog[i], MeanSimilarity(sim, seedRows, i)))
  }

  /** The number of catalog rows whose name is not a seed. */
  function NonSeedCount(catalog: seq<Anime>, seeds: seq<string>): nat
  {
    if |catalog| == 0 then 0
    else (if catalog[0].name in seeds then 0 else 1) + NonSeedCount(catalog[1..], seeds)
  }

  /** Dropping the seeds from rows that follow the catalog keeps one row per
      catalog row that is not a seed. */
  lemma {:induction false} ExcludeSeedsCount(recs: seq<ContentRec>, catalog: seq<Anime>, seeds: seq<string>)
    requires |recs| == |catalog| && forall i :: 0 <= i < |recs| ==> recs[i].anime == catalog[i]
    ensures |ExcludeSeeds(recs, seeds)| == NonSeedCount(catalog, seeds)
  {
    if |recs| > 0 {
      ExcludeSeedsCount(recs[1..], catalog[1..], seeds);
    }
  }

  /** Drop the rows whose name is a seed (~name.isin(selected)). */
  function ExcludeSeeds(recs: seq<ContentRec>, seeds: seq<string>): (kept: seq<ContentRec>)
    ensures Subseq(kept, recs)
    ensures forall x :: x in kept <==> x in recs && x.anime.name !in seeds
  {
    if |recs| == 0 then []
    else if recs[0].anime.name in seeds then ExcludeSeeds(recs[1..], seeds)
    else [recs[0]] + ExcludeSeeds(recs[1..], seeds)
  }

  /** The key of sort_values('content_score', ascending=False), with equal
      scores ordered by ascending anime_id. */
  function ByContentThenId(x: ContentRec): Key {
    Key(x.contentScore, x.anime.id)
  }

  /** The content row of catalog position i, given the seed rows. */
  function ContentRow(catalog: seq<Anime>, sim: seq<seq<real>>, seedRows: seq<nat>, i: nat): ContentRec
    requires IsSimilarity(sim, |catalog|) && |seedRows| > 0 && i < |catalog|
    requires forall m :: 0 <= m < |seedRows| ==> seedRows[m] < |catalog|
  {
    ContentRec(i, catalog[i], MeanSimilarity(sim, seedRows, i))
  }

  /** The seed rows are catalog rows, and there is at least one. */
  predicate ValidSeeds(catalog: seq<Anime>, sim: seq<seq<real>>, seedRows: seq<nat>) {
    IsSimilarity(sim, |catalog|) && |seedRows| > 0 && forall m :: 0 <= m < |seedRows| ==> seedRows[m] < |catalog|
  }

  /** Every row is a catalog row that is not a seed, scored by its mean
      similarity to the seed rows. */
  predicate ScoredNonSeeds(r: seq<ContentRec>, catalog: seq<Anime>, sim: seq<seq<real>>, seeds: seq<string>, seedRows: seq<nat>)
    requires ValidSeeds(catalog, sim, seedRows)
  {
    forall k :: 0 <= k < |r| ==>
      && r[k].row < |catalog|
      && r[k].anime == catalog[r[k].row]
      && r[k].anime.name !in seeds
      && r[k].contentScore == MeanSimilarity(sim, seedRows, r[k].row)
  }

  /** Sorted by content score, best first, equal scores by ascending id. */
  predicate SortedByContent(r: seq<ContentRec>) {
    forall i, j :: 0 <= i < j < |r| ==> AtLeast(ByContentThenId(r[i]), ByContentThenId(r[j]))
  }

  /** No catalog position is listed twice. */
  predicate DistinctPositions(r: seq<ContentRec>) {
    forall i, j :: 0 <= i < j < |r| ==> r[i].row != r[j].row
  }

  /** A non-seed catalog row left out ranks no higher than any row kept. */
  predicate KeepsBestContent(r: seq<ContentRec>, catalog: seq<Anime>, sim: seq<seq<real>>, seeds: seq<string>, seedRows: seq<nat>)
    requires ValidSeeds(catalog, sim, seedRows)
  {
    forall i :: 0 <= i < |catalog| && catalog[i].name !in seeds && ContentRow(catalog, sim, seedRows, i) !in r
                ==> forall k :: 0 <= k < |r| ==>
                      AtLeast(ByContentThenId(r[k]), ByContentThenId(ContentRow(catalog, sim, seedRows, i)))
  }

  /** get_content_based_recommendations. */
  function ContentRecommendations(catalog: seq<Anime>, sim: seq<seq<real>>, seeds: seq<string>, topN: int)
    : (r: seq<ContentRec>)
    requires IsSimilarity(sim, |catalog|)
    ensures (forall i :: 0 <= i < |catalog| ==> catalog[i].name !in seeds) ==> r == []
    ensures 0 <= topN ==> |r| <= topN
    ensures |SeedRows(catalog, seeds)| > 0 && 0 <= topN ==>
              |r| == if topN < NonSeedCount(catalog, seeds) then topN else NonSeedCount(catalog, seeds)
    ensures |SeedRows(catalog, seeds)| > 0 && topN < 0 ==>
              |r| == if NonSeedCount(catalog, seeds) + topN < 0 then 0 else NonSeedCount(catalog, seeds) + topN
    ensures SortedByContent(r) && DistinctPositions(r)
    ensures UniqueIds(catalog) ==> Distinct(ContentIds(r))
    ensures |SeedRows(catalog, seeds)| > 0 ==>
              && ScoredNonSeeds(r, catalog, sim, seeds, SeedRows(catalog, seeds))
              && KeepsBestContent(r, catalog, sim, seeds, SeedRows(catalog, seeds))
  {
    var seedRows := SeedRows(catalog, seeds);
    if |seedRows| == 0 then [] else ContentRanking(catalog, sim, seeds, seedRows, topN)
  }

  /** The content ranking once some seed matched. */
  function ContentRanking(catalog: seq<Anime>, sim: seq<seq<real>>, seeds: seq<string>, seedRows: seq<nat>, topN: int)
    : (r: seq<ContentRec>)
    requires IsSimilarity(sim, |catalog|) && seedRows == SeedRows(catalog, seeds) && |seedRows| > 0
    ensures 0 <= topN ==> |r| <= topN
    ensures 0 <= topN ==> |r| == if topN < NonSeedCount(catalog, seeds) then topN else NonSeedCount(catalog, seeds)
    ensures topN < 0 ==> |r| == if NonSeedCount(catalog, seeds) + topN < 0 then 0 else NonSeedCount(catalog, seeds) + topN
    ensures SortedByContent(r) && DistinctPositions(r)
    ensures UniqueIds(catalog) ==> Distinct(ContentIds(r))
    ensures ScoredNonSeeds(r, catalog, sim, seeds, seedRows) && KeepsBestContent(r, catalog, sim, seeds, seedRows)
  {
    var scored := ScoreRows(catalog, sim, seedRows);
    var kept := ExcludeSeeds(scored, seeds);
    var r := TopBy(kept, ByContentThenId, topN);
    ContentFacts(catalog, sim, seeds, seedRows, scored, kept, topN, r);
    ExcludeSeedsCount(scored, catalog, seeds);
    ContentIdsDistinct(r, catalog);
    r
  }

  /** Different catalog positions of a catalog with unique ids hold different
      anime. */
  lemma ContentIdsDistinct(r: seq<ContentRec>, catalog: seq<Anime>)
    requires forall k :: 0 <= k < |r| ==> r[k].row < |catalog| && r[k].anime == catalog[r[k].row]
    requires DistinctPositions(r)
    ensures UniqueIds(catalog) ==> Distinct(ContentIds(r))
  {
    if UniqueIds(catalog) {
      var ids := ContentIds(r);
      forall i, j | 0 <= i < j < |ids|
        ensures ids[i] != ids[j]
      {
        assert r[i].row != r[j].row;
      }
    }
  }

  lemma ContentFacts(catalog: seq<Anime>, sim: seq<seq<real>>, seeds: seq<string>, seedRows: seq<nat>,
                     scored: seq<ContentRec>, kept: seq<ContentRec>, topN: int, r: seq<ContentRec>)
    requires IsSimilarity(sim, |catalog|) && seedRows == SeedRows(catalog, seeds) && |seedRows| > 0
    requires scored == ScoreRows(catalog, sim, seedRows)
    requires kept == ExcludeSeeds(scored, seeds)
    requires r == TopBy(kept, ByContentThenId, topN)
    ensures ValidSeeds(catalog, sim, seedRows)
    ensures ScoredNonSeeds(r, catalog, sim, seeds, seedRows)
    ensures DistinctPositions(r)
    ensures KeepsBestContent(r, catalog, sim, seeds, seedRows)
  {
    PickedRowsScored(catalog, sim, seeds, seedRows, scored, kept, r);
    KeptDistinct(scored, kept, seeds);
    PickedPositionsDistinct(catalog, sim, seedRows, scored, r);
    PickedKeepBest(catalog, sim, seeds, seedRows, scored, kept, r);
  }

  lemma PickedRowsScored(catalog: seq<Anime>, sim: seq<seq<real>>, seeds: seq<string>, seedRows: seq<nat>,
                         scored: seq<ContentRec>, kept: seq<ContentRec>, r: seq<ContentRec>)
    requires ValidSeeds(catalog, sim, seedRows)
    requires scored == ScoreRows(catalog, sim, seedRows)
    requires forall x :: x in kept <==> x in scored && x.anime.name !in seeds
    requires forall k :: 0 <= k < |r| ==> r[k] in kept
    ensures ScoredNonSeeds(r, catalog, sim, seeds, seedRows)
  {
    forall k | 0 <= k < |r|
      ensures r[k].row < |catalog| && r[k].anime == catalog[r[k].row]
      ensures r[k].anime.name !in seeds
      ensures r[k].contentScore == MeanSimilarity(sim, seedRows, r[k].row)
    {
      assert r[k] in scored;
      var m :| 0 <= m < |scored| && scored[m] == r[k];
    }
  }

  /** Rows kept from the scored catalog are pairwise different. */
  lemma KeptDistinct(scored: seq<ContentRec>, kept: seq<ContentRec>, seeds: seq<string>)
    requires forall i :: 0 <= i < |scored| ==> scored[i].row == i
    requires kept == ExcludeSeeds(scored, seeds)
    ensures Distinct(kept)
  {
    SubseqMembers(kept, scored);
    forall i, j | 0 <= i < j < |kept|
      ensures kept[i] != kept[j]
    {
      DistinctSubseq(kept, scored, i, j);
    }
  }

  lemma PickedPositionsDistinct(catalog: seq<Anime>, sim: seq<seq<real>>, seedRows: seq<nat>,
                                scored: seq<ContentRec>, r: seq<ContentRec>)
    requires forall i :: 0 <= i < |scored| ==> scored[i].row == i
    requires Distinct(r) && forall k :: 0 <= k < |r| ==> r[k] in scored
    ensures DistinctPositions(r)
  {
    forall i, j | 0 <= i < j < |r|
      ensures r[i].row != r[j].row
    {
      var a :| 0 <= a < |scored| && scored[a] == r[i];
      var b :| 0 <= b < |scored| && scored[b] == r[j];
    }
  }

  lemma PickedKeepBest(catalog: seq<Anime>, sim: seq<seq<real>>, seeds: seq<string>, seedRows: seq<nat>,
                       scored: seq<ContentRec>, kept: seq<ContentRec>, r: seq<ContentRec>)
    requires ValidSeeds(catalog, sim, seedRows)
    requires scored == ScoreRows(catalog, sim, seedRows)
    requires forall x :: x in kept <==> x in scored && x.anime.name !in seeds
    requires forall i :: 0 <= i < |kept| && kept[i] !in r
                         ==> forall k :: 0 <= k < |r| ==> AtLeast(ByContentThenId(r[k]), ByContentThenId(kept[i]))
    ensures KeepsBestContent(r, catalog, sim, seeds, seedRows)
  {
    forall i | 0 <= i < |catalog| && catalog[i].name !in seeds && ContentRow(catalog, sim, seedRows, i) !in r
      ensures forall k :: 0 <= k < |r| ==>
                AtLeast(ByContentThenId(r[k]), ByContentThenId(ContentRow(catalog, sim, seedRows, i)))
    {
      var x := ContentRow(catalog, sim, seedRows, i);
      assert scored[i] == x;
      assert x in kept;
      var m :| 0 <= m < |kept| && kept[m] == x;
    }
  }

  /** Distinct positions of a subsequence of rows with distinct positions hold
      different rows. */
  lemma {:induction false} DistinctSubseq(kept: seq<ContentRec>, scored: seq<ContentRec>, i: nat, j: nat)
    requires Subseq(kept, scored)
    requires forall a, b :: 0 <= a < b < |scored| ==> scored[a].row < scored[b].row
    requires i < j < |kept|
    ensures kept[i].row < kept[j].row
    decreases |scored|
  {
    if kept[0] == scored[0] {
      if i == 0 {
        SubseqMembers(kept[1..], scored[1..]);
        assert kept[j] == kept[1..][j - 1] && kept[j] in kept[1..];
        var b :| 0 <= b < |scored[1..]| && scored[1..][b] == kept[j];
        assert scored[b + 1] == kept[j];
      } else {
        DistinctSubseq(kept[1..], scored[1..], i - 1, j - 1);
      }
    } else {
      DistinctSubseq(kept, scored[1..], i, j);
    }
  }

  /** With similarities in [0, 1], every content score lies in [0, 1]. */
  lemma ContentScoresBounded(catalog: seq<Anime>, sim: seq<seq<real>>, seeds: seq<string>, topN: int)
    requires IsSimilarity(sim, |catalog|) && UnitSimilarity(sim)
    ensures var r := ContentRecommendations(catalog, sim, seeds, topN);
            forall k :: 0 <= k < |r| ==> 0.0 <= r[k].contentScore <= 1.0
  {
    var r := ContentRecommendations(catalog, sim, seeds, topN);
    var seedRows := SeedRows(catalog, seeds);
    forall k | 0 <= k < |r|
      ensures 0.0 <= r[k].contentScore <= 1.0
    {
      MeanSimilarityBounds(sim, seedRows, r[k].row);
    }
  }

  // ---------------------------------------------------------------------------
  // Fusion

  function SvdIds(svd: seq<Svd.Recommendation>): (ids: seq<int>)
    ensures |ids| == |svd| && forall k :: 0 <= k < |svd| ==> ids[k] == svd[k].animeId
  {
    seq(|svd|, k requires 0 <= k < |svd| => svd[k].animeId)
  }

  function ContentIds(content: seq<ContentRec>): (ids: seq<int>)
    ensures |ids| == |content| && forall k :: 0 <= k < |content| ==> ids[k] == content[k].anime.id
  {
    seq(|content|, k requires 0 <= k < |content| => content[k].anime.id)
  }

  function JoinedIds(t: seq<Joined>): (ids: seq<int>)
    ensures |ids| == |t| && forall k :: 0 <= k < |t| ==> ids[k] == t[k].animeId
  {
    seq(|t|, k requires 0 <= k < |t| => t[k].animeId)
  }

  /** The collaborative column of the joined table at an id: the first
      collaborative row's predicted rating, or the fill value 0. */
  function PredictedOf(svd: seq<Svd.Recommendation>, id: int): (v: real)
    ensures id !in SvdIds(svd) ==> v == 0.0
    ensures id in SvdIds(svd) ==> exists k :: 0 <= k < |svd| && svd[k].animeId == id && v == svd[k].predictedRating
  {
    if |svd| == 0 then 0.0
    else if svd[0].animeId == id then svd[0].predictedRating
    else
      assert SvdIds(svd[1..]) == SvdIds(svd)[1..];
      var v := PredictedOf(svd[1..], id);
      assert id in SvdIds(svd[1..]) ==> exists k :: 0 <= k < |svd[1..]| && svd[1..][k].animeId == id && v == svd[1..][k].predictedRating;
      v
  }

  /** The content column of the joined table at an id: the first content row's
      score, or the fill value 0. */
  function ContentOf(content: seq<ContentRec>, id: int): (v: real)
    ensures id !in ContentIds(content) ==> v == 0.0
    ensures id in ContentIds(content) ==> exists k :: 0 <= k < |content| && content[k].anime.id == id && v == content[k].contentScore
  {
    if |content| == 0 then 0.0
    else if content[0].anime.id == id then content[0].contentScore
    else
      assert ContentIds(content[1..]) == ContentIds(content)[1..];
      var v := ContentOf(content[1..], id);
      assert id in ContentIds(content[1..]) ==> exists k :: 0 <= k < |content[1..]| && content[1..][k].anime.id == id && v == content[1..][k].contentScore;
      v
  }

  /** The joined rows of the collaborative table, in its order. */
  function CollaborativeRows(svd: seq<Svd.Recommendation>, rest: seq<Svd.Recommendation>, content: seq<ContentRec>)
    : (t: seq<Joined>)
    ensures |t| == |rest|
    ensures forall k :: 0 <= k < |rest| ==>
              t[k] == Joined(rest[k].animeId, rest[k].name, rest[k].genre,
                             PredictedOf(svd, rest[k].animeId), ContentOf(content, rest[k].animeId))
  {
    seq(|rest|, k requires 0 <= k < |rest| =>
      Joined(rest[k].animeId, rest[k].name, rest[k].genre,
             PredictedOf(svd, rest[k].animeId), ContentOf(content, rest[k].animeId)))
  }

  /** The joined rows of the content rows whose id the collaborative table
      lacks; their name and genre are left empty. */
  function ContentOnlyRows(svd: seq<Svd.Recommendation>, content: seq<ContentRec>, rest: seq<ContentRec>)
    : (t: seq<Joined>)
    ensures ContentOnly(t, svd, content, rest)
    ensures forall id :: id in ContentIds(rest) && id !in SvdIds(svd) ==> id in JoinedIds(t)
    ensures Distinct(ContentIds(rest)) ==> Distinct(JoinedIds(t))
  {
    if |rest| == 0 then []
    else
      var tail := ContentOnlyRows(svd, content, rest[1..]);
      var id := rest[0].anime.id;
      if id in SvdIds(svd) then
        ContentOnlySkip(svd, content, rest, tail);
        tail
      else
        var t := [Joined(id, "", "", 0.0, ContentOf(content, id))] + tail;
        ContentOnlyCons(svd, content, rest, tail, t);
        t
  }

  /** Every row is a content-only row of rest: an id of rest the collaborative
      table lacks, empty name and genre, no predicted rating. */
  predicate ContentOnly(t: seq<Joined>, svd: seq<Svd.Recommendation>, content: seq<ContentRec>, rest: seq<ContentRec>) {
    forall k :: 0 <= k < |t| ==>
      t[k].animeId !in SvdIds(svd) && t[k].animeId in ContentIds(rest)
      && t[k] == Joined(t[k].animeId, "", "", 0.0, ContentOf(content, t[k].animeId))
  }

  /** A content row whose id the collaborative table has adds no row. */
  lemma ContentOnlySkip(svd: seq<Svd.Recommendation>, content: seq<ContentRec>, rest: seq<ContentRec>, tail: seq<Joined>)
    requires |rest| > 0 && rest[0].anime.id in SvdIds(svd)
    requires ContentOnly(tail, svd, content, rest[1..])
    requires forall id :: id in ContentIds(rest[1..]) && id !in SvdIds(svd) ==> id in JoinedIds(tail)
    requires Distinct(ContentIds(rest[1..])) ==> Distinct(JoinedIds(tail))
    ensures ContentOnly(tail, svd, content, rest)
    ensures forall id :: id in ContentIds(rest) && id !in SvdIds(svd) ==> id in JoinedIds(tail)
    ensures Distinct(ContentIds(rest)) ==> Distinct(JoinedIds(tail))
  {
    assert ContentIds(rest[1..]) == ContentIds(rest)[1..];
    assert forall id :: id in ContentIds(rest) ==> id == rest[0].anime.id || id in ContentIds(rest[1..]);
  }

  /** A content row whose id the collaborative table lacks adds its row in
      front. */
  lemma ContentOnlyCons(svd: seq<Svd.Recommendation>, content: seq<ContentRec>, rest: seq<ContentRec>,
                        tail: seq<Joined>, t: seq<Joined>)
    requires |rest| > 0 && rest[0].anime.id !in SvdIds(svd)
    requires t == [Joined(rest[0].anime.id, "", "", 0.0, ContentOf(content, rest[0].anime.id))] + tail
    requires ContentOnly(tail, svd, content, rest[1..])
    requires forall id :: id in ContentIds(rest[1..]) && id !in SvdIds(svd) ==> id in JoinedIds(tail)
    requires Distinct(ContentIds(rest[1..])) ==> Distinct(JoinedIds(tail))
    ensures ContentOnly(t, svd, content, rest)
    ensures forall id :: id in ContentIds(rest) && id !in SvdIds(svd) ==> id in JoinedIds(t)
    ensures Distinct(ContentIds(rest)) ==> Distinct(JoinedIds(t))
  {
    var id := rest[0].anime.id;
    assert ContentIds(rest[1..]) == ContentIds(rest)[1..];
    assert JoinedIds(t) == [id] + JoinedIds(tail);
    assert forall x :: x in ContentIds(rest) ==> x == id || x in ContentIds(rest[1..]);
    assert forall k :: 0 < k < |t| ==> t[k] == tail[k - 1];
    if Distinct(ContentIds(rest)) {
      assert id !in ContentIds(rest[1..]);
      assert id !in JoinedIds(tail);
      DistinctCons(id, JoinedIds(tail));
    }
  }

  lemma DistinctCons(x: int, s: seq<int>)
    requires Distinct(s) && x !in s
    ensures Distinct([x] + s)
  {
  }

  /** pd.merge(svd, content, on='anime_id', how='outer').fillna(0): one row per
      id of either table, a missing score filled with 0. */
  function OuterJoin(svd: seq<Svd.Recommendation>, content: seq<ContentRec>): (t: seq<Joined>)
    ensures forall id :: id in JoinedIds(t) <==> id in SvdIds(svd) || id in ContentIds(content)
    ensures forall k :: 0 <= k < |t| ==> t[k].predictedRating == PredictedOf(svd, t[k].animeId)
                                         && t[k].contentScore == ContentOf(content, t[k].animeId)
    ensures Distinct(SvdIds(svd)) && Distinct(ContentIds(content)) ==> Distinct(JoinedIds(t))
  {
    var left := CollaborativeRows(svd, svd, content);
    var right := ContentOnlyRows(svd, content, content);
    var t := left + right;
    assert JoinedIds(t) == JoinedIds(left) + JoinedIds(right);
    assert JoinedIds(left) == SvdIds(svd);
    t
  }

  function MinOf(xs: seq<real>): (m: real)
    requires |xs| > 0
    ensures m in xs && forall k :: 0 <= k < |xs| ==> m <= xs[k]
  {
    if |xs| == 1 then xs[0]
    else
      var t := MinOf(xs[1..]);
      if xs[0] <= t then xs[0] else t
  }

  function MaxOf(xs: seq<real>): (m: real)
    requires |xs| > 0
    ensures m in xs && forall k :: 0 <= k < |xs| ==> xs[k] <= m
  {
    if |xs| == 1 then xs[0]
    else
      var t := MaxOf(xs[1..]);
      if xs[0] >= t then xs[0] else t
  }

  /** (x - lo) / (hi - lo) for every x of a column within [lo, hi]. */
  function Rescale(xs: seq<real>, lo: real, hi: real): (ys: seq<real>)
    requires lo < hi
    ensures |ys| == |xs|
    ensures forall k :: 0 <= k < |xs| ==> ys[k] == (xs[k] - lo) / (hi - lo)
  {
    seq(|xs|, k requires 0 <= k < |xs| => (xs[k] - lo) / (hi - lo))
  }

  lemma ScaleFacts(a: real, c: real, b: real)
    requires 0.0 < b
    ensures 0.0 <= a <= b ==> 0.0 <= a / b <= 1.0
    ensures a <= c <==> a / b <= c / b
    ensures a == 0.0 ==> a / b == 0.0
    ensures a == b ==> a / b == 1.0
  {
  }

  /** Rescaling maps [lo, hi] onto [0, 1], lo to 0 and hi to 1, and keeps the
      order of the column in both directions. */
  lemma RescaleFacts(xs: seq<real>, lo: real, hi: real)
    requires lo < hi && forall k :: 0 <= k < |xs| ==> lo <= xs[k] <= hi
    ensures var ys := Rescale(xs, lo, hi);
            && (forall k :: 0 <= k < |ys| ==> 0.0 <= ys[k] <= 1.0)
            && (forall i, j :: 0 <= i < |xs| && 0 <= j < |xs| ==> (xs[i] <= xs[j] <==> ys[i] <= ys[j]))
            && (forall k :: 0 <= k < |xs| ==> (xs[k] == lo ==> ys[k] == 0.0) && (xs[k] == hi ==> ys[k] == 1.0))
  {
    var ys := Rescale(xs, lo, hi);
    forall k | 0 <= k < |xs|
      ensures 0.0 <= ys[k] <= 1.0
      ensures xs[k] == lo ==> ys[k] == 0.0
      ensures xs[k] == hi ==> ys[k] == 1.0
    {
      ScaleFacts(xs[k] - lo, xs[k] - lo, hi - lo);
    }
    forall i, j | 0 <= i < |xs| && 0 <= j < |xs|
      ensures xs[i] <= xs[j] <==> ys[i] <= ys[j]
    {
      ScaleFacts(xs[i] - lo, xs[j] - lo, hi - lo);
    }
  }

  /** Min-max normalisation of one column, with the degenerate column
      (max == min, where the source divides by zero) mapped to 0. */
  function Normalise(xs: seq<real>): (ys: seq<real>)
    ensures |ys| == |xs|
    ensures forall k :: 0 <= k < |ys| ==> 0.0 <= ys[k] <= 1.0
    ensures forall i, j :: 0 <= i < |xs| && 0 <= j < |xs| ==> (xs[i] <= xs[j] <==> ys[i] <= ys[j])
    ensures |xs| > 0 && MinOf(xs) < MaxOf(xs) ==>
              forall k :: 0 <= k < |xs| ==> (xs[k] == MinOf(xs) ==> ys[k] == 0.0) && (xs[k] == MaxOf(xs) ==> ys[k] == 1.0)
    ensures |xs| > 0 && MinOf(xs) == MaxOf(xs) ==> forall k :: 0 <= k < |ys| ==> ys[k] == 0.0
  {
    if |xs| == 0 then []
    else
      var lo := MinOf(xs);
      var hi := MaxOf(xs);
      if hi == lo then seq(|xs|, k => 0.0)
      else
        RescaleFacts(xs, lo, hi);
        Rescale(xs, lo, hi)
  }

  /** The normalisation as the source writes it, before the fix: pandas
      divides by max - min and yields NaN, here None, for every row when the
      column is constant. */
  function NormaliseAsWritten(xs: seq<real>): (ys: seq<Option<real>>)
    ensures |ys| == |xs|
    ensures |xs| > 0 && MinOf(xs) == MaxOf(xs) ==> forall k :: 0 <= k < |ys| ==> ys[k].None?
    ensures |xs| > 0 && MinOf(xs) < MaxOf(xs) ==> ys == Defined(Normalise(xs))
  {
    if |xs| == 0 then []
    else
      var lo := MinOf(xs);
      var hi := MaxOf(xs);
      if hi == lo then seq(|xs|, k => None)
      else
        NormaliseRescales(xs);
        Defined(Rescale(xs, lo, hi))
  }

  /** Every value present. */
  function Defined(xs: seq<real>): (ys: seq<Option<real>>)
    ensures |ys| == |xs| && forall k :: 0 <= k < |xs| ==> ys[k] == Some(xs[k])
  {
    seq(|xs|, k requires 0 <= k < |xs| => Some(xs[k]))
  }

  /** On a column that is not constant, Normalise is the rescaling by the
      column's own minimum and maximum. */
  lemma NormaliseRescales(xs: seq<real>)
    requires |xs| > 0 && MinOf(xs) < MaxOf(xs)
    ensures Normalise(xs) == Rescale(xs, MinOf(xs), MaxOf(xs))
  {
  }

  /** A constant predicted-rating column, such as the one of a fused table
      with a single row, has no normalised value as written. */
  lemma ConstantColumnHasNoValue()
    ensures NormaliseAsWritten([8.5, 8.5]) == [None, None]
    ensures Normalise([8.5, 8.5]) == [0.0, 0.0]
  {
    assert MinOf([8.5, 8.5]) == 8.5;
    assert MaxOf([8.5, 8.5]) == 8.5;
  }

  function PredictedColumn(t: seq<Joined>): (xs: seq<real>)
    ensures |xs| == |t| && forall k :: 0 <= k < |t| ==> xs[k] == t[k].predictedRating
  {
    seq(|t|, k requires 0 <= k < |t| => t[k].predictedRating)
  }

  function ContentColumn(t: seq<Joined>): (xs: seq<real>)
    ensures |xs| == |t| && forall k :: 0 <= k < |t| ==> xs[k] == t[k].contentScore
  {
    seq(|t|, k requires 0 <= k < |t| => t[k].contentScore)
  }

  /** alpha * p + (1 - alpha) * c. */
  function Blend(alpha: real, p: real, c: real): real {
    alpha * p + (1.0 - alpha) * c
  }

  lemma ProductNonNegative(a: real, b: real)
    requires 0.0 <= a && 0.0 <= b
    ensures 0.0 <= a * b
  {
  }

  /** A blend of two scores in [0, 1] with a weight in [0, 1] lies in [0, 1]. */
  lemma BlendBounds(alpha: real, p: real, c: real)
    requires 0.0 <= alpha <= 1.0 && 0.0 <= p <= 1.0 && 0.0 <= c <= 1.0
    ensures 0.0 <= Blend(alpha, p, c) <= 1.0
  {
    ProductNonNegative(alpha, 1.0 - p);
    ProductNonNegative(1.0 - alpha, 1.0 - c);
    ProductNonNegative(alpha, p);
    ProductNonNegative(1.0 - alpha, c);
  }

  /** The joined table with both columns normalised and the final score. */
  function FuseRows(t: seq<Joined>, alpha: real): (rows: seq<FusedRec>)
    ensures |rows| == |t|
    ensures forall k :: 0 <= k < |t| ==>
              rows[k] == FusedRec(t[k].animeId, t[k].name, t[k].genre,
                                  Normalise(PredictedColumn(t))[k], Normalise(ContentColumn(t))[k],
                                  Blend(alpha, Normalise(PredictedColumn(t))[k], Normalise(ContentColumn(t))[k]))
  {
    var ps := Normalise(PredictedColumn(t));
    var cs := Normalise(ContentColumn(t));
    seq(|t|, k requires 0 <= k < |t| => FusedRec(t[k].animeId, t[k].name, t[k].genre, ps[k], cs[k], Blend(alpha, ps[k], cs[k])))
  }

  /** The key of sort_values('final_score', ascending=False), with equal final
      scores ordered by ascending anime_id. */
  function ByFinalThenId(x: FusedRec): Key {
    Key(x.finalScore, x.animeId)
  }

  /** The fusion step of hybrid_recommend. */
  function Fuse(svd: seq<Svd.Recommendation>, content: seq<ContentRec>, alpha: real, topN: int): (r: HybridResult)
    ensures |content| == 0 <==> r.CollaborativeOnly?
    ensures |content| == 0 ==> r == CollaborativeOnly(svd)
    ensures r.Fused? && 0 <= topN ==> |r.fused| <= topN
    ensures r.Fused? ==> forall i, j :: 0 <= i < j < |r.fused| ==> AtLeast(ByFinalThenId(r.fused[i]), ByFinalThenId(r.fused[j]))
    ensures r.Fused? ==> forall k :: 0 <= k < |r.fused| ==>
              && (r.fused[k].animeId in SvdIds(svd) || r.fused[k].animeId in ContentIds(content))
              && 0.0 <= r.fused[k].predictedRating <= 1.0
              && 0.0 <= r.fused[k].contentScore <= 1.0
              && r.fused[k].finalScore == Blend(alpha, r.fused[k].predictedRating, r.fused[k].contentScore)
    ensures r.Fused? && 0.0 <= alpha <= 1.0 ==> forall k :: 0 <= k < |r.fused| ==> 0.0 <= r.fused[k].finalScore <= 1.0
    ensures r.Fused? ==> TopOfFused(r.fused, FuseRows(OuterJoin(svd, content), alpha), topN)
    ensures r.Fused? && Distinct(SvdIds(svd)) && Distinct(ContentIds(content)) ==> DistinctFusedIds(r.fused)
  {
    if |content| == 0 then CollaborativeOnly(svd)
    else
      var t := OuterJoin(svd, content);
      var rows := FuseRows(t, alpha);
      var top := FusedTop(rows, topN);
      FusedFacts(svd, content, alpha, t, rows, top);
      FusedTopDistinct(svd, content, alpha, rows, topN, top);
      Fused(top)
  }

  /** r is the head of the fused table by final score: rows of the table,
      min(top_n, table size) of them when top_n >= 0 (all but the last
      -top_n otherwise), no row twice unless the table repeats one, best
      first, and every row left out ranks no higher than any row kept. */
  predicate TopOfFused(r: seq<FusedRec>, rows: seq<FusedRec>, topN: int) {
    && (forall k :: 0 <= k < |r| ==> r[k] in rows)
    && (0 <= topN ==> |r| == if topN < |rows| then topN else |rows|)
    && (topN < 0 ==> |r| == if |rows| + topN < 0 then 0 else |rows| + topN)
    && (Distinct(rows) ==> Distinct(r))
    && (forall i, j :: 0 <= i < j < |r| ==> AtLeast(ByFinalThenId(r[i]), ByFinalThenId(r[j])))
    && (forall i :: 0 <= i < |rows| && rows[i] !in r ==>
          forall k :: 0 <= k < |r| ==> AtLeast(ByFinalThenId(r[k]), ByFinalThenId(rows[i])))
  }

  /** sort_values('final_score', ascending=False).head(top_n). */
  function FusedTop(rows: seq<FusedRec>, topN: int): (top: seq<FusedRec>)
    ensures TopOfFused(top, rows, topN)
  {
    TopBy(rows, ByFinalThenId, topN)
  }

  /** With distinct ids in the fused table, TopOfFused pins the ranking down:
      any list meeting it is the one computed. */
  lemma FusedTopDetermined(rows: seq<FusedRec>, topN: int, r: seq<FusedRec>)
    requires 0 <= topN
    requires DistinctFusedIds(rows)
    requires TopOfFused(r, rows, topN)
    ensures r == FusedTop(rows, topN)
  {
    assert Distinct(rows);
    assert forall i, j :: 0 <= i < |rows| && 0 <= j < |rows| && ByFinalThenId(rows[i]) == ByFinalThenId(rows[j]) ==> i == j by {
      forall i, j | 0 <= i < |rows| && 0 <= j < |rows| && ByFinalThenId(rows[i]) == ByFinalThenId(rows[j])
        ensures i == j
      {
        assert rows[i].animeId == rows[j].animeId;
      }
    }
    TopByDetermined(rows, ByFinalThenId, topN, r);
  }

  /** When each input table lists an id once, Fuse's contract determines the
      fused ranking. */
  lemma FuseDetermined(svd: seq<Svd.Recommendation>, content: seq<ContentRec>, alpha: real, topN: int,
                       r: seq<FusedRec>)
    requires |content| > 0 && 0 <= topN
    requires Distinct(SvdIds(svd)) && Distinct(ContentIds(content))
    requires TopOfFused(r, FuseRows(OuterJoin(svd, content), alpha), topN)
    ensures Fuse(svd, content, alpha, topN) == Fused(r)
  {
    var rows := FuseRows(OuterJoin(svd, content), alpha);
    FusedIdsDistinct(svd, content, alpha);
    FusedTopDetermined(rows, topN, r);
    FuseTakesTop(svd, content, alpha, topN);
  }

  lemma FusedIdsDistinct(svd: seq<Svd.Recommendation>, content: seq<ContentRec>, alpha: real)
    requires Distinct(SvdIds(svd)) && Distinct(ContentIds(content))
    ensures DistinctFusedIds(FuseRows(OuterJoin(svd, content), alpha))
  {
    var t := OuterJoin(svd, content);
    FuseRowsIds(t, alpha);
    IdsFollowTable(t, FuseRows(t, alpha));
  }

  lemma FuseRowsIds(t: seq<Joined>, alpha: real)
    ensures |FuseRows(t, alpha)| == |t| && forall k :: 0 <= k < |t| ==> FuseRows(t, alpha)[k].animeId == t[k].animeId
  {
  }

  lemma IdsFollowTable(t: seq<Joined>, rows: seq<FusedRec>)
    requires Distinct(JoinedIds(t))
    requires |rows| == |t| && forall k :: 0 <= k < |t| ==> rows[k].animeId == t[k].animeId
    ensures DistinctFusedIds(rows)
  {
    assert forall k :: 0 <= k < |t| ==> JoinedIds(t)[k] == t[k].animeId;
  }

  /** No two fused rows are for the same anime. */
  predicate DistinctFusedIds(r: seq<FusedRec>) {
    forall i, j :: 0 <= i < j < |r| ==> r[i].animeId != r[j].animeId
  }

  /** When each input table lists an id once, so does the fused ranking: its
      rows are different rows of a table with one row per id. */
  lemma FusedTopDistinct(svd: seq<Svd.Recommendation>, content: seq<ContentRec>, alpha: real,
                         rows: seq<FusedRec>, topN: int, top: seq<FusedRec>)
    requires rows == FuseRows(OuterJoin(svd, content), alpha) && TopOfFused(top, rows, topN)
    ensures Distinct(SvdIds(svd)) && Distinct(ContentIds(content)) ==> DistinctFusedIds(top)
  {
    if Distinct(SvdIds(svd)) && Distinct(ContentIds(content)) {
      FusedIdsDistinct(svd, content, alpha);
      TopKeepsIdsDistinct(rows, topN, top);
    }
  }

  /** Different rows of a table with one row per anime are for different
      anime, so the head of such a table has one row per anime too. */
  lemma TopKeepsIdsDistinct(rows: seq<FusedRec>, topN: int, top: seq<FusedRec>)
    requires DistinctFusedIds(rows) && TopOfFused(top, rows, topN)
    ensures DistinctFusedIds(top)
  {
    assert Distinct(rows);
    forall i, j | 0 <= i < j < |top|
      ensures top[i].animeId != top[j].animeId
    {
      var p :| 0 <= p < |rows| && rows[p] == top[i];
      var q :| 0 <= q < |rows| && rows[q] == top[j];
      assert p != q;
    }
  }

  lemma FuseTakesTop(svd: seq<Svd.Recommendation>, content: seq<ContentRec>, alpha: real, topN: int)
    requires |content| > 0
    ensures Fuse(svd, content, alpha, topN) == Fused(FusedTop(FuseRows(OuterJoin(svd, content), alpha), topN))
  {
  }

  lemma FusedFacts(svd: seq<Svd.Recommendation>, content: seq<ContentRec>, alpha: real,
                   t: seq<Joined>, rows: seq<FusedRec>, top: seq<FusedRec>)
    requires t == OuterJoin(svd, content) && rows == FuseRows(t, alpha)
    requires forall k :: 0 <= k < |top| ==> top[k] in rows
    ensures forall k :: 0 <= k < |top| ==>
              && (top[k].animeId in SvdIds(svd) || top[k].animeId in ContentIds(content))
              && 0.0 <= top[k].predictedRating <= 1.0
              && 0.0 <= top[k].contentScore <= 1.0
              && top[k].finalScore == Blend(alpha, top[k].predictedRating, top[k].contentScore)
    ensures 0.0 <= alpha <= 1.0 ==> forall k :: 0 <= k < |top| ==> 0.0 <= top[k].finalScore <= 1.0
  {
    FuseRowsWellFormed(svd, content, alpha, t, rows);
    forall k | 0 <= k < |top|
      ensures WellFused(top[k], svd, content, alpha)
    {
      assert top[k] in rows;
      var m :| 0 <= m < |rows| && rows[m] == top[k];
    }
  }

  /** One fused row: a joined anime, both scores in [0, 1], the blend as its
      final score, and that in [0, 1] too when alpha is. */
  predicate WellFused(x: FusedRec, svd: seq<Svd.Recommendation>, content: seq<ContentRec>, alpha: real) {
    && (x.animeId in SvdIds(svd) || x.animeId in ContentIds(content))
    && 0.0 <= x.predictedRating <= 1.0
    && 0.0 <= x.contentScore <= 1.0
    && x.finalScore == Blend(alpha, x.predictedRating, x.contentScore)
    && (0.0 <= alpha <= 1.0 ==> 0.0 <= x.finalScore <= 1.0)
  }

  /** Every row of the fused table is well formed. */
  lemma FuseRowsWellFormed(svd: seq<Svd.Recommendation>, content: seq<ContentRec>, alpha: real,
                           t: seq<Joined>, rows: seq<FusedRec>)
    requires t == OuterJoin(svd, content) && rows == FuseRows(t, alpha)
    ensures forall m :: 0 <= m < |rows| ==> WellFused(rows[m], svd, content, alpha)
  {
    forall m | 0 <= m < |rows|
      ensures WellFused(rows[m], svd, content, alpha)
    {
      assert JoinedIds(t)[m] == rows[m].animeId;
      if 0.0 <= alpha <= 1.0 {
        BlendBounds(alpha, rows[m].predictedRating, rows[m].contentScore);
      }
    }
  }

  /** With alpha = 1 a fused row's final score is its normalised predicted
      rating, so final scores order the rows as the raw predictions do. */
  lemma PredictionDecides(svd: seq<Svd.Recommendation>, t: seq<Joined>, rows: seq<FusedRec>, a: nat, b: nat)
    requires forall k :: 0 <= k < |t| ==> t[k].predictedRating == PredictedOf(svd, t[k].animeId)
    requires rows == FuseRows(t, 1.0)
    requires a < |rows| && b < |rows|
    requires rows[b].finalScore <= rows[a].finalScore
    ensures PredictedOf(svd, rows[b].animeId) <= PredictedOf(svd, rows[a].animeId)
  {
    var xs := PredictedColumn(t);
    var ps := Normalise(xs);
    assert rows[a].finalScore == ps[a];
    assert rows[b].finalScore == ps[b];
    assert xs[b] <= xs[a];
  }

  /** With alpha = 0 a fused row's final score is its normalised content
      score, so final scores order the rows as the raw content scores do. */
  lemma ContentDecides(content: seq<ContentRec>, t: seq<Joined>, rows: seq<FusedRec>, a: nat, b: nat)
    requires forall k :: 0 <= k < |t| ==> t[k].contentScore == ContentOf(content, t[k].animeId)
    requires rows == FuseRows(t, 0.0)
    requires a < |rows| && b < |rows|
    requires rows[b].finalScore <= rows[a].finalScore
    ensures ContentOf(content, rows[b].animeId) <= ContentOf(content, rows[a].animeId)
  {
    var xs := ContentColumn(t);
    var cs := Normalise(xs);
    assert rows[a].finalScore == cs[a];
    assert rows[b].finalScore == cs[b];
    assert xs[b] <= xs[a];
  }

  /** Two rows of a fused ranking, located in the table they were taken from,
      in final-score order. */
  lemma RankedPair(rows: seq<FusedRec>, r: seq<FusedRec>, i: nat, j: nat) returns (a: nat, b: nat)
    requires forall k :: 0 <= k < |r| ==> r[k] in rows
    requires forall i, j :: 0 <= i < j < |r| ==> AtLeast(ByFinalThenId(r[i]), ByFinalThenId(r[j]))
    requires i < j < |r|
    ensures a < |rows| && b < |rows|
    ensures rows[a] == r[i] && rows[b] == r[j]
    ensures rows[b].finalScore <= rows[a].finalScore
  {
    assert AtLeast(ByFinalThenId(r[i]), ByFinalThenId(r[j]));
    assert r[i] in rows && r[j] in rows;
    a :| a < |rows| && rows[a] == r[i];
    b :| b < |rows| && rows[b] == r[j];
  }

  /** With alpha = 1 the content signal is ignored: the fused rows come out in
      descending order of their raw predicted rating. */
  lemma AlphaOneRanksByPrediction(svd: seq<Svd.Recommendation>, content: seq<ContentRec>, topN: int)
    requires |content| > 0
    ensures var r := Fuse(svd, content, 1.0, topN).fused;
            forall i, j :: 0 <= i < j < |r| ==> PredictedOf(svd, r[i].animeId) >= PredictedOf(svd, r[j].animeId)
  {
    var t := OuterJoin(svd, content);
    PredictionOrders(svd, t, FuseRows(t, 1.0), Fuse(svd, content, 1.0, topN).fused);
  }

  lemma PredictionOrders(svd: seq<Svd.Recommendation>, t: seq<Joined>, rows: seq<FusedRec>, r: seq<FusedRec>)
    requires forall k :: 0 <= k < |t| ==> t[k].predictedRating == PredictedOf(svd, t[k].animeId)
    requires rows == FuseRows(t, 1.0)
    requires forall k :: 0 <= k < |r| ==> r[k] in rows
    requires forall i, j :: 0 <= i < j < |r| ==> AtLeast(ByFinalThenId(r[i]), ByFinalThenId(r[j]))
    ensures forall i, j :: 0 <= i < j < |r| ==> PredictedOf(svd, r[i].animeId) >= PredictedOf(svd, r[j].animeId)
  {
    forall i, j | 0 <= i < j < |r|
      ensures PredictedOf(svd, r[i].animeId) >= PredictedOf(svd, r[j].animeId)
    {
      var a, b := RankedPair(rows, r, i, j);
      PredictionDecides(svd, t, rows, a, b);
    }
  }

  /** With alpha = 0 the collaborative signal is ignored: the fused rows come
      out in descending order of their raw content score. */
  lemma AlphaZeroRanksByContent(svd: seq<Svd.Recommendation>, content: seq<ContentRec>, topN: int)
    requires |content| > 0
    ensures var r := Fuse(svd, content, 0.0, topN).fused;
            forall i, j :: 0 <= i < j < |r| ==> ContentOf(content, r[i].animeId) >= ContentOf(content, r[j].animeId)
  {
    var t := OuterJoin(svd, content);
    ContentOrders(content, t, FuseRows(t, 0.0), Fuse(svd, content, 0.0, topN).fused);
  }

  lemma ContentOrders(content: seq<ContentRec>, t: seq<Joined>, rows: seq<FusedRec>, r: seq<FusedRec>)
    requires forall k :: 0 <= k < |t| ==> t[k].contentScore == ContentOf(content, t[k].animeId)
    requires rows == FuseRows(t, 0.0)
    requires forall k :: 0 <= k < |r| ==> r[k] in rows
    requires forall i, j :: 0 <= i < j < |r| ==> AtLeast(ByFinalThenId(r[i]), ByFinalThenId(r[j]))
    ensures forall i, j :: 0 <= i < j < |r| ==> ContentOf(content, r[i].animeId) >= ContentOf(content, r[j].animeId)
  {
    forall i, j | 0 <= i < j < |r|
      ensures ContentOf(content, r[i].animeId) >= ContentOf(content, r[j].animeId)
    {
      var a, b := RankedPair(rows, r, i, j);
      ContentDecides(content, t, rows, a, b);
    }
  }

  /** What hybrid_recommend returns, given the collaborative ranking svd and
      the content ranking content it fuses: the collaborative ranking alone
      exactly when the content ranking is empty (so whenever no seed names a
      catalog row), otherwise the fused top_n, with one row per anime when
      catalog ids are unique, and a fused result whenever top_n > 0, a seed
      matched and some non-seed row is left to rank. */
  predicate FusedFromRankings(r: HybridResult, catalog: seq<Anime>, seeds: seq<string>, svd: seq<Svd.Recommendation>,
                              content: seq<ContentRec>, alpha: real, topN: int) {
    && ((forall i :: 0 <= i < |catalog| ==> catalog[i].name !in seeds) ==> r == CollaborativeOnly(svd))
    && (r.CollaborativeOnly? <==> |content| == 0)
    && (r.CollaborativeOnly? ==> r.recs == svd)
    && (r.CollaborativeOnly? && 0 <= topN ==> |r.recs| <= topN)
    && (r.Fused? && 0 <= topN ==> |r.fused| <= topN)
    && (r.Fused? && 0.0 <= alpha <= 1.0 ==> forall k :: 0 <= k < |r.fused| ==> 0.0 <= r.fused[k].finalScore <= 1.0)
    && (r.Fused? ==> TopOfFused(r.fused, FuseRows(OuterJoin(svd, content), alpha), topN))
    && (0 < topN && (exists i :: 0 <= i < |catalog| && catalog[i].name in seeds && NonSeedCount(catalog, seeds) > 0)
        ==> r.Fused?)
    && (r.Fused? && UniqueIds(catalog) ==> DistinctFusedIds(r.fused))
  }

  /** The fusion step meets FusedFromRankings, given the facts
      hybrid_recommend relies on about the two rankings. */
  lemma FusionOfRankings(catalog: seq<Anime>, seeds: seq<string>, svd: seq<Svd.Recommendation>,
                         content: seq<ContentRec>, alpha: real, topN: int)
    requires 0 <= topN ==> |svd| <= topN
    requires UniqueIds(catalog) ==> Svd.DistinctAnime(svd) && Distinct(ContentIds(content))
    requires (forall i :: 0 <= i < |catalog| ==> catalog[i].name !in seeds) ==> content == []
    requires |SeedRows(catalog, seeds)| > 0 && 0 <= topN ==>
               |content| == if topN < NonSeedCount(catalog, seeds) then topN else NonSeedCount(catalog, seeds)
    ensures FusedFromRankings(Fuse(svd, content, alpha, topN), catalog, seeds, svd, content, alpha, topN)
  {
    if UniqueIds(catalog) {
      assert Distinct(SvdIds(svd));
    }
  }

  /** hybrid_recommend: the collaborative ranking of the whole catalog and the
      content ranking of the seeds, each cut to top_n, then fused. The model
      stands for the SVD trained on the rating table. */
  function HybridRecommend(userId: int, seeds: seq<string>, catalog: seq<Anime>, sim: seq<seq<real>>,
                           model: Svd.Model, topN: int, alpha: real): (r: HybridResult)
    requires IsSimilarity(sim, |catalog|)
    ensures FusedFromRankings(r, catalog, seeds, Svd.GetSvdRecommendations(model, userId, catalog, topN),
                              ContentRecommendations(catalog, sim, seeds, topN), alpha, topN)
    ensures r.Fused? && UniqueIds(catalog) ==> DistinctFusedIds(r.fused)
  {
    var svd := Svd.GetSvdRecommendations(model, userId, catalog, topN);
    var content := ContentRecommendations(catalog, sim, seeds, topN);
    FusionOfRankings(catalog, seeds, svd, content, alpha, topN);
    Fuse(svd, content, alpha, topN)
  }
}
