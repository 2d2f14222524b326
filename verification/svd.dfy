/** The collaborative recommender: the SVDRecSys class and the two ranking
    functions around a trained SVD. Training, prediction and the model file are
    outside the model; a trained model is represented by its prediction
    function. */
module Svd {
  import opened Tables
  import opened Ranking

  /** A trained or loaded SVD: its estimate of a user's rating of an anime. */
  datatype Model = Model(predict: (int, int) -> real)

  /** The state of an SVDRecSys object. */
  datatype RecSys = RecSys(
    catalog: seq<Anime>,
    ratings: seq<Rating>,
    model: Option<Model>,
    trainset: Option<seq<Rating>>)

  /** A ranked row: the anime, its predicted rating and its catalog fields. */
  datatype Recommendation = Recommendation(animeId: int, predictedRating: real, name: string, genre: string)

  /** One (anime_id, estimate) pair of the prediction list. */
  datatype Prediction = Prediction(animeId: int, estimate: real)

  /** A fresh object holds the two tables and no model. */
  function NewRecSys(catalog: seq<Anime>, ratings: seq<Rating>): RecSys {
    RecSys(catalog, ratings, None, None)
  }

  /** prepare_data: keep the rows that carry a rating, dropping the -1 rows. */
  function PrepareData(ratings: seq<Rating>): (kept: seq<Rating>)
    ensures Subseq(kept, ratings)
    ensures forall x :: x in kept <==> x in ratings && x.rating != -1.0
    ensures forall x :: multiset(kept)[x] == if x.rating != -1.0 then multiset(ratings)[x] else 0
  {
    if |ratings| == 0 then []
    else
      assert ratings == [ratings[0]] + ratings[1..];
      if ratings[0].rating == -1.0 then PrepareData(ratings[1..])
      else [ratings[0]] + PrepareData(ratings[1..])
  }

  /** train_model: prepare the training rows if there are none yet, then fit a
      model on them with the supplied trainer. */
  function TrainModel(sys: RecSys, fit: seq<Rating> -> Model): (r: RecSys)
    ensures r.model.Some? && r.trainset.Some?
    ensures r.catalog == sys.catalog && r.ratings == sys.ratings
    ensures sys.trainset.Some? ==> r.trainset == sys.trainset
    ensures sys.trainset.None? ==> r.trainset == Some(PrepareData(sys.ratings))
  {
    var trainset := if sys.trainset.Some? then sys.trainset.value else PrepareData(sys.ratings);
    sys.(model := Some(fit(trainset)), trainset := Some(trainset))
  }

  /** save_model: fails without a model; writing the file is not modelled. */
  function SaveModel(sys: RecSys): (r: Outcome)
    ensures r.Pass? <==> sys.model.Some?
    ensures sys.model.None? ==> r == Fail("No model to save. Train the model first.")
  {
    if sys.model.None? then Fail("No model to save. Train the model first.") else Pass
  }

  /** load_model: stored is the content of the model file, None when the file
      does not exist. A loaded model also re-prepares the training rows. */
  function LoadModel(sys: RecSys, filepath: string, stored: Option<Model>): (r: Result<RecSys>)
    ensures stored.None? <==> r.Err?
    ensures stored.None? ==> r == Err("Model file not found at " + filepath)
    ensures r.Ok? ==> r.value.model.Some? && r.value.trainset == Some(PrepareData(sys.ratings))
    ensures r.Ok? ==> r.value.catalog == sys.catalog && r.value.ratings == sys.ratings
  {
    if stored.None? then Err("Model file not found at " + filepath)
    else Ok(sys.(model := stored, trainset := Some(PrepareData(sys.ratings))))
  }

  function AnimeIds(ratings: seq<Rating>): (ids: seq<int>)
    ensures forall a :: a in ids <==> exists x :: x in ratings && x.animeId == a
  {
    if |ratings| == 0 then [] else [ratings[0].animeId] + AnimeIds(ratings[1..])
  }

  /** The user has a row (of any rating, -1 included) for the anime. */
  predicate RatedBy(ratings: seq<Rating>, userId: int, animeId: int) {
    exists x :: x in ratings && x.userId == userId && x.animeId == animeId
  }

  function UserRated(ratings: seq<Rating>, userId: int): (ids: seq<int>)
    ensures forall a :: a in ids <==> RatedBy(ratings, userId, a)
  {
    if |ratings| == 0 then []
    else if ratings[0].userId == userId then [ratings[0].animeId] + UserRated(ratings[1..], userId)
    else UserRated(ratings[1..], userId)
  }

  /** The ids not in rated, in their order. */
  function Without(ids: seq<int>, rated: seq<int>): (r: seq<int>)
    ensures Subseq(r, ids)
    ensures forall a :: a in r <==> a in ids && a !in rated
    ensures Distinct(ids) ==> Distinct(r)
  {
    if |ids| == 0 then []
    else if ids[0] in rated then Without(ids[1..], rated)
    else [ids[0]] + Without(ids[1..], rated)
  }

  /** The anime the user may be recommended: distinct ids of the rating table
      the user has no row for, in order of first appearance. */
  function Candidates(ratings: seq<Rating>, userId: int): (c: seq<int>)
    ensures Distinct(c)
    ensures forall a :: a in c <==> (exists x :: x in ratings && x.animeId == a) && !RatedBy(ratings, userId, a)
  {
    Without(Unique(AnimeIds(ratings)), UserRated(ratings, userId))
  }

  function PredictAll(model: Model, userId: int, ids: seq<int>): (preds: seq<Prediction>)
    ensures |preds| == |ids|
    ensures forall i :: 0 <= i < |ids| ==> preds[i] == Prediction(ids[i], model.predict(userId, ids[i]))
  {
    seq(|ids|, i requires 0 <= i < |ids| => Prediction(ids[i], model.predict(userId, ids[i])))
  }

  /** The key of list.sort(key=lambda x: x[1], reverse=True): estimate only. */
  function ByEstimate(p: Prediction): Key {
    Key(p.estimate, 0)
  }

  /** The top predictions for the candidates, highest first; equal estimates
      keep the candidates' order because Python's sort is stable. */
  function RankPredictions(model: Model, userId: int, candidates: seq<int>, topN: int): (r: seq<Prediction>)
    requires Distinct(candidates)
    ensures 0 <= topN ==> |r| <= topN
    ensures 0 <= topN <= |candidates| ==> |r| == topN
    ensures 0 <= topN && |candidates| <= topN ==> |r| == |candidates|
    ensures topN < 0 ==> |r| == if |candidates| + topN < 0 then 0 else |candidates| + topN
    ensures forall k :: 0 <= k < |r| ==> r[k].animeId in candidates
                                         && r[k].estimate == model.predict(userId, r[k].animeId)
    ensures forall i, j :: 0 <= i < j < |r| ==> r[i].estimate >= r[j].estimate
    ensures forall i, j :: 0 <= i < j < |r| && r[i].estimate == r[j].estimate
                           ==> IndexOf(candidates, r[i].animeId) < IndexOf(candidates, r[j].animeId)
    ensures DistinctPredicted(r)
    ensures forall c :: c in candidates && LeftOut(r, c)
                        ==> forall k :: 0 <= k < |r| ==> model.predict(userId, c) <= r[k].estimate
  {
    var preds := PredictAll(model, userId, candidates);
    DistinctPredictions(model, userId, candidates);
    var r := TopBy(preds, ByEstimate, topN);
    RankedPredictionOrder(model, userId, candidates, preds, r);
    RankedPredictionsKeepBest(model, userId, candidates, preds, topN, r);
    r
  }

  /** No two predictions of the list are for the same anime. */
  predicate DistinctPredicted(r: seq<Prediction>) {
    forall i, j :: 0 <= i < j < |r| ==> r[i].animeId != r[j].animeId
  }

  /** No prediction of the list is for the anime c. */
  predicate LeftOut(r: seq<Prediction>, c: int) {
    forall k :: 0 <= k < |r| ==> r[k].animeId != c
  }

  /** A candidate left out of the top predictions is estimated no higher than
      any prediction kept. */
  lemma RankedPredictionsKeepBest(model: Model, userId: int, candidates: seq<int>, preds: seq<Prediction>,
                                  topN: int, r: seq<Prediction>)
    requires preds == PredictAll(model, userId, candidates) && r == TopBy(preds, ByEstimate, topN)
    ensures forall c :: c in candidates && LeftOut(r, c)
                        ==> forall k :: 0 <= k < |r| ==> model.predict(userId, c) <= r[k].estimate
  {
    forall c | c in candidates && LeftOut(r, c)
      ensures forall k :: 0 <= k < |r| ==> model.predict(userId, c) <= r[k].estimate
    {
      var i :| 0 <= i < |candidates| && candidates[i] == c;
      assert preds[i].animeId == c;
      assert preds[i] !in r;
      assert forall k :: 0 <= k < |r| ==> AtLeast(ByEstimate(r[k]), ByEstimate(preds[i]));
    }
  }

  lemma DistinctPredictions(model: Model, userId: int, candidates: seq<int>)
    requires Distinct(candidates)
    ensures Distinct(PredictAll(model, userId, candidates))
  {
    var preds := PredictAll(model, userId, candidates);
    forall i, j | 0 <= i < j < |preds|
      ensures preds[i] != preds[j]
    {
      assert preds[i].animeId == candidates[i] && preds[j].animeId == candidates[j];
    }
  }

  lemma RankedPredictionOrder(model: Model, userId: int, candidates: seq<int>, preds: seq<Prediction>, r: seq<Prediction>)
    requires Distinct(candidates) && preds == PredictAll(model, userId, candidates) && Distinct(preds)
    requires forall k :: 0 <= k < |r| ==> r[k] in preds
    requires forall i, j :: 0 <= i < j < |r| ==> AtLeast(ByEstimate(r[i]), ByEstimate(r[j]))
    requires forall i, j :: 0 <= i < j < |r| && ByEstimate(r[i]) == ByEstimate(r[j])
                            ==> IndexOf(preds, r[i]) < IndexOf(preds, r[j])
    ensures forall k :: 0 <= k < |r| ==> r[k].animeId in candidates
                                         && r[k].estimate == model.predict(userId, r[k].animeId)
    ensures forall i, j :: 0 <= i < j < |r| ==> r[i].estimate >= r[j].estimate
    ensures forall i, j :: 0 <= i < j < |r| && r[i].estimate == r[j].estimate
                           ==> IndexOf(candidates, r[i].animeId) < IndexOf(candidates, r[j].animeId)
    ensures DistinctPredicted(r)
  {
    forall k | 0 <= k < |r|
      ensures r[k].animeId in candidates && r[k].estimate == model.predict(userId, r[k].animeId)
    {
      PredictionIndex(preds, candidates, model, userId, r[k]);
    }
    forall i, j | 0 <= i < j < |r|
      ensures r[i].estimate >= r[j].estimate
      ensures r[i].estimate == r[j].estimate
              ==> IndexOf(candidates, r[i].animeId) < IndexOf(candidates, r[j].animeId)
      ensures r[i].animeId != r[j].animeId
    {
      assert AtLeast(ByEstimate(r[i]), ByEstimate(r[j]));
      PredictionIndex(preds, candidates, model, userId, r[i]);
      PredictionIndex(preds, candidates, model, userId, r[j]);
    }
  }

  lemma PredictionIndex(preds: seq<Prediction>, candidates: seq<int>, model: Model, userId: int, p: Prediction)
    requires Distinct(candidates) && Distinct(preds)
    requires |preds| == |candidates|
    requires forall i :: 0 <= i < |candidates| ==> preds[i] == Prediction(candidates[i], model.predict(userId, candidates[i]))
    requires p in preds
    ensures p.animeId in candidates && IndexOf(preds, p) == IndexOf(candidates, p.animeId)
  {
    var i := IndexOf(preds, p);
    DistinctIndexOf(candidates, i);
  }

  /** rows are the catalog rows with the given id: drawn from the catalog,
      complete, empty when no row has the id, and at most one row when the
      catalog's ids are unique. */
  predicate IdRows(rows: seq<Anime>, catalog: seq<Anime>, id: int) {
    && (forall k :: 0 <= k < |rows| ==> rows[k] in catalog && rows[k].id == id)
    && (forall a :: a in catalog && a.id == id ==> a in rows)
    && ((forall a :: a in catalog ==> a.id != id) ==> rows == [])
    && (UniqueIds(catalog) ==> |rows| <= 1)
  }

  /** The catalog rows with the given id. */
  function CatalogRows(catalog: seq<Anime>, id: int): (rows: seq<Anime>)
    ensures IdRows(rows, catalog, id)
  {
    if |catalog| == 0 then []
    else
      var rest := CatalogRows(catalog[1..], id);
      if catalog[0].id == id then
        IdRowsTake(catalog, id, rest);
        [catalog[0]] + rest
      else
        IdRowsSkip(catalog, id, rest);
        rest
  }

  lemma IdRowsSkip(catalog: seq<Anime>, id: int, rest: seq<Anime>)
    requires |catalog| > 0 && catalog[0].id != id && IdRows(rest, catalog[1..], id)
    ensures IdRows(rest, catalog, id)
  {
    assert forall a :: a in catalog ==> a == catalog[0] || a in catalog[1..];
    if UniqueIds(catalog) {
      assert UniqueIds(catalog[1..]) by {
        assert forall i :: 0 <= i < |catalog[1..]| ==> catalog[1..][i] == catalog[i + 1];
      }
    }
  }

  lemma IdRowsTake(catalog: seq<Anime>, id: int, rest: seq<Anime>)
    requires |catalog| > 0 && catalog[0].id == id && IdRows(rest, catalog[1..], id)
    ensures IdRows([catalog[0]] + rest, catalog, id)
  {
    var rows := [catalog[0]] + rest;
    assert forall a :: a in catalog ==> a == catalog[0] || a in catalog[1..];
    assert forall k :: 0 < k < |rows| ==> rows[k] == rest[k - 1];
    if UniqueIds(catalog) {
      forall a | a in catalog[1..]
        ensures a.id != id
      {
        var k :| 0 <= k < |catalog[1..]| && catalog[1..][k] == a;
        assert catalog[k + 1] == a;
      }
    }
  }

  function Attach(p: Prediction, rows: seq<Anime>): (r: seq<Recommendation>)
    ensures |r| == |rows|
    ensures forall k :: 0 <= k < |rows| ==> r[k] == Recommendation(p.animeId, p.estimate, rows[k].name, rows[k].genre)
  {
    seq(|rows|, k requires 0 <= k < |rows| => Recommendation(p.animeId, p.estimate, rows[k].name, rows[k].genre))
  }

  /** The inner merge of the prediction list with the catalog on anime_id, in
      prediction order: every row pairs a prediction with a catalog row. */
  function JoinCatalog(preds: seq<Prediction>, catalog: seq<Anime>): (r: seq<Recommendation>)
    ensures forall k :: 0 <= k < |r| ==> Prediction(r[k].animeId, r[k].predictedRating) in preds
                                         && Anime(r[k].animeId, r[k].name, r[k].genre) in catalog
  {
    if |preds| == 0 then []
    else
      var head := Attach(preds[0], CatalogRows(catalog, preds[0].animeId));
      var rest := JoinCatalog(preds[1..], catalog);
      assert forall k :: 0 <= k < |head| ==> Prediction(head[k].animeId, head[k].predictedRating) == preds[0];
      assert forall k :: 0 <= k < |rest| ==> Prediction(rest[k].animeId, rest[k].predictedRating) in preds[1..];
      head + rest
  }

  /** No two rows of the list are for the same anime. */
  predicate DistinctAnime(r: seq<Recommendation>) {
    forall i, j :: 0 <= i < j < |r| ==> r[i].animeId != r[j].animeId
  }

  /** Predictions for pairwise different anime, merged with a catalog whose
      ids are unique, give at most one row per anime. */
  lemma {:induction false} JoinDistinct(preds: seq<Prediction>, catalog: seq<Anime>)
    requires DistinctPredicted(preds)
    ensures UniqueIds(catalog) ==> DistinctAnime(JoinCatalog(preds, catalog))
  {
    if |preds| > 0 && UniqueIds(catalog) {
      var head := Attach(preds[0], CatalogRows(catalog, preds[0].animeId));
      var rest := JoinCatalog(preds[1..], catalog);
      assert DistinctPredicted(preds[1..]) by {
        forall i, j | 0 <= i < j < |preds[1..]|
          ensures preds[1..][i].animeId != preds[1..][j].animeId
        {
          assert preds[1..][i] == preds[i + 1] && preds[1..][j] == preds[j + 1];
        }
      }
      JoinDistinct(preds[1..], catalog);
      assert JoinCatalog(preds, catalog) == head + rest;
      assert |head| <= 1;
      forall k | 0 <= k < |rest|
        ensures rest[k].animeId != preds[0].animeId
      {
        var m :| 0 <= m < |preds[1..]| && preds[1..][m] == Prediction(rest[k].animeId, rest[k].predictedRating);
        assert preds[m + 1].animeId == rest[k].animeId;
      }
    }
  }

  /** Distinct rows drawn from a list with one row per anime are for
      different anime. */
  lemma DistinctRowsDistinctAnime(all: seq<Recommendation>, r: seq<Recommendation>)
    requires DistinctAnime(all) && Distinct(r)
    requires forall k :: 0 <= k < |r| ==> r[k] in all
    ensures DistinctAnime(r)
  {
    forall i, j | 0 <= i < j < |r|
      ensures r[i].animeId != r[j].animeId
    {
      var p :| 0 <= p < |all| && all[p] == r[i];
      var q :| 0 <= q < |all| && all[q] == r[j];
      assert p != q;
    }
  }

  /** The merge keeps every matching pair. */
  lemma {:induction false} JoinComplete(preds: seq<Prediction>, catalog: seq<Anime>, p: Prediction, a: Anime)
    requires p in preds && a in catalog && a.id == p.animeId
    ensures Recommendation(p.animeId, p.estimate, a.name, a.genre) in JoinCatalog(preds, catalog)
  {
    var rows := CatalogRows(catalog, preds[0].animeId);
    var head := Attach(preds[0], rows);
    var rest := JoinCatalog(preds[1..], catalog);
    assert JoinCatalog(preds, catalog) == head + rest;
    if p == preds[0] {
      var k :| 0 <= k < |rows| && rows[k] == a;
      assert head[k] == Recommendation(p.animeId, p.estimate, a.name, a.genre);
    } else {
      assert p in preds[1..];
      JoinComplete(preds[1..], catalog, p, a);
    }
  }

  /** With unique catalog ids the merge can only drop predictions, never add
      rows. */
  lemma {:induction false} JoinNoLarger(preds: seq<Prediction>, catalog: seq<Anime>)
    ensures UniqueIds(catalog) ==> |JoinCatalog(preds, catalog)| <= |preds|
  {
    if |preds| > 0 {
      JoinNoLarger(preds[1..], catalog);
    }
  }

  predicate DescendingRatings(r: seq<Recommendation>) {
    forall i, j :: 0 <= i < j < |r| ==> r[i].predictedRating >= r[j].predictedRating
  }

  lemma ConcatDescending(head: seq<Recommendation>, rest: seq<Recommendation>, v: real)
    requires forall k :: 0 <= k < |head| ==> head[k].predictedRating == v
    requires forall k :: 0 <= k < |rest| ==> rest[k].predictedRating <= v
    requires DescendingRatings(rest)
    ensures DescendingRatings(head + rest)
  {
    var r := head + rest;
    forall i, j | 0 <= i < j < |r|
      ensures r[i].predictedRating >= r[j].predictedRating
    {
      if j >= |head| {
        assert r[j] == rest[j - |head|];
        if i >= |head| {
          assert r[i] == rest[i - |head|];
        }
      }
    }
  }

  /** Merging predictions listed by descending estimate gives rows listed by
      descending predicted rating. */
  lemma {:induction false} JoinKeepsOrder(preds: seq<Prediction>, catalog: seq<Anime>)
    requires forall i, j :: 0 <= i < j < |preds| ==> preds[i].estimate >= preds[j].estimate
    ensures DescendingRatings(JoinCatalog(preds, catalog))
  {
    if |preds| > 0 {
      var head := Attach(preds[0], CatalogRows(catalog, preds[0].animeId));
      var rest := JoinCatalog(preds[1..], catalog);
      JoinKeepsOrder(preds[1..], catalog);
      forall k | 0 <= k < |rest|
        ensures rest[k].predictedRating <= preds[0].estimate
      {
        var p := Prediction(rest[k].animeId, rest[k].predictedRating);
        var m :| 0 <= m < |preds[1..]| && preds[1..][m] == p;
        assert preds[m + 1] == p;
      }
      ConcatDescending(head, rest, preds[0].estimate);
    }
  }

  /** Every row is for an anime listed in c. */
  predicate RowsIn(r: seq<Recommendation>, c: seq<int>) {
    forall k :: 0 <= k < |r| ==> r[k].animeId in c
  }

  /** Rows with equal ratings for different anime follow the order of their
      ids in c. */
  predicate TiesFollow(r: seq<Recommendation>, c: seq<int>)
    requires RowsIn(r, c)
  {
    forall i, j :: 0 <= i < j < |r| && r[i].predictedRating == r[j].predictedRating && r[i].animeId != r[j].animeId
                   ==> IndexOf(c, r[i].animeId) < IndexOf(c, r[j].animeId)
  }

  /** Predictions with equal estimates follow the order of their ids in c. */
  predicate PredTiesFollow(preds: seq<Prediction>, c: seq<int>)
    requires forall k :: 0 <= k < |preds| ==> preds[k].animeId in c
  {
    forall i, j :: 0 <= i < j < |preds| && preds[i].estimate == preds[j].estimate
                   ==> IndexOf(c, preds[i].animeId) < IndexOf(c, preds[j].animeId)
  }

  /** Rows for one prediction placed before rows whose ties it precedes keep
      ties in order. */
  lemma ConcatTies(head: seq<Recommendation>, rest: seq<Recommendation>, p: Prediction, c: seq<int>)
    requires p.animeId in c && RowsIn(rest, c) && TiesFollow(rest, c)
    requires forall k :: 0 <= k < |head| ==> head[k].animeId == p.animeId && head[k].predictedRating == p.estimate
    requires forall k :: 0 <= k < |rest| && rest[k].predictedRating == p.estimate && rest[k].animeId != p.animeId
                         ==> IndexOf(c, p.animeId) < IndexOf(c, rest[k].animeId)
    ensures RowsIn(head + rest, c) && TiesFollow(head + rest, c)
  {
    var r := head + rest;
    assert forall k :: 0 <= k < |r| ==> r[k] == if k < |head| then head[k] else rest[k - |head|];
  }

  /** The merge keeps the predictions' relative order: when predictions with
      equal estimates are listed in the order of their ids in c, so are the
      merged rows with equal ratings. */
  lemma {:induction false} JoinKeepsTies(preds: seq<Prediction>, catalog: seq<Anime>, c: seq<int>)
    requires forall k :: 0 <= k < |preds| ==> preds[k].animeId in c
    requires PredTiesFollow(preds, c)
    ensures RowsIn(JoinCatalog(preds, catalog), c) && TiesFollow(JoinCatalog(preds, catalog), c)
  {
    if |preds| > 0 {
      var tail := preds[1..];
      var head := Attach(preds[0], CatalogRows(catalog, preds[0].animeId));
      var rest := JoinCatalog(tail, catalog);
      assert JoinCatalog(preds, catalog) == head + rest;
      assert PredTiesFollow(tail, c) by {
        forall i, j | 0 <= i < j < |tail| && tail[i].estimate == tail[j].estimate
          ensures IndexOf(c, tail[i].animeId) < IndexOf(c, tail[j].animeId)
        {
          assert tail[i] == preds[i + 1] && tail[j] == preds[j + 1];
        }
      }
      JoinKeepsTies(tail, catalog, c);
      forall k | 0 <= k < |rest| && rest[k].predictedRating == preds[0].estimate && rest[k].animeId != preds[0].animeId
        ensures IndexOf(c, preds[0].animeId) < IndexOf(c, rest[k].animeId)
      {
        var m :| 0 <= m < |tail| && tail[m] == Prediction(rest[k].animeId, rest[k].predictedRating);
        assert preds[m + 1] == tail[m];
      }
      ConcatTies(head, rest, preds[0], c);
    }
  }

  /** get_user_recommendations: fails without a model; otherwise predicts every
      candidate, keeps the top_n estimates and merges them with the catalog. */
  function GetUserRecommendations(sys: RecSys, userId: int, topN: int): (r: Result<seq<Recommendation>>)
    ensures sys.model.None? <==> r.Err?
    ensures sys.model.None? ==> r == Err("Model not trained. Call train_model() first.")
    ensures r.Ok? ==> sys.model.Some? && RanksForUser(r.value, sys.model.value, sys, userId, topN)
  {
    if sys.model.None? then Err("Model not trained. Call train_model() first.")
    else Ok(UserRanking(sys.model.value, sys, userId, topN))
  }

  /** What get_user_recommendations returns once a model exists: the catalog
      rows of the top predictions, as RowsOfTop and CoversTop state. */
  predicate RanksForUser(recs: seq<Recommendation>, model: Model, sys: RecSys, userId: int, topN: int) {
    RowsOfTop(recs, model, sys, userId, topN) && CoversTop(recs, model, sys, userId, topN)
  }

  /** Every row is a catalog row of a top prediction, rows come in descending
      rating order, and equal ratings keep the candidates' order. */
  predicate RowsOfTop(recs: seq<Recommendation>, model: Model, sys: RecSys, userId: int, topN: int) {
    && (forall k :: 0 <= k < |recs| ==>
          && Anime(recs[k].animeId, recs[k].name, recs[k].genre) in sys.catalog
          && recs[k].predictedRating == model.predict(userId, recs[k].animeId)
          && recs[k].animeId in Candidates(sys.ratings, userId))
    && (forall k :: 0 <= k < |recs| ==>
          Prediction(recs[k].animeId, recs[k].predictedRating) in RankPredictions(model, userId, Candidates(sys.ratings, userId), topN))
    && DescendingRatings(recs)
    && TiesFollow(recs, Candidates(sys.ratings, userId))
  }

  /** No more than top_n rows and no anime twice when ids are unique; every
      top prediction with a catalog row is there, and a candidate whose row
      is missing is estimated no higher than any row present. */
  predicate CoversTop(recs: seq<Recommendation>, model: Model, sys: RecSys, userId: int, topN: int) {
    && (UniqueIds(sys.catalog) && 0 <= topN ==> |recs| <= topN)
    && (UniqueIds(sys.catalog) ==> DistinctAnime(recs))
    && (forall p, a :: p in RankPredictions(model, userId, Candidates(sys.ratings, userId), topN)
                       && a in sys.catalog && a.id == p.animeId
                       ==> Recommendation(p.animeId, p.estimate, a.name, a.genre) in recs)
    && (forall c, a :: c in Candidates(sys.ratings, userId) && a in sys.catalog && a.id == c
                       && Recommendation(c, model.predict(userId, c), a.name, a.genre) !in recs
                       ==> forall k :: 0 <= k < |recs| ==> model.predict(userId, c) <= recs[k].predictedRating)
  }

  /** The recommendations of a trained model: predict every candidate, keep
      the top_n estimates and merge them with the catalog. */
  function UserRanking(model: Model, sys: RecSys, userId: int, topN: int): (recs: seq<Recommendation>)
    ensures RanksForUser(recs, model, sys, userId, topN)
  {
    var candidates := Candidates(sys.ratings, userId);
    var top := RankPredictions(model, userId, candidates, topN);
    var joined := JoinCatalog(top, sys.catalog);
    UserRowsOfTop(model, sys, userId, topN, candidates, top, joined);
    UserCoversTop(model, sys, userId, topN, candidates, top, joined);
    joined
  }

  /** The merged top predictions are catalog rows of top predictions, in
      order. */
  lemma UserRowsOfTop(model: Model, sys: RecSys, userId: int, topN: int,
                      candidates: seq<int>, top: seq<Prediction>, joined: seq<Recommendation>)
    requires candidates == Candidates(sys.ratings, userId)
    requires top == RankPredictions(model, userId, candidates, topN)
    requires joined == JoinCatalog(top, sys.catalog)
    ensures RowsOfTop(joined, model, sys, userId, topN)
  {
    JoinKeepsOrder(top, sys.catalog);
    JoinKeepsTies(top, sys.catalog, candidates);
    JoinedFromTop(model, userId, candidates, top, joined);
  }

  /** The merged top predictions cover the top and keep the best. */
  lemma UserCoversTop(model: Model, sys: RecSys, userId: int, topN: int,
                      candidates: seq<int>, top: seq<Prediction>, joined: seq<Recommendation>)
    requires candidates == Candidates(sys.ratings, userId)
    requires top == RankPredictions(model, userId, candidates, topN)
    requires joined == JoinCatalog(top, sys.catalog)
    ensures CoversTop(joined, model, sys, userId, topN)
  {
    JoinNoLarger(top, sys.catalog);
    JoinCompleteAll(top, sys.catalog);
    JoinDistinct(top, sys.catalog);
    UserKeepsBest(model, userId, candidates, sys.catalog, top, joined);
  }

  /** The merge keeps every matching pair, for all pairs at once. */
  lemma JoinCompleteAll(preds: seq<Prediction>, catalog: seq<Anime>)
    ensures forall p, a :: p in preds && a in catalog && a.id == p.animeId
                           ==> Recommendation(p.animeId, p.estimate, a.name, a.genre) in JoinCatalog(preds, catalog)
  {
    forall p, a | p in preds && a in catalog && a.id == p.animeId
      ensures Recommendation(p.animeId, p.estimate, a.name, a.genre) in JoinCatalog(preds, catalog)
    {
      JoinComplete(preds, catalog, p, a);
    }
  }

  /** A candidate with a catalog row that the recommendations lack is
      estimated no higher than any row recommended: it was not among the top
      predictions, since those with a catalog row are all merged. */
  lemma UserKeepsBest(model: Model, userId: int, candidates: seq<int>, catalog: seq<Anime>,
                      top: seq<Prediction>, joined: seq<Recommendation>)
    requires forall m :: 0 <= m < |top| ==> top[m].estimate == model.predict(userId, top[m].animeId)
    requires forall c :: c in candidates && LeftOut(top, c)
                         ==> forall k :: 0 <= k < |top| ==> model.predict(userId, c) <= top[k].estimate
    requires forall k :: 0 <= k < |joined| ==> Prediction(joined[k].animeId, joined[k].predictedRating) in top
    requires forall p, a :: p in top && a in catalog && a.id == p.animeId
                            ==> Recommendation(p.animeId, p.estimate, a.name, a.genre) in joined
    ensures forall c, a :: c in candidates && a in catalog && a.id == c
                           && Recommendation(c, model.predict(userId, c), a.name, a.genre) !in joined
                           ==> forall k :: 0 <= k < |joined| ==> model.predict(userId, c) <= joined[k].predictedRating
  {
    forall c, a | c in candidates && a in catalog && a.id == c
                  && Recommendation(c, model.predict(userId, c), a.name, a.genre) !in joined
      ensures forall k :: 0 <= k < |joined| ==> model.predict(userId, c) <= joined[k].predictedRating
    {
      NotJoinedLeftOut(top, catalog, joined, a, model.predict(userId, c));
      JoinedBelow(top, joined, model.predict(userId, c));
    }
  }

  /** A prediction for an anime with a catalog row is merged, so an anime
      whose merged row is missing has no prediction, given that every
      prediction for it carries the estimate est. */
  lemma NotJoinedLeftOut(top: seq<Prediction>, catalog: seq<Anime>, joined: seq<Recommendation>, a: Anime, est: real)
    requires a in catalog
    requires forall m :: 0 <= m < |top| && top[m].animeId == a.id ==> top[m].estimate == est
    requires forall p, b :: p in top && b in catalog && b.id == p.animeId
                            ==> Recommendation(p.animeId, p.estimate, b.name, b.genre) in joined
    requires Recommendation(a.id, est, a.name, a.genre) !in joined
    ensures LeftOut(top, a.id)
  {
    assert forall m :: 0 <= m < |top| ==> top[m] in top;
  }

  /** Merged rows carry estimates of the predictions, so a bound below every
      prediction bounds every merged row. */
  lemma JoinedBelow(top: seq<Prediction>, joined: seq<Recommendation>, v: real)
    requires forall m :: 0 <= m < |top| ==> v <= top[m].estimate
    requires forall k :: 0 <= k < |joined| ==> Prediction(joined[k].animeId, joined[k].predictedRating) in top
    ensures forall k :: 0 <= k < |joined| ==> v <= joined[k].predictedRating
  {
    forall k | 0 <= k < |joined|
      ensures v <= joined[k].predictedRating
    {
      var m :| 0 <= m < |top| && top[m] == Prediction(joined[k].animeId, joined[k].predictedRating);
    }
  }

  lemma JoinedFromTop(model: Model, userId: int, candidates: seq<int>, top: seq<Prediction>, joined: seq<Recommendation>)
    requires forall k :: 0 <= k < |top| ==>
               top[k].animeId in candidates && top[k].estimate == model.predict(userId, top[k].animeId)
    requires forall k :: 0 <= k < |joined| ==> Prediction(joined[k].animeId, joined[k].predictedRating) in top
    ensures forall k :: 0 <= k < |joined| ==> joined[k].animeId in candidates
                                              && joined[k].predictedRating == model.predict(userId, joined[k].animeId)
  {
    forall k | 0 <= k < |joined|
      ensures joined[k].animeId in candidates && joined[k].predictedRating == model.predict(userId, joined[k].animeId)
    {
      var m :| 0 <= m < |top| && top[m] == Prediction(joined[k].animeId, joined[k].predictedRating);
    }
  }

  /** No recommendation is an anime the user already has a row for, and every
      one is an anime somebody rated. */
  lemma UserRecommendationsUnrated(sys: RecSys, userId: int, topN: int)
    requires GetUserRecommendations(sys, userId, topN).Ok?
    ensures var recs := GetUserRecommendations(sys, userId, topN).value;
            forall k :: 0 <= k < |recs| ==>
              && !RatedBy(sys.ratings, userId, recs[k].animeId)
              && exists y :: y in sys.ratings && y.animeId == recs[k].animeId
  {
  }

  function CatalogIds(catalog: seq<Anime>): (ids: seq<int>)
    ensures |ids| == |catalog|
    ensures forall i :: 0 <= i < |catalog| ==> ids[i] == catalog[i].id
  {
    seq(|catalog|, i requires 0 <= i < |catalog| => catalog[i].id)
  }

  /** The key of sort_values('predicted_rating', ascending=False); equal
      ratings are ordered by ascending anime_id. */
  function ByRatingThenId(x: Recommendation): Key {
    Key(x.predictedRating, x.animeId)
  }

  /** The row a catalog entry becomes once it is scored. */
  function Scored(model: Model, userId: int, a: Anime): Recommendation {
    Recommendation(a.id, model.predict(userId, a.id), a.name, a.genre)
  }

  /** get_svd_recommendations: score every distinct catalog id (rated or not),
      merge with the catalog, and keep the top_n by predicted rating. */
  function GetSvdRecommendations(model: Model, userId: int, catalog: seq<Anime>, topN: int): (r: seq<Recommendation>)
    ensures 0 <= topN ==> |r| <= topN
    ensures 0 <= topN && UniqueIds(catalog) ==> |r| == if topN < |catalog| then topN else |catalog|
    ensures topN < 0 && UniqueIds(catalog) ==> |r| == if |catalog| + topN < 0 then 0 else |catalog| + topN
    ensures UniqueIds(catalog) ==> DistinctAnime(r)
    ensures forall k :: 0 <= k < |r| ==> Anime(r[k].animeId, r[k].name, r[k].genre) in catalog
                                         && r[k].predictedRating == model.predict(userId, r[k].animeId)
    ensures forall i, j :: 0 <= i < j < |r| ==> AtLeast(ByRatingThenId(r[i]), ByRatingThenId(r[j]))
    ensures forall a :: a in catalog && Scored(model, userId, a) !in r
                        ==> forall k :: 0 <= k < |r| ==> AtLeast(ByRatingThenId(r[k]), ByRatingThenId(Scored(model, userId, a)))
  {
    var ids := Unique(CatalogIds(catalog));
    var preds := PredictAll(model, userId, ids);
    var merged := JoinCatalog(preds, catalog);
    var r := TopBy(merged, ByRatingThenId, topN);
    SvdRowsScored(model, userId, catalog, ids, preds, merged, r);
    SvdKeepsBest(model, userId, catalog, ids, preds, merged, r);
    SvdMergedSize(model, userId, catalog, ids, preds, merged);
    SvdDistinct(model, userId, catalog, ids, preds, merged, topN, r);
    r
  }

  /** With unique catalog ids the merge has one row per anime, and so has
      its top. */
  lemma SvdDistinct(model: Model, userId: int, catalog: seq<Anime>, ids: seq<int>, preds: seq<Prediction>,
                    merged: seq<Recommendation>, topN: int, r: seq<Recommendation>)
    requires ids == Unique(CatalogIds(catalog)) && preds == PredictAll(model, userId, ids)
    requires merged == JoinCatalog(preds, catalog) && r == TopBy(merged, ByRatingThenId, topN)
    ensures UniqueIds(catalog) ==> DistinctAnime(r)
  {
    if UniqueIds(catalog) {
      assert DistinctPredicted(preds) by {
        forall i, j | 0 <= i < j < |preds|
          ensures preds[i].animeId != preds[j].animeId
        {
          assert preds[i].animeId == ids[i] && preds[j].animeId == ids[j];
        }
      }
      JoinDistinct(preds, catalog);
      assert Distinct(merged);
      DistinctRowsDistinctAnime(merged, r);
    }
  }

  /** With unique catalog ids every id is scored once and merged with its one
      catalog row, so the merge is as long as the catalog. */
  lemma SvdMergedSize(model: Model, userId: int, catalog: seq<Anime>, ids: seq<int>, preds: seq<Prediction>,
                      merged: seq<Recommendation>)
    requires ids == Unique(CatalogIds(catalog)) && preds == PredictAll(model, userId, ids)
    requires merged == JoinCatalog(preds, catalog)
    ensures UniqueIds(catalog) ==> |merged| == |catalog|
  {
    if UniqueIds(catalog) {
      SvdMergedSizeUnique(model, userId, catalog, ids, preds, merged);
    }
  }

  lemma SvdMergedSizeUnique(model: Model, userId: int, catalog: seq<Anime>, ids: seq<int>, preds: seq<Prediction>,
                            merged: seq<Recommendation>)
    requires UniqueIds(catalog)
    requires ids == Unique(CatalogIds(catalog)) && preds == PredictAll(model, userId, ids)
    requires merged == JoinCatalog(preds, catalog)
    ensures |merged| == |catalog|
  {
    var all := CatalogIds(catalog);
    assert Distinct(all) by {
      forall i, j | 0 <= i < j < |all| ensures all[i] != all[j] {
        assert catalog[i].id != catalog[j].id;
      }
    }
    UniqueOfDistinct(all);
    JoinExact(preds, catalog);
  }

  /** With unique catalog ids, a prediction for a catalog id joins exactly one
      row, so the merge keeps the prediction count. */
  lemma {:induction false} JoinExact(preds: seq<Prediction>, catalog: seq<Anime>)
    requires UniqueIds(catalog)
    requires forall k :: 0 <= k < |preds| ==> preds[k].animeId in CatalogIds(catalog)
    ensures |JoinCatalog(preds, catalog)| == |preds|
  {
    if |preds| > 0 {
      assert forall k :: 0 <= k < |preds[1..]| ==> preds[1..][k] == preds[k + 1];
      JoinExact(preds[1..], catalog);
      var rows := CatalogRows(catalog, preds[0].animeId);
      var all := CatalogIds(catalog);
      var i :| 0 <= i < |all| && all[i] == preds[0].animeId;
      assert catalog[i] in catalog;
      assert catalog[i] in rows;
    }
  }

  /** Every row kept is a catalog row with the model's estimate for it. */
  lemma SvdRowsScored(model: Model, userId: int, catalog: seq<Anime>, ids: seq<int>, preds: seq<Prediction>,
                      merged: seq<Recommendation>, r: seq<Recommendation>)
    requires preds == PredictAll(model, userId, ids)
    requires merged == JoinCatalog(preds, catalog)
    requires forall k :: 0 <= k < |r| ==> r[k] in merged
    ensures forall k :: 0 <= k < |r| ==> Anime(r[k].animeId, r[k].name, r[k].genre) in catalog
                                         && r[k].predictedRating == model.predict(userId, r[k].animeId)
  {
    forall k | 0 <= k < |r|
      ensures Anime(r[k].animeId, r[k].name, r[k].genre) in catalog
      ensures r[k].predictedRating == model.predict(userId, r[k].animeId)
    {
      var p := Prediction(r[k].animeId, r[k].predictedRating);
      assert p in preds;
      var m :| 0 <= m < |preds| && preds[m] == p;
    }
  }

  /** A scored catalog row left out ranks no higher than any row kept. */
  lemma SvdKeepsBest(model: Model, userId: int, catalog: seq<Anime>, ids: seq<int>, preds: seq<Prediction>,
                     merged: seq<Recommendation>, r: seq<Recommendation>)
    requires ids == Unique(CatalogIds(catalog)) && preds == PredictAll(model, userId, ids)
    requires merged == JoinCatalog(preds, catalog)
    requires forall i :: 0 <= i < |merged| && merged[i] !in r
                         ==> forall k :: 0 <= k < |r| ==> AtLeast(ByRatingThenId(r[k]), ByRatingThenId(merged[i]))
    ensures forall a :: a in catalog && Scored(model, userId, a) !in r
                        ==> forall k :: 0 <= k < |r| ==> AtLeast(ByRatingThenId(r[k]), ByRatingThenId(Scored(model, userId, a)))
  {
    forall a | a in catalog && Scored(model, userId, a) !in r
      ensures forall k :: 0 <= k < |r| ==> AtLeast(ByRatingThenId(r[k]), ByRatingThenId(Scored(model, userId, a)))
    {
      var i :| 0 <= i < |catalog| && catalog[i] == a;
      assert CatalogIds(catalog)[i] == a.id;
      assert a.id in ids;
      var m :| 0 <= m < |ids| && ids[m] == a.id;
      var p := preds[m];
      JoinComplete(preds, catalog, p, a);
      var x := Scored(model, userId, a);
      var n :| 0 <= n < |merged| && merged[n] == x;
    }
  }
}
