# KawaiiRecSys ranking core in Dafny

This project models the ranking logic of the KawaiiRecSys anime recommender. It
covers four pieces of the Python code:

- **Two-signal fusion** (`src/hybrid.py`).
  - Content ranking: find the seed titles by name, average each catalog row's
    similarity to the seeds, drop the seeds, sort, and keep `top_n`.
  - Fusion: outer-join the collaborative and content tables on `anime_id`,
    filling gaps with zero. Then min-max normalise both score columns, blend
    them with `alpha`, sort, and keep `top_n`. When there is no content
    signal, the collaborative table is returned unchanged.
- **The stand-alone hybrid** (`src/hybrid_recommender.py`).
  - Look up each title ignoring case, and report the first title that is
    missing.
  - Take a window of the title's most similar rows, and give each row a pair
    score `(1-alpha)*sim + alpha*pred/10`.
  - Average the pair scores per row in first-appearance order, sort, keep
    `top_n`, and attach a placeholder image URL.
- **Collaborative ranking** (`src/svd.py`).
  - The state of an `SVDRecSys`, with its untrained/trained guards.
  - Candidate selection: the ids that were rated by someone and not by the
    user.
  - The stable sort of predictions, the `top_n` cut, and the inner join with
    the catalog.
  - `get_svd_recommendations`, which scores the whole catalog.
- **Pure helpers** (`utils/helpers.py`): the keyword-priority genre colour
  classifier, and the required-column check of `load_and_merge_data`.

Modules and files:

| module | file | contents |
|---|---|---|
| `Ranking` | `ranking.dfy` | Sorting of positions by a strict total order, Python slice semantics, sums and means. |
| `Tables` | `tables.dfy` | The catalog and rating rows, `Result`/`Option`, subsequences, and `unique()`. |
| `Text` | `text.dfy` | ASCII `str.lower`, Python's `sub in s`, and `str.join`. |
| `Helpers` | `helpers.dfy` | `genre_to_color` and the column check. |
| `Svd` | `svd.dfy` | `SVDRecSys` and `get_svd_recommendations`. |
| `Hybrid` | `hybrid.dfy` | `get_content_based_recommendations` and `hybrid_recommend` of `src/hybrid.py`. |
| `LegacyHybrid` | `legacy.dfy` | `hybrid_recommend` of `src/hybrid_recommender.py`. |

The model makes the following modelling choices:

- **Similarity** is a parameter: an n×n matrix of reals over the catalog
  positions. In the source it is TF-IDF cosine similarity.
- **Prediction** is a parameter: `Svd.Model` wraps a function from
  (user, anime) to a real. Bounds lemmas assume similarities in [0, 1] and
  predictions in [0, 10].
- **Sorting** is always a sort of positions by a strict total order: higher
  score first, then the lower tie value, then the earlier position.
  - Python's stable `list.sort` and `sorted` use the same tie value for every
    row, so equal scores keep their input order.
  - pandas `sort_values` is not stable, so the model fixes ties by ascending
    `anime_id`.
  - `Ranking.RankIsUnique` shows that a ranking is determined by its keys.
- **Slices** follow Python's rules, including negative bounds.
- **Scores** are exact reals.

## Model

| member | source | states |
|---|---|---|
| Ranking.SortBy | KawaiiRecSys/src/svd.py:90 | The result has the input's length, and every element of each occurs in the other. Keys never increase along it. For inputs without repeats, elements with equal keys keep their input order, as a stable sort promises. |
| Ranking.SortByPermutes | KawaiiRecSys/src/svd.py:90 | Sorting is a permutation: the sorted list holds every element exactly as many times as the input does. |
| Ranking.RankIsUnique | KawaiiRecSys/src/svd.py:90 | Any permutation of the positions that is strictly sorted by (key, position) is the computed ranking, so the sort is deterministic. |
| Ranking.TopBy | KawaiiRecSys/src/hybrid.py:35 | The result has at most n rows, exactly min(n, len) for n >= 0 and max(len + n, 0) for n < 0 (pandas' head with a negative count), all drawn from the input, none twice unless the input repeats it. It is sorted, and stable among equal keys. Every input row left out ranks no higher than every row kept. |
| Ranking.TopByDetermined | KawaiiRecSys/src/hybrid.py:74 | When no two rows share a key, any list of min(n, len) distinct input rows that is sorted by key and leaves out only rows ranking no higher than every row kept is exactly the computed head. |
| Ranking.SliceFollowsPython | KawaiiRecSys/src/hybrid_recommender.py:61 | `s[lo:hi]` follows Python's rules: in-range bounds take that segment, a negative bound counts from the end, a bound below -len acts as 0 for the start and empties the slice as a stop, a stop past the end acts as len, and crossed bounds give the empty slice. |
| Ranking.Head | KawaiiRecSys/src/hybrid_recommender.py:93 | `s[:n]` is a prefix of s. It has min(n, len) elements for n >= 0 and max(len + n, 0) for n < 0. |
| Ranking.MeanBounds | KawaiiRecSys/src/hybrid.py:26 | The mean of values that all lie in [lo, hi] lies in [lo, hi]. |
| Tables.Unique | KawaiiRecSys/src/svd.py:75 | `unique()` has no repeats and holds exactly the values of its input. |
| Tables.UniqueKeepsFirstAppearanceOrder | KawaiiRecSys/src/svd.py:75 | `unique()` lists values in the order of their first appearance. |
| Text.ContainsIff | KawaiiRecSys/utils/helpers.py:33 | `sub in s` holds exactly when sub occurs in s at some position, in both directions. |
| Helpers.GenreToColor | KawaiiRecSys/utils/helpers.py:30-50 | Every result is one of the nine fixed colours. |
| Helpers.GenreToColorFollowsRules | KawaiiRecSys/utils/helpers.py:32-50 | The classifier equals the reference first-match classifier over the ordered rule table (romance, action, comedy, horror, sci-fi/scifi, drama, fantasy, mystery), applied to the lower-cased text. |
| Helpers.FirstMatchPriority | KawaiiRecSys/utils/helpers.py:33-48 | For any rule table with distinct, non-default colours, rule k's colour is chosen iff a keyword of rule k occurs and no keyword of an earlier rule does. |
| Helpers.GenreToColorPriority | KawaiiRecSys/utils/helpers.py:33-48 | The colour of rule k is returned iff rule k fires on the lower-cased genre and no earlier rule fires. |
| Helpers.GenreToColorDefault | KawaiiRecSys/utils/helpers.py:49-50 | `#1c1c1e` is returned iff no keyword occurs. |
| Helpers.RomanceWins | KawaiiRecSys/utils/helpers.py:33-34 | "romance" anywhere selects `#ff4baf`, whatever else occurs. |
| Helpers.SciFiSpellings | KawaiiRecSys/utils/helpers.py:41-42 | Either "sci-fi" or "scifi" selects `#00bfff` when none of the four earlier keywords occurs. |
| Helpers.GenreToColorCaseInsensitive | KawaiiRecSys/utils/helpers.py:32 | Texts equal after lower-casing get the same colour. |
| Helpers.MissingColumns | KawaiiRecSys/utils/helpers.py:100-101 | The missing list keeps the required order. It holds exactly the required columns absent from the header, and is empty iff all are present. |
| Helpers.ValidateColumns | KawaiiRecSys/utils/helpers.py:97-106 | The check passes iff both headers hold all their required columns. |
| Helpers.AnimeColumnsReportedFirst | KawaiiRecSys/utils/helpers.py:103-104 | While an anime column is missing, the message lists the missing anime columns joined by ", ". The ratings header plays no part. |
| Helpers.RatingsColumnsCheckedSecond | KawaiiRecSys/utils/helpers.py:105-106 | With the anime header complete, a missing ratings column yields the ratings message. |
| Svd.PrepareData | KawaiiRecSys/src/svd.py:26 | The kept ratings are an order-preserving subsequence of the input. A row whose rating is not -1 is kept exactly as many times as it occurs; a row rated -1 never is. |
| Svd.TrainModel | KawaiiRecSys/src/svd.py:48-58 | After training a model is present. An existing trainset is reused, otherwise it is prepared from the ratings. The tables are unchanged. |
| Svd.SaveModel | KawaiiRecSys/src/svd.py:106-107 | Saving succeeds iff a model exists; otherwise it fails with the source's message. |
| Svd.LoadModel | KawaiiRecSys/src/svd.py:115-122 | A missing file yields the source's message naming the path. Otherwise the model is set and the trainset is prepared again. |
| Svd.Without | KawaiiRecSys/src/svd.py:81 | Keeps, in order, exactly the ids not in the rated list, and keeps them distinct. |
| Svd.Candidates | KawaiiRecSys/src/svd.py:75-81 | The candidates have no repeats. An id is a candidate iff someone rated it and the user did not. |
| Svd.RankPredictions | KawaiiRecSys/src/svd.py:84-93 | At most `top_n` predictions, exactly min(`top_n`, candidates) for `top_n` >= 0 and max(candidates + `top_n`, 0) for a negative `top_n` (Python's `[:top_n]`). Each is a candidate with its predicted rating, no anime twice. Estimates never increase, equal estimates keep candidate order, and a candidate left out is predicted no higher than any prediction kept. |
| Svd.CatalogRows | KawaiiRecSys/src/svd.py:97-100 | The catalog rows with a given id, all of them; at most one when ids are unique. |
| Svd.JoinCatalog | KawaiiRecSys/src/svd.py:96-100 | Every joined row carries a ranked prediction unchanged. |
| Svd.JoinComplete | KawaiiRecSys/src/svd.py:96-100 | Every prediction that has a catalog row appears joined with that row. |
| Svd.JoinNoLarger | KawaiiRecSys/src/svd.py:96-100 | With unique catalog ids the inner join never adds rows. |
| Svd.JoinKeepsOrder | KawaiiRecSys/src/svd.py:96-100 | Joining descending predictions gives descending predicted ratings. |
| Svd.GetUserRecommendations | KawaiiRecSys/src/svd.py:71-102 | It fails iff no model exists, with the source's message. Otherwise each row is a catalog row of a candidate id joined with one of the kept top-`top_n` predictions (so a candidate outside the top never appears), the rows are in descending order, rows for different anime with equal predicted ratings keep the candidates' order (the stable sort), and when catalog ids are unique there are at most `top_n` rows and no anime twice. Every kept prediction that has a catalog row appears joined with it, and a candidate's catalog row that is absent is predicted no higher than any row returned. |
| Svd.UserRecommendationsUnrated | KawaiiRecSys/src/svd.py:78-81 | No recommended id was rated by the user, and every one was rated by somebody. |
| Svd.GetSvdRecommendations | KawaiiRecSys/src/svd.py:142-158 | At most `top_n` rows. When catalog ids are unique: exactly min(`top_n`, catalog size) rows for `top_n` >= 0, max(catalog size + `top_n`, 0) for a negative `top_n`, and no anime twice. Each row is a catalog row with its predicted rating, sorted by prediction then id, and a catalog row left out ranks no higher than any row kept. |
| Svd.JoinExact | KawaiiRecSys/src/svd.py:153-155 | With unique catalog ids, predictions whose ids are all catalog ids each merge with exactly one row, so the merge has one row per prediction. |
| Svd.JoinKeepsTies | KawaiiRecSys/src/svd.py:96-100 | The merge keeps the predictions' relative order: if predictions with equal estimates follow the order of their ids in a list, the merged rows with equal ratings for different anime do too. |
| Svd.JoinDistinct | KawaiiRecSys/src/svd.py:96-100 | Predictions for pairwise different anime, merged with a catalog whose ids are unique, give no anime twice. |
| Hybrid.SeedRows | KawaiiRecSys/src/hybrid.py:20-23 | Exactly the catalog positions whose name is a seed, each once and in increasing order; none iff no name matches. |
| Hybrid.MeanSimilarityBounds | KawaiiRecSys/src/hybrid.py:26 | A content score, the mean similarity to the seed rows, lies in [0, 1] when similarities do. |
| Hybrid.ExcludeSeeds | KawaiiRecSys/src/hybrid.py:33 | Keeps, in order, exactly the rows whose name is not a seed. |
| Hybrid.ExcludeSeedsCount | KawaiiRecSys/src/hybrid.py:33 | Filtering rows that follow the catalog keeps as many rows as the catalog has non-seed names. |
| Hybrid.ContentRecommendations | KawaiiRecSys/src/hybrid.py:9-35 | Empty when no name matches. Otherwise exactly min(`top_n`, non-seed rows) rows for `top_n` >= 0 and max(non-seed rows + `top_n`, 0) for a negative `top_n`, each a distinct non-seed catalog row (no anime twice when catalog ids are unique) scored by its mean similarity to the seeds. Rows are sorted by score then id, and a non-seed row left out ranks no higher than any kept. |
| Hybrid.ContentScoresBounded | KawaiiRecSys/src/hybrid.py:26-35 | Every content score returned lies in [0, 1] when similarities do. |
| Hybrid.PredictedOf | KawaiiRecSys/src/hybrid.py:57-62 | The predicted rating of an id in the collaborative table; 0 when it is absent. |
| Hybrid.ContentOf | KawaiiRecSys/src/hybrid.py:57-62 | The content score of an id in the content table; 0 when it is absent. |
| Hybrid.OuterJoin | KawaiiRecSys/src/hybrid.py:57-62 | The joined ids are exactly the union of both tables' ids. Each row carries both scores, zero-filled, and ids stay distinct when they were in each table. |
| Hybrid.Normalise | KawaiiRecSys/src/hybrid.py:65-68 | Values land in [0, 1] and keep their order in both directions. When max > min the minimum maps to 0 and the maximum to 1; a constant column maps to 0. |
| Hybrid.NormaliseAsWritten | KawaiiRecSys/src/hybrid.py:65-68 | As written, a constant column gives no value (NaN) in every row. Otherwise it agrees with Normalise. |
| Hybrid.ConstantColumnHasNoValue | KawaiiRecSys/src/hybrid.py:65-68 | The column [8.5, 8.5] has no value as written, and maps to [0, 0] in the model. |
| Hybrid.BlendBounds | KawaiiRecSys/src/hybrid.py:71 | `alpha*p + (1-alpha)*c` lies in [0, 1] for alpha, p and c in [0, 1]. |
| Hybrid.Fuse | KawaiiRecSys/src/hybrid.py:53-74 | An empty content table returns the collaborative table unchanged, and only then. Otherwise the fused rows are drawn from the normalised, blended join, exactly min(`top_n`, join size) of them for `top_n` >= 0 (max(join size + `top_n`, 0) otherwise), sorted by final score then id, and a joined row left out ranks no higher than any row kept. No row appears twice when the join has none twice, and no anime appears twice when each table lists an id once. Each row's id is in one of the tables, its normalised scores lie in [0, 1], its final score is their blend, and that lies in [0, 1] when alpha does. |
| Hybrid.FuseDetermined | KawaiiRecSys/src/hybrid.py:57-74 | When each table lists an id once, any list meeting Fuse's ranking contract is the fused result. |
| Hybrid.AlphaOneRanksByPrediction | KawaiiRecSys/src/hybrid.py:65-74 | With alpha = 1 the fused rows come out in descending order of raw predicted rating. |
| Hybrid.AlphaZeroRanksByContent | KawaiiRecSys/src/hybrid.py:65-74 | With alpha = 0 the fused rows come out in descending order of raw content score. |
| Hybrid.HybridRecommend | KawaiiRecSys/src/hybrid.py:37-74 | It returns the collaborative ranking of the catalog exactly when the content ranking is empty: when no seed matches, and also when a seed matches but the content ranking has no row (every catalog name a seed, say). When `top_n` > 0 and a seed matches while some row is not a seed, it fuses. A fused result is the head of the blended join of both rankings: drawn from it, sized min(`top_n`, join size), sorted by final score, keeping the best, with no anime twice when catalog ids are unique; scores lie in [0, 1] when alpha does. |
| Hybrid.FusionOfRankings | KawaiiRecSys/src/hybrid.py:53-74 | Given a collaborative ranking of at most `top_n` rows and a content ranking that is empty when no seed matches and sized min(`top_n`, non-seed rows) otherwise, both listing each anime once when catalog ids are unique, the fusion meets every clause of hybrid_recommend's result. |
| LegacyHybrid.AsList | KawaiiRecSys/src/hybrid_recommender.py:44-45 | A single title is the one-element title list. |
| LegacyHybrid.FindTitle | KawaiiRecSys/src/hybrid_recommender.py:52-57 | The first catalog position whose lower-cased name equals the lower-cased title; none iff no name matches. |
| LegacyHybrid.FindTitleIgnoresCase | KawaiiRecSys/src/hybrid_recommender.py:52 | Looking up the lower-cased title finds the same position. |
| LegacyHybrid.SortedNeighbours | KawaiiRecSys/src/hybrid_recommender.py:60-61 | The sorted row lists every position exactly once with its similarity, higher similarity first, and equal similarities in position order. |
| LegacyHybrid.WindowAsWritten | KawaiiRecSys/src/hybrid_recommender.py:61 | As written, the window is the sorted row without its first entry: entry k is sorted entry k + 1, there are min(`top_n + 19`, n - 1) of them for `top_n + 19` >= 0 and n > 0, and the window stays ranked. |
| LegacyHybrid.WindowAsWrittenKeepsTitle | KawaiiRecSys/src/hybrid_recommender.py:61 | For the row [1, 1] with the title at position 1, the source's window is the title itself. The corrected window is the other row. |
| LegacyHybrid.NeighbourWindow | KawaiiRecSys/src/hybrid_recommender.py:61 | The corrected window never holds the title's own position. It is ranked, and holds min(`top_n + 19`, n - 1) entries; with a negative `top_n` it holds none when `top_n + 20` is 0 and otherwise max(n + `top_n` + 19, 0), following Python's slice rules. |
| LegacyHybrid.WindowsAgreeWhenTitleSortsFirst | KawaiiRecSys/src/hybrid_recommender.py:61 | When the title sorts first in its own row, the corrected and the source's windows coincide. |
| LegacyHybrid.PairScoreBounds | KawaiiRecSys/src/hybrid_recommender.py:67 | A pair score lies in [0, 1] when sim is in [0, 1], pred in [0, 10] and alpha in [0, 1]. |
| LegacyHybrid.PairScoreMonotone | KawaiiRecSys/src/hybrid_recommender.py:67 | For alpha in [0, 1] the pair score grows with both the similarity and the prediction. |
| LegacyHybrid.TitlePairs | KawaiiRecSys/src/hybrid_recommender.py:60-72 | Built on the corrected window: a title's pairs name distinct catalog positions other than the title's own. There are min(`top_n + 19`, n - 1) of them (and the slice-rule count for negative `top_n`). The k-th pair is the k-th window position, scored (1 - alpha) * similarity + alpha * prediction / 10 for that position's anime, and scores lie in [0, 1] under the bounds. |
| LegacyHybrid.CollectPairs | KawaiiRecSys/src/hybrid_recommender.py:50-72 | It fails iff some title is missing, with the message naming the first missing title. Otherwise every pair names a catalog position and scores lie in [0, 1] under the bounds. |
| LegacyHybrid.Aggregate | KawaiiRecSys/src/hybrid_recommender.py:75-90 | One entry per row in first-appearance order, each the mean of all pair scores of that row. |
| LegacyHybrid.AggregateRows | KawaiiRecSys/src/hybrid_recommender.py:75-84 | Exactly the rows some pair names are averaged, each once. |
| LegacyHybrid.AggregateFirstAppearance | KawaiiRecSys/src/hybrid_recommender.py:75-90 | Averages come in the order their rows first appear among the pairs, as the dict keeps insertion order. |
| LegacyHybrid.AggregateWithin | KawaiiRecSys/src/hybrid_recommender.py:86-90 | Bounds on every pair score bound every average. |
| LegacyHybrid.SingleTitleScoresArePairScores | KawaiiRecSys/src/hybrid_recommender.py:75-90 | When each row is reached once, its score list is its one pair score. |
| LegacyHybrid.RankAverages | KawaiiRecSys/src/hybrid_recommender.py:93-94 | Exactly min(`top_n`, rows reached) distinct rows for `top_n` >= 0, and max(rows reached + `top_n`, 0) for negative `top_n`, each with its mean pair score, in descending order. Ties are broken by first appearance, and a row left out scores no higher than any kept. |
| LegacyHybrid.LegacyRanking | KawaiiRecSys/src/hybrid_recommender.py:43-94 | It fails iff a title is missing, naming the first. Otherwise the pairs of all titles are collected, and the result ranks their averages: min(`top_n`, rows reached) distinct catalog positions (max(rows reached + `top_n`, 0) for negative `top_n`), best first, ties by first appearance, none left out averaging more than one kept, in [0, 1] under the bounds. |
| LegacyHybrid.SingleTitleNotRecommended | KawaiiRecSys/src/hybrid_recommender.py:60-61 | With one title that is found, the title's own position is never among the results. |
| LegacyHybrid.SingleTitleCount | KawaiiRecSys/src/hybrid_recommender.py:50-94 | With one title that is found and `top_n` >= 0, exactly min(`top_n`, n - 1) rows come back. |
| LegacyHybrid.ImageUrl | KawaiiRecSys/src/hybrid_recommender.py:101-103 | The URL is the placeholder prefix followed by the name's first ten characters when the name is longer, or by the whole name otherwise. |
| LegacyHybrid.ImageUrlSameIff | KawaiiRecSys/src/hybrid_recommender.py:102 | Two names get the same URL exactly when their first ten characters agree. |
| LegacyHybrid.LegacyRecommend | KawaiiRecSys/src/hybrid_recommender.py:29-105 | It fails iff a title is missing, naming the first. Otherwise there is one record per ranked row, in ranking order: its catalog name and lower-cased genre (line 16), its average as final score, and its image URL. Records come in descending final-score order, at most `top_n` of them, with scores in [0, 1] under the bounds. |

## Left out

- TF-IDF vectorisation and cosine similarity (both files): floating-point text
  statistics. The similarity matrix is a parameter, assumed square over the
  catalog, and in [0, 1] where bounds are stated.
- SVD training and prediction, `train_test_split` and `build_full_trainset`:
  floating-point learning.
  - The predictor is a parameter.
  - `TrainModel` takes the fitting step as a function.
  - The trainset is modelled as the filtered rating table, without the 80/20
    split.
  - `train_svd_model` in `hybrid.py` becomes the model argument of
    `Hybrid.HybridRecommend`.
- All CSV reading, file-existence checks, pickling and the module-level data
  loading of `hybrid_recommender.py`: I/O. `LoadModel` receives the stored
  model, or None when the file is absent.
- `enrich_with_images`: it calls the Jikan HTTP API.
- `round(…, 3)` of the final scores: decimal rounding of floats. Scores stay
  exact.
- The `type` and `rating` catalog columns that results carry along: they take
  no part in ranking.
- The `titles` list collected per row in `hybrid_recommender.py`: it is never
  read.
- Content-only rows of the fused table get `name` and `genre` "" where pandas'
  `fillna(0)` writes 0.
- Catalog row labels are assumed to equal positions (a RangeIndex), as after
  `reset_index`.
- `str.lower` is modelled on ASCII letters only. `str(genre)` of a missing
  genre (NaN becomes "nan") is not modelled; genres are strings. For
  `hybrid_recommend` a missing genre is the empty string, as after
  hybrid_recommender.py's `fillna('')`.
- Svd.GetUserRecommendations: the `top_n` bound and the no-repeat clause
  are stated only for catalogs with unique ids, because a duplicated id
  multiplies joined rows as pandas' merge does.
- Svd.GetSvdRecommendations: the exact lengths and the no-repeat clause are
  stated only for catalogs with unique ids, for the same reason.
- LegacyHybrid.CollectPairs: the contract bounds the pairs and names the
  failing title. It does not spell out which window each pair came from for
  several titles; for one title, `SingleTitleNotRecommended` states the
  exclusion.
- Hybrid.Fuse: uses the corrected `Normalise`, which maps a constant column
  to 0. As written, pandas divides by zero and every score of the column, and
  so every final score, is NaN (see Findings). The model does not carry NaN
  through the sort.
- Hybrid.HybridRecommend: fuses through `Hybrid.Fuse`, so it inherits the
  corrected normalisation above.
- Hybrid.OuterJoin: when a table lists an id more than once, every joined
  row for that id carries the first listing's score. There is one row per
  collaborative listing and one per content-only listing. pandas instead
  pairs every listing of the id in one table with every listing in the
  other. The distinctness clause covers the case where neither table repeats
  an id.
- Svd.GetSvdRecommendations: an empty catalog gives no rows. In pandas the
  empty prediction frame has no `anime_id` column and the merge raises
  `KeyError`; that error path is not modelled.
- LegacyHybrid.TitlePairs: uses the corrected `NeighbourWindow`, which drops
  the title's own entry. As written the window drops the first sorted entry,
  which keeps the title when a lower position ties with it (see Findings).
- LegacyHybrid.CollectPairs: collects `TitlePairs`, so it inherits the
  corrected window.
- LegacyHybrid.LegacyRanking: ranks the pairs of `CollectPairs`, so it
  inherits the corrected window.
- LegacyHybrid.LegacyRecommend: presents `LegacyRanking`, so it inherits the
  corrected window.
- LegacyHybrid.NeighbourWindow: the window is stated ranked and of the right
  size. That the positions cut off score no higher is implied by taking a
  prefix of the ranked row, but is not stated as its own clause.

## Findings

| source | as written | input that shows it | evidently intended | confidence | as-written member | corrected member |
|---|---|---|---|---|---|---|
| KawaiiRecSys/src/hybrid.py:65-68 | Each column is divided by max - min, which is 0 for a constant column, so pandas yields NaN in every row and the final scores become NaN. | A predicted-rating column [8.5, 8.5], or a fused table of one row. | A constant column carries no signal and normalises to 0. | high; not executed | Hybrid.NormaliseAsWritten (shown by Hybrid.ConstantColumnHasNoValue) | Hybrid.Normalise |
| KawaiiRecSys/src/hybrid_recommender.py:61 | `[1:top_n+20]` drops the first entry of the stably sorted similarity row, taking it to be the title. A lower position with equal similarity sorts before the title, so the title stays in its own window. | Two catalog rows with the same genre, title at position 1: the row [1.0, 1.0] sorts as positions 0, 1, and the window is position 1, the title itself. | Drop the title's own entry, then take `top_n + 19` neighbours. | high; not executed | LegacyHybrid.WindowAsWritten (shown by LegacyHybrid.WindowAsWrittenKeepsTitle) | LegacyHybrid.NeighbourWindow (with LegacyHybrid.SingleTitleNotRecommended) |
