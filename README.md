# Item-based collaborative filtering recommender

This is a Dafny model of the recommender in `myfuns.py`. It has three parts.

The **rating-vector builder** (`get_recommended_movies`) starts from a series indexed by the similarity matrix's columns, with every entry unset. It then writes each supplied `(id, rating)` into it.

The **prediction engine** (`myIBCF`, lines 12-28) works through every unrated movie `m`:

- It takes the movies with a defined similarity to `m` that the user rated.
- If there are any, it predicts the similarity-weighted average of their ratings.
- Otherwise the prediction is undefined (NaN).

The **result assembler** (`myIBCF`, lines 30-52) works on the predictions:

- It sorts them with Python's stable sort, in descending order, with an undefined prediction keyed as minus infinity.
- It keeps the first K = 10.
- When fewer than 10 movies are unrated, it is meant to pad the list with catalog (popularity-order) ids that are neither rated nor already chosen. As written, that branch raises (see Findings), and the model states both behaviours.
- It returns the catalog rows whose id was chosen, in catalog order, not ranking order.

`get_displayed_movies` returns the first 100 catalog rows.

The two tables loaded at start-up are immutable parameters of every operation:

- the catalog `movies`, in popularity order;
- the square similarity matrix `S`.

Similarities and ratings are exact `real`s, and `Option` stands for NaN and unset entries.

Files:

- `seqs.dfy` (`Seqs`): sequence helpers. `Filter` is an order-keeping filter. It is the model of every pandas boolean-mask selection.
- `tables.dfy` (`Tables`): identifiers, movies, the similarity matrix and the rating vector.
- `rating_vector.dfy` (`RatingVectors`): the builder loop and the vector it produces.
- `prediction.dfy` (`Engine`): the per-movie prediction and the list of predictions.
- `ranking.dfy` (`Ranking`): the stable descending sort.
- `assembly.dfy` (`Assembly`): top K, padding and the final catalog filter, as functions with their properties.
- `recommender.dfy` (`Recommender`): the imperative entry points, `get_displayed_movies`, `myIBCF` as written, and two worked scenarios.

The model follows the code as written:

- **Empty rating map.** With an empty rating map every movie is unrated and no prediction is defined. The stable sort keeps column order, so the selection is the first K columns of the similarity matrix, not the first K catalog entries (`Recommender.NoRatingsTakesFirstColumns`). The rows are returned in catalog order.
- **When the padding branch is entered.** The comment at line 40 reads "Handle cases where fewer than 10 predictions are non-NA". The guard actually tests the length of the selection. That length is `min(10, number of unrated movies)` (`Assembly.PrimarySelection`). So the padding branch is entered only when fewer than 10 movies are unrated, and undefined predictions can be recommended.

## Model

| member | source | states |
|---|---|---|
| RatingVectors.BuildRatingVector | myfuns.py:59-62 | The loop's result: the labels are the columns plus the supplied ids. A label is rated exactly when it was supplied, and it holds its own rating. Every other column is unset. The result equals `RatingVectorOf`. |
| RatingVectors.RatingVectorOfExact | myfuns.py:59-62 | For the built vector: rated iff supplied, each with its rating, every other column unset. When every supplied id is a column, the labels are exactly the columns. |
| Engine.Unrated | myfuns.py:14 | The unrated movies are exactly the columns whose entry is unset. There are no repeats when the columns are distinct. |
| Engine.UnratedInColumnOrder | myfuns.py:14 | The unrated movies keep the columns' order. |
| Engine.RatedNeighbours | myfuns.py:19-20 | The neighbours are exactly the columns with a defined similarity to `m` that the user rated. There are no repeats when the columns are distinct. |
| Engine.PredictDefinedIff | myfuns.py:19-28 | A prediction is defined iff some rated movie has a defined similarity to `m` and those similarities do not sum to zero. It then satisfies prediction × Σ S[m,j] = Σ S[m,j]·w[j] over exactly those neighbours. |
| Engine.PositiveWeightsDefinedIff | myfuns.py:19-28 | With positive similarities, a prediction is defined iff a rated neighbour exists. |
| Engine.SingleNeighbour | myfuns.py:23-25 | If `j` is the only rated neighbour with a non-zero similarity, the prediction is `w[j]`, whatever the sign or size of S[m,j]. |
| Engine.PredictionWithinRatings | myfuns.py:23-25 | With non-negative similarities, a defined prediction lies between the lowest and the highest rating. |
| Engine.PredictionsExactlyUnrated | myfuns.py:14-28 | The prediction list holds one entry per unrated movie and nothing else, in column order. Each entry's score is `Predict`. No rated movie gets a prediction. |
| Recommender.ComputePredictions | myfuns.py:17-28 | The loop builds exactly the list `Predictions`. |
| Ranking.SortDescPermutes | myfuns.py:31 | The sort returns a permutation of its input. |
| Ranking.SortDescSorted | myfuns.py:31 | The result is in descending order of key, with undefined keys lowest. |
| Ranking.SortDescStable | myfuns.py:31 | Stability: the entries with any one key keep their input order. |
| Ranking.HigherComesFirst | myfuns.py:31 | If a is defined and greater than b, or b is undefined, a is placed before b. |
| Ranking.DefinedBeforeUndefined | myfuns.py:31 | Every defined prediction precedes every undefined one. |
| Ranking.TiesKeepInputOrder | myfuns.py:31 | Sorted entries with equal keys occur in that order in the input. When the input has no repeats, they do not also occur in the other order. |
| Ranking.SortAllUndefined | myfuns.py:31 | When no prediction is defined, the sort changes nothing. |
| Assembly.PrimarySelection | myfuns.py:35-38 | The selection has min(10, number of unrated movies) ids, holds only unrated columns, repeats none when the columns are distinct, and holds every unrated movie when at most 10 are unrated. |
| Assembly.PrimaryIsTop | myfuns.py:31-38 | No unrated movie left out outranks a selected one. |
| Assembly.ChosenExtendsPrimary | myfuns.py:41-50 | The chosen ids start with the selection. Padding happens only below 10 ids and adds only catalog ids that are neither rated nor already selected. When the selection has at most 10 ids, so does the result. When the selection holds no rated id, neither does the result. When the selection and the catalog ids are distinct, the result has no repeats. |
| Assembly.PaddingExhaustsCatalog | myfuns.py:44-48 | A short result holds every catalog id that is not rated. |
| Assembly.PaddingInCatalogOrder | myfuns.py:44-48 | Padding follows catalog order: an available id listed before a padded one is padded too. |
| Assembly.CatalogRowsExact | myfuns.py:52 | The rows are exactly the catalog rows whose id was chosen, in catalog order. With unique catalog ids there are no repeats, one row per chosen id the catalog lists. |
| Assembly.RecommendationExcludesRated | myfuns.py:12-52 | Every recommended row is a catalog row for an unrated movie. With unique ids there are no repeats and at most 10 rows. |
| Assembly.RecommendationLength | myfuns.py:12-52 | When the catalog and the columns list the same distinct movies and every column is a label of the vector, the intended padding adds nothing and there are exactly min(10, number of unrated movies) rows. |
| Assembly.AllRatedRecommendsNothing | myfuns.py:12-52 | When every column and every catalog id is rated, the intended result is empty. As written, this case raises, because the selection is empty. |
| Recommender.Ibcf | myfuns.py:12-52 | `myIBCF` with the padding concatenation as intended returns `RecommendationRows`: catalog rows only and no rated movie. With distinct columns and catalog ids there are no repeats and at most 10 rows. |
| Recommender.GetRecommendedMovies | myfuns.py:57-63 | Builds the vector, then runs `myIBCF` as intended (`Recommender.Ibcf`). No supplied id is recommended. With distinct columns and catalog ids there are no repeats and at most 10 rows. |
| Recommender.GetDisplayedMovies | myfuns.py:54-55 | The first min(100, catalog length) catalog rows, as a prefix of the catalog. |
| Recommender.AsWrittenFailsIffFewUnrated | myfuns.py:41-52 | As written, `myIBCF` raises exactly when fewer than 10 movies are unrated. Otherwise it returns the intended rows. |
| Recommender.ThreeMovieExample | myfuns.py:12-52 | Columns A, B, C. Only S[B,A] = 0.8 is defined, and the user rated A with 5. The prediction for B is 5 and the ranking is B, C. As written the call raises. As intended the rows are C then B, in catalog order. |
| Recommender.NoRatingsTakesFirstColumns | myfuns.py:14-38 | With no ratings, the selection is the first 10 columns. |

## Left out

- Loading `popular_100.csv` and `pop_100_S.csv` (lines 8-10) is file input. The catalog and the matrix are parameters.
- The Dash user interface is not part of this model. The map `GetRecommendedMovies` receives corresponds to the non-empty radio values app.py collects as integers.
- IEEE floats, NaN propagation and numpy warnings are not modelled. Arithmetic is exact over `real`.
- Engine.Predict: when the similarities to the rated neighbours sum to exactly zero, the source divides anyway and gets ±inf or NaN. The model makes the prediction undefined. A +inf would rank first in the source; the model cannot show that.
- pandas dtype handling (`astype(str)` at line 52, `str(id)` at line 61) is not modelled. Identifiers are strings throughout. A supplied rating is stored as a real, as the float series stores it.
- An id supplied outside the columns becomes a new label of the series, as pandas does. It only counts as rated. Its position among the labels is not modelled, because no unrated label can be one.
- `predictions.sort` (line 31) sorts a list in place. It is modelled as the function `SortDesc` on values that returns the sorted list, proved stable, sorted and a permutation.

## Findings

| source | as written | input that shows it | evidently intended | confidence | as-written member | corrected member |
|---|---|---|---|---|---|---|
| myfuns.py:50 | `top_10_movie_ids` is a Python list, so `.tolist()` raises `AttributeError` whenever the padding branch runs | the three-movie example: two unrated movies, fewer than 10 | concatenate the selected ids with the padding ids | not executed | Recommender.IbcfAsWritten | Recommender.Ibcf |
