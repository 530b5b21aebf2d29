/** The recommender's entry points: `myIBCF` on a rating vector,
    `get_recommended_movies` on the user's ratings, `get_displayed_movies`
    for the rating page, and `myIBCF` as it is written, which fails on the
    padding branch. */
module Recommender {
  import opened Seqs
  import opened Tables
  import opened RatingVectors
  import opened Engine
  import opened Ranking
  import opened Assembly

  /** The number of catalog rows the rating page shows. */
  const DisplayCount: nat := 100

  /** The loop of `myIBCF`: one prediction per unrated movie, in column
      order; `None` where the movie has no rated neighbour or the
      similarities to its rated neighbours sum to zero. */
  method ComputePredictions(S: Similarity, w: RatingVector) returns (predictions: seq<Prediction>)
    ensures predictions == Predictions(S, w)
  {
    var unrated := Unrated(S.cols, w);
    predictions := [];
    for i := 0 to |unrated|
      invariant |predictions| == i
      invariant forall t :: 0 <= t < i ==> predictions[t] == Predictions(S, w)[t]
    {
      var m := unrated[i];
      var similar := RatedNeighbours(S, w, m);
      var prediction: Option<real> := None;
      if |similar| > 0 {
        var numerator := WeightedRatingSum(S, w, m, similar);
        var denominator := WeightSum(S, m, similar);
        if denominator != 0.0 {
          prediction := Some(numerator / denominator);
        }
      }
      predictions := predictions + [Prediction(m, prediction)];
    }
  }

  /** `myIBCF(w)`, with the padding branch as evidently intended: the
      predictions; the stable descending sort; the first K ids; padding from
      the catalog when short; the catalog rows of the chosen ids. */
  method Ibcf(S: Similarity, catalog: seq<Movie>, w: RatingVector) returns (rows: seq<Movie>)
    ensures rows == RecommendationRows(S, catalog, w)
    ensures forall r :: r in rows ==> r in catalog && !IsRated(w, r.id)
    ensures Distinct(S.cols) && Distinct(MovieIds(catalog)) ==>
      Distinct(MovieIds(rows)) && |rows| <= K
  {
    var predictions := ComputePredictions(S, w);
    predictions := SortDesc(predictions);
    var topIds := TopIds(predictions);
    var chosen := topIds;
    if |topIds| < K {
      var remaining := Remaining(catalog, w, topIds);
      chosen := topIds + remaining[..Min(K - |topIds|, |remaining|)];
    }
    rows := CatalogRows(catalog, chosen);
    RecommendationExcludesRated(S, catalog, w);
  }

  /** `get_recommended_movies(new_user_ratings)`: build the rating vector over
      the similarity matrix's columns, then run `myIBCF` on it. No movie the
      user rated is recommended. */
  method GetRecommendedMovies(S: Similarity, catalog: seq<Movie>, ratings: map<Id, int>)
    returns (rows: seq<Movie>)
    ensures rows == RecommendationRows(S, catalog, RatingVectorOf(S.cols, ratings))
    ensures forall r :: r in rows ==> r in catalog && r.id !in ratings
    ensures Distinct(S.cols) && Distinct(MovieIds(catalog)) ==>
      Distinct(MovieIds(rows)) && |rows| <= K
  {
    var w := BuildRatingVector(S.cols, ratings);
    rows := Ibcf(S, catalog, w);
  }

  /** `get_displayed_movies()`: the first 100 catalog rows, or all of them
      when the catalog is shorter. */
  function GetDisplayedMovies(catalog: seq<Movie>): (shown: seq<Movie>)
    ensures |shown| == Min(DisplayCount, |catalog|)
    ensures shown <= catalog
    ensures |catalog| <= DisplayCount ==> shown == catalog
  {
    catalog[..Min(DisplayCount, |catalog|)]
  }

  // ---------------------------------------------------------------------
  // The padding branch as written
  // ---------------------------------------------------------------------

  /** How a call of `myIBCF` as written ends: with the catalog rows, or with
      the `AttributeError` raised by calling `.tolist()` on a Python list. */
  datatype Outcome = Returned(rows: seq<Movie>) | AttributeError

  /** `myIBCF(w)` as written: `top_10_movie_ids` is a list, so on the padding
      branch `top_10_movie_ids.tolist()` raises before anything is returned. */
  function IbcfAsWritten(S: Similarity, catalog: seq<Movie>, w: RatingVector): Outcome
  {
    var primary := PrimaryIds(S, w);
    if |primary| < K then AttributeError else Returned(CatalogRows(catalog, primary))
  }

  /** As written, `myIBCF` fails exactly when fewer than K movies are unrated,
      and otherwise returns what the intended definition returns. */
  lemma AsWrittenFailsIffFewUnrated(S: Similarity, catalog: seq<Movie>, w: RatingVector)
    ensures IbcfAsWritten(S, catalog, w).AttributeError? <==> |Unrated(S.cols, w)| < K
    ensures IbcfAsWritten(S, catalog, w).Returned? ==>
      IbcfAsWritten(S, catalog, w).rows == RecommendationRows(S, catalog, w)
  {
    PrimarySelection(S, w);
  }

  /** A three-movie example: the user rated A only, with a 5, and only B has
      a defined similarity to A. */
  const ExampleCols: seq<Id> := ["A", "B", "C"]
  const ExampleS: Similarity := Similarity(ExampleCols, map[("B", "A") := 0.8])
  const ExampleCatalog: seq<Movie> := [Movie("C", "c"), Movie("A", "a"), Movie("B", "b")]
  const ExampleW: RatingVector := map["A" := Some(5.0), "B" := None, "C" := None]

  /** The example's rating vector is the one the builder makes from {A: 5}. */
  lemma ExampleVectorBuilt()
    ensures ExampleW == RatingVectorOf(ExampleCols, map["A" := 5])
  {
  }

  lemma ExampleUnrated()
    ensures Unrated(ExampleCols, ExampleW) == ["B", "C"]
  {
  }

  lemma ExampleNeighbours(m: Id)
    requires m == "B" || m == "C"
    ensures RatedNeighbours(ExampleS, ExampleW, m) == if m == "B" then ["A"] else []
  {
    var p := j => Get(ExampleS, m, j).Some? && IsRated(ExampleW, j);
    FilterStep(["C"], p);
    FilterStep(["B", "C"], p);
    FilterStep(ExampleCols, p);
    assert ExampleCols[1..] == ["B", "C"];
  }

  lemma ExamplePredictions()
    ensures Predict(ExampleS, ExampleW, "B") == Some(5.0)
    ensures Predict(ExampleS, ExampleW, "C") == None
  {
    ExampleNeighbours("B");
    ExampleNeighbours("C");
    assert WeightSum(ExampleS, "B", ["A"]) == 0.8;
    assert WeightedRatingSum(ExampleS, ExampleW, "B", ["A"]) == 4.0;
  }

  lemma ExamplePredictionList()
    ensures Predictions(ExampleS, ExampleW) == [Prediction("B", Some(5.0)), Prediction("C", None)]
  {
    ExampleUnrated();
    ExamplePredictions();
  }

  lemma ExamplePrimary()
    ensures PrimaryIds(ExampleS, ExampleW) == ["B", "C"]
  {
    ExamplePredictionList();
    var ps := [Prediction("B", Some(5.0)), Prediction("C", None)];
    assert SortDesc(ps[1..]) == ps[1..];
    assert SortDesc(ps) == ps;
  }

  lemma ExampleRemaining()
    ensures Remaining(ExampleCatalog, ExampleW, ["B", "C"]) == []
  {
  }

  lemma ExampleRows()
    ensures CatalogRows(ExampleCatalog, ["B", "C"]) == [Movie("C", "c"), Movie("B", "b")]
  {
  }

  lemma ExampleChosen()
    ensures Chosen(ExampleCatalog, ExampleW, ["B", "C"]) == ["B", "C"]
  {
  }

  /** Two of the three movies are unrated, fewer than K, so the code as
      written fails. The intended definition recommends B and C in catalog
      order: B, the one movie with a defined prediction (5), heads the
      ranking, but C comes first in the rows because the catalog lists it
      first. */
  lemma ThreeMovieExample()
    ensures IbcfAsWritten(ExampleS, ExampleCatalog, ExampleW) == AttributeError
    ensures Predict(ExampleS, ExampleW, "B") == Some(5.0)
    ensures PrimaryIds(ExampleS, ExampleW) == ["B", "C"]
    ensures RecommendationRows(ExampleS, ExampleCatalog, ExampleW) == [Movie("C", "c"), Movie("B", "b")]
  {
    ExamplePredictions();
    ExamplePrimary();
    ExampleChosen();
    ExampleRows();
  }

  // ---------------------------------------------------------------------
  // No ratings at all
  // ---------------------------------------------------------------------

  /** With no ratings, every column is unrated. */
  lemma NoRatingsAllUnrated(S: Similarity)
    ensures Unrated(S.cols, RatingVectorOf(S.cols, map[])) == S.cols
  {
    var w := RatingVectorOf(S.cols, map[]);
    RatingVectorOfExact(S.cols, map[]);
    FilterAll(S.cols, m => IsUnrated(w, m));
  }

  /** With no ratings, no movie has a rated neighbour, so no prediction is
      defined. */
  lemma NoRatingsNoPrediction(S: Similarity, m: Id)
    ensures Predict(S, RatingVectorOf(S.cols, map[]), m) == None
  {
  }

  /** With no ratings, every movie is unrated, no prediction is defined and
      the stable sort keeps column order: the chosen ids are the first K
      columns of the similarity matrix (not the first K catalog rows). */
  lemma NoRatingsTakesFirstColumns(S: Similarity)
    ensures PrimaryIds(S, RatingVectorOf(S.cols, map[])) == S.cols[..Min(K, |S.cols|)]
  {
    var w := RatingVectorOf(S.cols, map[]);
    NoRatingsAllUnrated(S);
    var ps := Predictions(S, w);
    forall e | e in ps
      ensures e.score.None?
    {
      NoRatingsNoPrediction(S, e.movie);
    }
    SortAllUndefined(ps);
  }
}
