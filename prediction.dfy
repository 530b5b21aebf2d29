/** The prediction engine of `myIBCF`: for every unrated movie, the
    similarity-weighted average of the user's ratings on its rated
    neighbours. */
module Engine {
  import opened Seqs
  import opened Tables

  /** One element of the `predictions` list: a movie and its predicted score,
      `None` where the source appends NaN. */
  datatype Prediction = Prediction(movie: Id, score: Option<real>)

  /** `w[w.isna()].index`: the unrated movies, in column order. */
  function Unrated(cols: seq<Id>, w: RatingVector): (u: seq<Id>)
    ensures forall m :: m in u ==> m in cols && IsUnrated(w, m)
    ensures forall m :: m in cols && IsUnrated(w, m) ==> m in u
    ensures Distinct(cols) ==> Distinct(u)
  {
    Filter(cols, m => IsUnrated(w, m))
  }

  /** The unrated movies keep the order of the columns. */
  lemma UnratedInColumnOrder(cols: seq<Id>, w: RatingVector, x: Id, y: Id)
    requires Before(Unrated(cols, w), x, y)
    ensures Before(cols, x, y)
  {
    FilterBeforeBack(cols, m => IsUnrated(w, m), x, y);
  }

  /** `S.loc[m].dropna().index.intersection(w.dropna().index)`: the columns
      with a defined similarity to `m` that the user rated. */
  function RatedNeighbours(S: Similarity, w: RatingVector, m: Id): (js: seq<Id>)
    ensures forall j :: j in js ==> j in S.cols && Get(S, m, j).Some? && IsRated(w, j)
    ensures forall j :: j in S.cols && Get(S, m, j).Some? && IsRated(w, j) ==> j in js
    ensures Distinct(S.cols) ==> Distinct(js)
  {
    Filter(S.cols, j => Get(S, m, j).Some? && IsRated(w, j))
  }

  /** The similarity S[m, j], read as 0 where it is undefined. */
  function Weight(S: Similarity, m: Id, j: Id): real
  {
    match Get(S, m, j)
    case Some(s) => s
    case None => 0.0
  }

  /** The rating w[j], read as 0 where it is unset. */
  function Rating(w: RatingVector, j: Id): real
  {
    if IsRated(w, j) then w[j].value else 0.0
  }

  /** The denominator: the sum of S[m, j] over `js`. */
  function WeightSum(S: Similarity, m: Id, js: seq<Id>): real
  {
    if js == [] then 0.0 else Weight(S, m, js[0]) + WeightSum(S, m, js[1..])
  }

  /** The numerator: the sum of S[m, j] * w[j] over `js`. */
  function WeightedRatingSum(S: Similarity, w: RatingVector, m: Id, js: seq<Id>): real
  {
    if js == [] then 0.0
    else Weight(S, m, js[0]) * Rating(w, js[0]) + WeightedRatingSum(S, w, m, js[1..])
  }

  /** The prediction for one unrated movie `m`. A zero denominator yields
      `None` rather than a division. */
  function Predict(S: Similarity, w: RatingVector, m: Id): Option<real>
  {
    var js := RatedNeighbours(S, w, m);
    if |js| > 0 && WeightSum(S, m, js) != 0.0
    then Some(WeightedRatingSum(S, w, m, js) / WeightSum(S, m, js))
    else None
  }

  /** The `predictions` list the loop builds: one entry per unrated movie, in
      column order. */
  function Predictions(S: Similarity, w: RatingVector): seq<Prediction>
  {
    var u := Unrated(S.cols, w);
    seq(|u|, i requires 0 <= i < |u| => Prediction(u[i], Predict(S, w, u[i])))
  }

  /** The movies of a list of predictions, in list order. */
  function PredictionIds(ps: seq<Prediction>): (ids: seq<Id>)
    ensures |ids| == |ps|
    ensures forall i :: 0 <= i < |ps| ==> ids[i] == ps[i].movie
  {
    seq(|ps|, i requires 0 <= i < |ps| => ps[i].movie)
  }

  /** A rated movie that has a defined similarity to `m`. */
  ghost predicate HasRatedNeighbour(S: Similarity, w: RatingVector, m: Id)
  {
    exists j :: j in S.cols && Get(S, m, j).Some? && IsRated(w, j)
  }

  // ---------------------------------------------------------------------
  // Properties of a single prediction
  // ---------------------------------------------------------------------

  /** A prediction is defined exactly when some rated movie has a defined
      similarity to `m` and those similarities do not sum to zero; it is then
      the weighted average over exactly those rated neighbours. */
  lemma PredictDefinedIff(S: Similarity, w: RatingVector, m: Id)
    ensures Predict(S, w, m).Some? <==>
      HasRatedNeighbour(S, w, m) && WeightSum(S, m, RatedNeighbours(S, w, m)) != 0.0
    ensures Predict(S, w, m).Some? ==>
      Predict(S, w, m).value * WeightSum(S, m, RatedNeighbours(S, w, m))
        == WeightedRatingSum(S, w, m, RatedNeighbours(S, w, m))
  {
    var js := RatedNeighbours(S, w, m);
    if HasRatedNeighbour(S, w, m) {
      var j :| j in S.cols && Get(S, m, j).Some? && IsRated(w, j);
      assert j in js;
    }
    if |js| > 0 {
      assert js[0] in js;
    }
  }

  lemma {:induction false} WeightSumPositive(S: Similarity, m: Id, js: seq<Id>)
    requires forall j :: j in js ==> Weight(S, m, j) > 0.0
    ensures js != [] ==> WeightSum(S, m, js) > 0.0
    ensures WeightSum(S, m, js) >= 0.0
  {
    if js != [] {
      assert js[0] in js;
      WeightSumPositive(S, m, js[1..]);
    }
  }

  /** With positive similarities the zero-denominator case cannot arise: the
      prediction is defined exactly when a rated neighbour exists. */
  lemma PositiveWeightsDefinedIff(S: Similarity, w: RatingVector, m: Id)
    requires forall j :: j in S.cols && Get(S, m, j).Some? ==> Get(S, m, j).value > 0.0
    ensures Predict(S, w, m).Some? <==> HasRatedNeighbour(S, w, m)
  {
    var js := RatedNeighbours(S, w, m);
    WeightSumPositive(S, m, js);
    PredictDefinedIff(S, w, m);
  }

  /** Neighbours of similarity zero contribute to neither sum. */
  lemma {:induction false} ZeroWeightSums(S: Similarity, w: RatingVector, m: Id, js: seq<Id>)
    requires forall k :: k in js ==> Weight(S, m, k) == 0.0
    ensures WeightSum(S, m, js) == 0.0 && WeightedRatingSum(S, w, m, js) == 0.0
  {
    if js != [] {
      assert js[0] in js;
      ZeroWeightSums(S, w, m, js[1..]);
    }
  }

  /** If `j` occurs once in `js` and every other entry has similarity zero,
      the sums are those of `j` alone. */
  lemma {:induction false} SingleWeightSums(S: Similarity, w: RatingVector, m: Id, js: seq<Id>, j: Id)
    requires Distinct(js) && j in js
    requires forall k :: k in js && k != j ==> Weight(S, m, k) == 0.0
    ensures WeightSum(S, m, js) == Weight(S, m, j)
    ensures WeightedRatingSum(S, w, m, js) == Weight(S, m, j) * Rating(w, j)
  {
    if js[0] == j {
      assert forall k :: k in js[1..] ==> k in js && k != j;
      ZeroWeightSums(S, w, m, js[1..]);
    } else {
      assert js[0] in js;
      SingleWeightSums(S, w, m, js[1..], j);
    }
  }

  /** The single-neighbour case: when `j` is the only rated neighbour of `m`
      with a non-zero similarity, the prediction is the rating of `j`,
      whatever the sign or magnitude of S[m, j]. */
  lemma SingleNeighbour(S: Similarity, w: RatingVector, m: Id, j: Id)
    requires Distinct(S.cols) && j in S.cols && IsRated(w, j)
    requires Get(S, m, j).Some? && Get(S, m, j).value != 0.0
    requires forall k :: k in S.cols && k != j && IsRated(w, k) && Get(S, m, k).Some? ==>
      Get(S, m, k).value == 0.0
    ensures Predict(S, w, m) == Some(w[j].value)
  {
    var js := RatedNeighbours(S, w, m);
    assert j in js;
    forall k | k in js && k != j
      ensures Weight(S, m, k) == 0.0
    {
      assert Get(S, m, k).Some? && Get(S, m, k).value == 0.0;
    }
    SingleWeightSums(S, w, m, js, j);
    var s := Get(S, m, j).value;
    var r := w[j].value;
    assert WeightSum(S, m, js) == s && WeightedRatingSum(S, w, m, js) == s * r;
    assert s * r / s == r;
  }

  lemma {:induction false} WeightedSumAbove(S: Similarity, w: RatingVector, m: Id, js: seq<Id>, lo: real)
    requires forall k :: k in js ==> Weight(S, m, k) >= 0.0 && lo <= Rating(w, k)
    ensures lo * WeightSum(S, m, js) <= WeightedRatingSum(S, w, m, js)
  {
    if js != [] {
      assert js[0] in js;
      WeightedSumAbove(S, w, m, js[1..], lo);
      StepAbove(Weight(S, m, js[0]), Rating(w, js[0]), WeightSum(S, m, js[1..]),
        WeightedRatingSum(S, w, m, js[1..]), lo, WeightSum(S, m, js), WeightedRatingSum(S, w, m, js));
    }
  }

  lemma {:induction false} WeightedSumBelow(S: Similarity, w: RatingVector, m: Id, js: seq<Id>, hi: real)
    requires forall k :: k in js ==> Weight(S, m, k) >= 0.0 && Rating(w, k) <= hi
    ensures WeightedRatingSum(S, w, m, js) <= hi * WeightSum(S, m, js)
  {
    if js != [] {
      assert js[0] in js;
      WeightedSumBelow(S, w, m, js[1..], hi);
      StepBelow(Weight(S, m, js[0]), Rating(w, js[0]), WeightSum(S, m, js[1..]),
        WeightedRatingSum(S, w, m, js[1..]), hi, WeightSum(S, m, js), WeightedRatingSum(S, w, m, js));
    }
  }

  lemma StepAbove(s: real, r: real, d: real, n: real, lo: real, d': real, n': real)
    requires s >= 0.0 && lo <= r && lo * d <= n
    requires d' == s + d && n' == s * r + n
    ensures lo * d' <= n'
  {
    assert s * (r - lo) >= 0.0;
    assert lo * (s + d) == lo * s + lo * d;
  }

  lemma StepBelow(s: real, r: real, d: real, n: real, hi: real, d': real, n': real)
    requires s >= 0.0 && r <= hi && n <= hi * d
    requires d' == s + d && n' == s * r + n
    ensures n' <= hi * d'
  {
    assert s * (hi - r) >= 0.0;
    assert hi * (s + d) == hi * s + hi * d;
  }

  /** With non-negative similarities the prediction is a convex combination
      of the neighbours' ratings: it lies between their lowest and highest. */
  lemma PredictionWithinRatings(S: Similarity, w: RatingVector, m: Id, lo: real, hi: real)
    requires forall j :: j in S.cols && Get(S, m, j).Some? ==> Get(S, m, j).value >= 0.0
    requires forall j :: j in S.cols && IsRated(w, j) ==> lo <= w[j].value <= hi
    ensures Predict(S, w, m).Some? ==> lo <= Predict(S, w, m).value <= hi
  {
    var js := RatedNeighbours(S, w, m);
    assert forall k :: k in js ==> Weight(S, m, k) >= 0.0 && lo <= Rating(w, k) <= hi;
    var n, d := WeightedRatingSum(S, w, m, js), WeightSum(S, m, js);
    WeightedSumAbove(S, w, m, js, lo);
    WeightedSumBelow(S, w, m, js, hi);
    WeightSumNonNegative(S, m, js);
    if Predict(S, w, m).Some? {
      assert Predict(S, w, m).value == n / d;
      DivideBounds(n, d, lo, hi);
    }
  }

  lemma DivideBounds(n: real, d: real, lo: real, hi: real)
    requires d > 0.0 && lo * d <= n <= hi * d
    ensures lo <= n / d <= hi
  {
    var v := n / d;
    assert v * d == n;
    assert (v - lo) * d >= 0.0;
    assert (hi - v) * d >= 0.0;
  }

  lemma {:induction false} WeightSumNonNegative(S: Similarity, m: Id, js: seq<Id>)
    requires forall j :: j in js ==> Weight(S, m, j) >= 0.0
    ensures WeightSum(S, m, js) >= 0.0
  {
    if js != [] {
      assert js[0] in js;
      WeightSumNonNegative(S, m, js[1..]);
    }
  }

  // ---------------------------------------------------------------------
  // Properties of the whole list of predictions
  // ---------------------------------------------------------------------

  /** The loop produces one prediction for each unrated movie and for nothing
      else, in column order, and never one for a rated movie. */
  lemma PredictionsExactlyUnrated(S: Similarity, w: RatingVector)
    ensures PredictionIds(Predictions(S, w)) == Unrated(S.cols, w)
    ensures forall e :: e in Predictions(S, w) ==>
      e.movie in S.cols && IsUnrated(w, e.movie) && !IsRated(w, e.movie) && e.score == Predict(S, w, e.movie)
    ensures forall m :: m in S.cols && IsUnrated(w, m) ==> Prediction(m, Predict(S, w, m)) in Predictions(S, w)
    ensures Distinct(S.cols) ==> Distinct(PredictionIds(Predictions(S, w)))
    ensures forall i, j :: 0 <= i < j < |Predictions(S, w)| ==>
      Before(S.cols, Predictions(S, w)[i].movie, Predictions(S, w)[j].movie)
  {
    var ps := Predictions(S, w);
    var u := Unrated(S.cols, w);
    assert PredictionIds(ps) == u;
    forall m | m in S.cols && IsUnrated(w, m)
      ensures Prediction(m, Predict(S, w, m)) in ps
    {
      var i :| 0 <= i < |u| && u[i] == m;
      assert ps[i] == Prediction(m, Predict(S, w, m));
    }
    forall i, j | 0 <= i < j < |ps|
      ensures Before(S.cols, ps[i].movie, ps[j].movie)
    {
      assert u[i] == ps[i].movie && u[j] == ps[j].movie;
      UnratedInColumnOrder(S.cols, w, u[i], u[j]);
    }
  }
}
