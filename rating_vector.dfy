/** The rating-vector builder of `get_recommended_movies`: start from a series
    indexed by the similarity matrix's columns with every entry unset, then
    write each supplied rating into it. */
module RatingVectors {
  import opened Seqs
  import opened Tables

  /** The series the builder leaves behind: every column label and every
      supplied id is a label; a supplied id holds its rating, every other
      label is unset. An id outside the columns becomes a new label, as a
      label assignment enlarges a pandas series. */
  function RatingVectorOf(cols: seq<Id>, ratings: map<Id, int>): RatingVector
  {
    map k | k in Elems(cols) + ratings.Keys :: if k in ratings then Some(ratings[k] as real) else None
  }

  /** Exactly the supplied ids are rated, each with its own rating; when every
      supplied id is a column the labels are exactly the columns. */
  lemma RatingVectorOfExact(cols: seq<Id>, ratings: map<Id, int>)
    ensures RatingVectorOf(cols, ratings).Keys == Elems(cols) + ratings.Keys
    ensures forall k :: IsRated(RatingVectorOf(cols, ratings), k) <==> k in ratings
    ensures forall k :: k in ratings ==> RatingVectorOf(cols, ratings)[k] == Some(ratings[k] as real)
    ensures forall k :: k in cols && k !in ratings ==> IsUnrated(RatingVectorOf(cols, ratings), k)
    ensures ratings.Keys <= Elems(cols) ==> RatingVectorOf(cols, ratings).Keys == Elems(cols)
  {
  }

  /** `w = pd.Series(np.nan, index=S.columns)`, then `w[id] = rating` for each
      supplied pair. */
  method BuildRatingVector(cols: seq<Id>, ratings: map<Id, int>) returns (w: RatingVector)
    ensures w.Keys == Elems(cols) + ratings.Keys
    ensures forall k :: IsRated(w, k) <==> k in ratings
    ensures forall k :: k in ratings ==> w[k] == Some(ratings[k] as real)
    ensures forall k :: k in cols && k !in ratings ==> IsUnrated(w, k)
    ensures w == RatingVectorOf(cols, ratings)
  {
    w := map c | c in cols :: None;
    var pending := ratings.Keys;
    while pending != {}
      invariant pending <= ratings.Keys
      invariant w.Keys == Elems(cols) + (ratings.Keys - pending)
      invariant forall k :: k in w ==> w[k] == if k in ratings && k !in pending then Some(ratings[k] as real) else None
      decreases pending
    {
      var id :| id in pending;
      w := w[id := Some(ratings[id] as real)];
      pending := pending - {id};
    }
    assert w.Keys == RatingVectorOf(cols, ratings).Keys;
  }
}
