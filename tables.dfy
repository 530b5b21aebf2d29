/** The two tables the recommender loads once at start-up, and the per-request
    rating vector. Both tables are immutable inputs of every operation. */
module Tables {
  import opened Seqs

  /** A movie identifier, as it appears in the similarity matrix's header. */
  type Id = string

  /** A value that may be missing: an unset rating, an undefined similarity
      cell or an undefined prediction (NaN in the source). */
  datatype Option<T> = None | Some(value: T)

  /** One row of the catalog table (the 100 popular movies, in popularity
      order); `title` stands for the metadata the caller renders. */
  datatype Movie = Movie(id: Id, title: string)

  /** The square item-item similarity matrix: row and column labels are both
      `cols`, and a cell absent from `cells` is undefined (NaN). */
  datatype Similarity = Similarity(cols: seq<Id>, cells: map<(Id, Id), real>)

  /** The cell S[m, j]. */
  function Get(S: Similarity, m: Id, j: Id): Option<real>
  {
    if (m, j) in S.cells then Some(S.cells[(m, j)]) else None
  }

  /** The user's rating vector: a label-indexed float series whose entries
      are either a rating or unset (NaN). */
  type RatingVector = map<Id, Option<real>>

  /** `j` is a label of `w` holding a rating (the labels of `w.dropna()`). */
  predicate IsRated(w: RatingVector, j: Id)
  {
    j in w && w[j].Some?
  }

  /** `j` is a label of `w` whose entry is unset (the labels of `w[w.isna()]`). */
  predicate IsUnrated(w: RatingVector, j: Id)
  {
    j in w && w[j].None?
  }

  /** The `movie_id` column of a table of movies. */
  function MovieIds(rows: seq<Movie>): (ids: seq<Id>)
    ensures |ids| == |rows|
    ensures forall i :: 0 <= i < |rows| ==> ids[i] == rows[i].id
  {
    seq(|rows|, i requires 0 <= i < |rows| => rows[i].id)
  }
}
