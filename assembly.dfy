/** The result assembler of `myIBCF`: the first K sorted predictions, padded
    from the catalog (popularity) order when fewer than K movies are unrated,
    then the catalog rows whose id was chosen, in catalog order. */
module Assembly {
  import opened Seqs
  import opened Tables
  import opened Engine
  import opened Ranking

  /** The number of recommendations. */
  const K: nat := 10

  /** `[movie_idx for movie_idx, _ in predictions[:10]]`. */
  function TopIds(sorted: seq<Prediction>): seq<Id>
  {
    PredictionIds(sorted[..Min(K, |sorted|)])
  }

  /** The primary selection: the top K of the sorted predictions. */
  function PrimaryIds(S: Similarity, w: RatingVector): seq<Id>
  {
    TopIds(SortDesc(Predictions(S, w)))
  }

  /** `remaining_movies`: the catalog ids, in catalog order, that are neither
      rated nor already chosen. */
  function Remaining(catalog: seq<Movie>, w: RatingVector, primary: seq<Id>): seq<Id>
  {
    Filter(MovieIds(catalog), id => !IsRated(w, id) && id !in primary)
  }

  /** `remaining_movies[:10 - len(top_10_movie_ids)]`, on the branch where the
      primary selection is short. */
  function Padding(catalog: seq<Movie>, w: RatingVector, primary: seq<Id>): seq<Id>
  {
    var rem := Remaining(catalog, w, primary);
    var room := if |primary| < K then K - |primary| else 0;
    rem[..Min(room, |rem|)]
  }

  /** The chosen ids: the primary selection, followed by the padding when it
      has fewer than K ids. */
  function Chosen(catalog: seq<Movie>, w: RatingVector, primary: seq<Id>): seq<Id>
  {
    if |primary| < K then primary + Padding(catalog, w, primary) else primary
  }

  /** `movies[movies['movie_id'].isin(chosen)]`: the catalog rows whose id
      was chosen, in catalog order. */
  function CatalogRows(catalog: seq<Movie>, chosen: seq<Id>): seq<Movie>
  {
    Filter(catalog, (r: Movie) => r.id in chosen)
  }

  /** What `myIBCF` returns for the rating vector `w`. */
  function RecommendationRows(S: Similarity, catalog: seq<Movie>, w: RatingVector): seq<Movie>
  {
    CatalogRows(catalog, Chosen(catalog, w, PrimaryIds(S, w)))
  }

  // ---------------------------------------------------------------------
  // The primary selection
  // ---------------------------------------------------------------------

  /** Entries of the prediction list are determined by their movie, so
      distinct movies make distinct entries, before and after sorting. */
  lemma SortedIdsDistinct(S: Similarity, w: RatingVector)
    requires Distinct(S.cols)
    ensures Distinct(PredictionIds(SortDesc(Predictions(S, w))))
  {
    var ps := Predictions(S, w);
    PredictionsExactlyUnrated(S, w);
    assert Distinct(ps) by {
      forall i, j | 0 <= i < j < |ps|
        ensures ps[i] != ps[j]
      {
        assert PredictionIds(ps)[i] == ps[i].movie && PredictionIds(ps)[j] == ps[j].movie;
      }
    }
    SortDescDistinct(ps);
    SortDescPermutes(ps);
    var r := SortDesc(ps);
    forall i, j | 0 <= i < j < |r|
      ensures r[i].movie != r[j].movie
    {
      assert r[i] in ps && r[j] in ps;
    }
  }

  /** The primary selection holds the first min(K, |unrated|) sorted
      predictions: it has that length, repeats no id, holds only unrated
      columns and, when at most K movies are unrated, holds all of them. */
  lemma PrimarySelection(S: Similarity, w: RatingVector)
    ensures |PrimaryIds(S, w)| == Min(K, |Unrated(S.cols, w)|)
    ensures forall id :: id in PrimaryIds(S, w) ==> id in S.cols && IsUnrated(w, id) && !IsRated(w, id)
    ensures Distinct(S.cols) ==> Distinct(PrimaryIds(S, w))
    ensures |Unrated(S.cols, w)| <= K ==> forall m :: m in Unrated(S.cols, w) ==> m in PrimaryIds(S, w)
  {
    PrimaryUnrated(S, w);
    if Distinct(S.cols) {
      PrimaryDistinct(S, w);
    }
    if |Unrated(S.cols, w)| <= K {
      PrimaryComplete(S, w);
    }
  }

  lemma PrimaryUnrated(S: Similarity, w: RatingVector)
    ensures |PrimaryIds(S, w)| == Min(K, |Unrated(S.cols, w)|)
    ensures forall id :: id in PrimaryIds(S, w) ==> id in S.cols && IsUnrated(w, id) && !IsRated(w, id)
  {
    var ps := Predictions(S, w);
    var r := SortDesc(ps);
    PredictionsExactlyUnrated(S, w);
    SortDescPermutes(ps);
    var ids := PrimaryIds(S, w);
    forall id | id in ids
      ensures id in S.cols && IsUnrated(w, id) && !IsRated(w, id)
    {
      var i :| 0 <= i < |ids| && ids[i] == id;
      assert r[i] in r;
    }
  }

  lemma PrimaryDistinct(S: Similarity, w: RatingVector)
    requires Distinct(S.cols)
    ensures Distinct(PrimaryIds(S, w))
  {
    var r := SortDesc(Predictions(S, w));
    var n := Min(K, |r|);
    SortedIdsDistinct(S, w);
    assert PredictionIds(r[..n]) == PredictionIds(r)[..n];
  }

  lemma PrimaryComplete(S: Similarity, w: RatingVector)
    requires |Unrated(S.cols, w)| <= K
    ensures forall m :: m in Unrated(S.cols, w) ==> m in PrimaryIds(S, w)
  {
    var ps := Predictions(S, w);
    var r := SortDesc(ps);
    PredictionsExactlyUnrated(S, w);
    SortDescPermutes(ps);
    var ids := PrimaryIds(S, w);
    forall m | m in Unrated(S.cols, w)
      ensures m in ids
    {
      assert Prediction(m, Predict(S, w, m)) in r;
      var i :| 0 <= i < |r| && r[i] == Prediction(m, Predict(S, w, m));
      assert ids[i] == m;
    }
  }

  /** The primary selection is the best part of the ranking: no unrated movie
      left out has a prediction greater than one that was selected. */
  lemma PrimaryIsTop(S: Similarity, w: RatingVector, chosen: Id, left: Id)
    requires chosen in PrimaryIds(S, w)
    requires left in S.cols && IsUnrated(w, left) && left !in PrimaryIds(S, w)
    ensures !Outranks(Predict(S, w, left), Predict(S, w, chosen))
  {
    var ps := Predictions(S, w);
    var r := SortDesc(ps);
    var n := Min(K, |r|);
    var ids := PrimaryIds(S, w);
    PredictionsExactlyUnrated(S, w);
    SortDescPermutes(ps);
    SortDescSorted(ps);
    var i :| 0 <= i < |ids| && ids[i] == chosen;
    assert r[i] in ps;
    assert Prediction(left, Predict(S, w, left)) in r;
    var j :| 0 <= j < |r| && r[j] == Prediction(left, Predict(S, w, left));
    PrefixMoviesIn(r, n);
    assert j >= n;
    assert r[i].movie == chosen && r[i].score == Predict(S, w, chosen);
    assert !Outranks(r[j].score, r[i].score);
  }

  lemma PrefixMoviesIn(r: seq<Prediction>, n: int)
    requires 0 <= n <= |r|
    ensures forall j :: 0 <= j < n ==> r[j].movie in PredictionIds(r[..n])
  {
    forall j | 0 <= j < n
      ensures r[j].movie in PredictionIds(r[..n])
    {
      assert PredictionIds(r[..n])[j] == r[j].movie;
    }
  }

  // ---------------------------------------------------------------------
  // Padding
  // ---------------------------------------------------------------------

  /** The chosen ids start with the primary selection; padding happens only
      when it is shorter than K and adds only catalog ids that are neither
      rated nor already chosen, up to K ids in all. */
  lemma ChosenExtendsPrimary(catalog: seq<Movie>, w: RatingVector, primary: seq<Id>)
    ensures |primary| >= K ==> Chosen(catalog, w, primary) == primary
    ensures primary <= Chosen(catalog, w, primary)
    ensures |primary| <= K ==> |Chosen(catalog, w, primary)| <= K
    ensures forall id :: id in Chosen(catalog, w, primary)[|primary|..] ==>
      id in MovieIds(catalog) && !IsRated(w, id) && id !in primary
    ensures (forall id :: id in primary ==> !IsRated(w, id)) ==>
      forall id :: id in Chosen(catalog, w, primary) ==> !IsRated(w, id)
    ensures Distinct(primary) && Distinct(MovieIds(catalog)) ==> Distinct(Chosen(catalog, w, primary))
  {
    var c := Chosen(catalog, w, primary);
    if |primary| < K {
      var pad := Padding(catalog, w, primary);
      assert c[|primary|..] == pad;
      forall id | id in c
        ensures id in primary || id in pad
      {
        var i :| 0 <= i < |c| && c[i] == id;
        if i >= |primary| {
          assert pad[i - |primary|] == id;
        }
      }
      if Distinct(primary) && Distinct(MovieIds(catalog)) {
        var rem := Remaining(catalog, w, primary);
        assert Distinct(pad) by {
          forall a, b | 0 <= a < b < |pad|
            ensures pad[a] != pad[b]
          {
            assert pad[a] == rem[a] && pad[b] == rem[b];
          }
        }
        forall i, j | 0 <= i < j < |c|
          ensures c[i] != c[j]
        {
          if j >= |primary| {
            assert c[j] == pad[j - |primary|];
            assert c[j] in rem;
            if i >= |primary| {
              assert c[i] == pad[i - |primary|];
            } else {
              assert c[i] == primary[i];
              assert c[i] in primary;
            }
          } else {
            assert c[i] == primary[i] && c[j] == primary[j];
          }
        }
      }
    }
  }

  /** Padding stops only at K ids or when the catalog is exhausted: a short
      result holds every catalog id that is not rated. */
  lemma PaddingExhaustsCatalog(catalog: seq<Movie>, w: RatingVector, primary: seq<Id>, id: Id)
    requires |primary| < K && |Chosen(catalog, w, primary)| < K
    requires id in MovieIds(catalog) && !IsRated(w, id)
    ensures id in Chosen(catalog, w, primary)
  {
    var rem := Remaining(catalog, w, primary);
    if id !in primary {
      assert id in rem;
      assert Padding(catalog, w, primary) == rem;
      var i :| 0 <= i < |rem| && rem[i] == id;
      assert Chosen(catalog, w, primary)[|primary| + i] == id;
    }
  }

  /** Padding follows catalog order: an available id listed in the catalog
      before one that was added is added too. */
  lemma PaddingInCatalogOrder(catalog: seq<Movie>, w: RatingVector, primary: seq<Id>, x: Id, y: Id)
    requires Distinct(MovieIds(catalog))
    requires Before(MovieIds(catalog), x, y)
    requires !IsRated(w, x) && x !in primary
    requires y in Padding(catalog, w, primary)
    ensures x in Padding(catalog, w, primary)
  {
    var rem := Remaining(catalog, w, primary);
    var pad := Padding(catalog, w, primary);
    assert y in rem;
    FilterKeepsOrder(MovieIds(catalog), id => !IsRated(w, id) && id !in primary, x, y);
    var a, b :| 0 <= a < b < |rem| && rem[a] == x && rem[b] == y;
    var k :| 0 <= k < |pad| && pad[k] == y;
    assert rem[k] == y;
    assert a < |pad|;
    assert pad[a] == x;
  }

  // ---------------------------------------------------------------------
  // The returned rows
  // ---------------------------------------------------------------------

  lemma {:induction false} FilterIdsDistinct(rows: seq<Movie>, chosen: seq<Id>)
    requires Distinct(MovieIds(rows))
    ensures Distinct(MovieIds(CatalogRows(rows, chosen)))
  {
    if rows != [] {
      var t := rows[1..];
      assert MovieIds(t) == MovieIds(rows)[1..];
      FilterIdsDistinct(t, chosen);
      var ft := CatalogRows(t, chosen);
      if rows[0].id in chosen {
        var f := [rows[0]] + ft;
        forall i, j | 0 <= i < j < |f|
          ensures MovieIds(f)[i] != MovieIds(f)[j]
        {
          if i == 0 {
            assert f[j] == ft[j - 1] && ft[j - 1] in t;
            var k :| 0 <= k < |t| && t[k] == ft[j - 1];
            assert MovieIds(rows)[k + 1] == f[j].id;
          } else {
            assert f[i] == ft[i - 1] && f[j] == ft[j - 1];
            assert MovieIds(ft)[i - 1] == f[i].id && MovieIds(ft)[j - 1] == f[j].id;
          }
        }
      }
    }
  }

  /** The result is exactly the catalog rows whose id was chosen, in catalog
      order; with unique catalog ids it repeats no id and holds one row per
      chosen id that the catalog lists. */
  lemma CatalogRowsExact(catalog: seq<Movie>, chosen: seq<Id>)
    ensures forall r :: r in CatalogRows(catalog, chosen) <==> r in catalog && r.id in chosen
    ensures forall x, y :: Before(CatalogRows(catalog, chosen), x, y) ==> Before(catalog, x, y)
    ensures Distinct(MovieIds(catalog)) ==> Distinct(MovieIds(CatalogRows(catalog, chosen)))
    ensures Distinct(MovieIds(catalog)) ==> |CatalogRows(catalog, chosen)| <= |chosen|
    ensures Distinct(MovieIds(catalog)) && Distinct(chosen) && Elems(chosen) <= Elems(MovieIds(catalog)) ==>
      |CatalogRows(catalog, chosen)| == |chosen|
  {
    var rows := CatalogRows(catalog, chosen);
    forall x, y | Before(rows, x, y)
      ensures Before(catalog, x, y)
    {
      FilterBeforeBack(catalog, (r: Movie) => r.id in chosen, x, y);
    }
    if Distinct(MovieIds(catalog)) {
      FilterIdsDistinct(catalog, chosen);
      var ids := MovieIds(rows);
      ElemsCard(ids);
      ElemsCard(chosen);
      assert Elems(ids) <= Elems(chosen) by {
        forall id | id in Elems(ids)
          ensures id in Elems(chosen)
        {
          var i :| 0 <= i < |ids| && ids[i] == id;
          assert rows[i] in rows;
        }
      }
      SubsetCard(Elems(ids), Elems(chosen));
      if Distinct(chosen) && Elems(chosen) <= Elems(MovieIds(catalog)) {
        assert Elems(chosen) <= Elems(ids) by {
          forall id | id in Elems(chosen)
            ensures id in Elems(ids)
          {
            var i :| 0 <= i < |catalog| && MovieIds(catalog)[i] == id;
            assert catalog[i] in rows;
            var k :| 0 <= k < |rows| && rows[k] == catalog[i];
            assert ids[k] == id;
          }
        }
        SubsetCard(Elems(chosen), Elems(ids));
      }
    }
  }

  // ---------------------------------------------------------------------
  // The whole assembler
  // ---------------------------------------------------------------------

  /** No rated movie is ever recommended, and every recommended row is a
      catalog row. With unique columns and catalog ids the result repeats no
      movie and has at most K rows. */
  lemma RecommendationExcludesRated(S: Similarity, catalog: seq<Movie>, w: RatingVector)
    ensures forall r :: r in RecommendationRows(S, catalog, w) ==> r in catalog && !IsRated(w, r.id)
    ensures Distinct(S.cols) && Distinct(MovieIds(catalog)) ==>
      Distinct(MovieIds(RecommendationRows(S, catalog, w))) && |RecommendationRows(S, catalog, w)| <= K
  {
    var primary := PrimaryIds(S, w);
    PrimarySelection(S, w);
    ChosenExtendsPrimary(catalog, w, primary);
    var chosen := Chosen(catalog, w, primary);
    CatalogRowsExact(catalog, chosen);
  }

  /** When the catalog and the columns list the same unique movies and every
      column is a label of `w`, padding never adds anything and the result
      has exactly min(K, |unrated|) rows. */
  lemma RecommendationLength(S: Similarity, catalog: seq<Movie>, w: RatingVector)
    requires Distinct(S.cols) && Distinct(MovieIds(catalog))
    requires Elems(S.cols) == Elems(MovieIds(catalog))
    requires forall c :: c in S.cols ==> c in w
    ensures Chosen(catalog, w, PrimaryIds(S, w)) == PrimaryIds(S, w)
    ensures |RecommendationRows(S, catalog, w)| == Min(K, |Unrated(S.cols, w)|)
  {
    var primary := PrimaryIds(S, w);
    PrimarySelection(S, w);
    if |primary| < K {
      forall id | id in MovieIds(catalog)
        ensures !(!IsRated(w, id) && id !in primary)
      {
        assert id in Elems(S.cols);
        if !IsRated(w, id) {
          assert id in Unrated(S.cols, w);
        }
      }
      FilterNone(MovieIds(catalog), id => !IsRated(w, id) && id !in primary);
      assert Chosen(catalog, w, primary) == primary;
    }
    assert Elems(primary) <= Elems(MovieIds(catalog));
    CatalogRowsExact(catalog, primary);
  }

  /** When every column and every catalog id is rated, nothing is
      recommended. */
  lemma AllRatedRecommendsNothing(S: Similarity, catalog: seq<Movie>, w: RatingVector)
    requires forall c :: c in S.cols ==> IsRated(w, c)
    requires forall id :: id in MovieIds(catalog) ==> IsRated(w, id)
    ensures RecommendationRows(S, catalog, w) == []
  {
    var primary := PrimaryIds(S, w);
    PrimarySelection(S, w);
    FilterNone(S.cols, m => IsUnrated(w, m));
    assert primary == [];
    FilterNone(MovieIds(catalog), id => !IsRated(w, id) && id !in primary);
    assert Chosen(catalog, w, primary) == [];
    FilterNone(catalog, (r: Movie) => r.id in Chosen(catalog, w, primary));
  }
}
