/** The ranking step of `myIBCF`: `predictions.sort(key=..., reverse=True)`
    with an undefined prediction keyed as minus infinity. Python's sort is
    stable, also with `reverse=True`, so entries with equal keys keep their
    order. The sort is a library call, so it is modelled as a function: a
    stable insertion sort. */
module Ranking {
  import opened Seqs
  import opened Tables
  import opened Engine

  /** Key `a` is strictly greater than key `b`; an undefined key is below
      every defined one and equal to another undefined key. */
  predicate Outranks(a: Option<real>, b: Option<real>)
  {
    a.Some? && (b.None? || a.value > b.value)
  }

  /** Descending order: no entry outranks an entry before it. */
  ghost predicate SortedDesc(s: seq<Prediction>)
  {
    forall i, j :: 0 <= i < j < |s| ==> !Outranks(s[j].score, s[i].score)
  }

  /** The entries whose key equals `k`, in their order in `s`. */
  function WithScore(s: seq<Prediction>, k: Option<real>): seq<Prediction>
  {
    Filter(s, (e: Prediction) => e.score == k)
  }

  /** Places `x` before the first entry it does not rank below. */
  function Insert(x: Prediction, s: seq<Prediction>): seq<Prediction>
  {
    if s == [] then [x]
    else if !Outranks(s[0].score, x.score) then [x] + s
    else [s[0]] + Insert(x, s[1..])
  }

  /** The sorted list: `s[0]` inserted into the sorted rest. */
  function SortDesc(s: seq<Prediction>): seq<Prediction>
  {
    if s == [] then [] else Insert(s[0], SortDesc(s[1..]))
  }

  // ---------------------------------------------------------------------
  // Insert
  // ---------------------------------------------------------------------

  lemma {:induction false} InsertPermutes(x: Prediction, s: seq<Prediction>)
    ensures multiset(Insert(x, s)) == multiset(s) + multiset{x}
  {
    if s != [] && Outranks(s[0].score, x.score) {
      InsertPermutes(x, s[1..]);
      assert s == [s[0]] + s[1..];
    }
  }

  lemma {:induction false} InsertSorted(x: Prediction, s: seq<Prediction>)
    requires SortedDesc(s)
    ensures SortedDesc(Insert(x, s))
  {
    if s != [] && Outranks(s[0].score, x.score) {
      InsertSorted(x, s[1..]);
      forall e | e in s[1..]
        ensures !Outranks(e.score, s[0].score)
      {
        var j :| 0 <= j < |s[1..]| && s[1..][j] == e;
        assert s[j + 1] == e;
      }
      InsertBelow(x, s[1..], s[0].score);
      SortedCons(s[0], Insert(x, s[1..]));
    }
  }

  /** Inserting an entry that does not outrank `k` into entries none of
      which outranks `k` keeps that bound. */
  lemma InsertBelow(x: Prediction, s: seq<Prediction>, k: Option<real>)
    requires forall e :: e in s ==> !Outranks(e.score, k)
    requires !Outranks(x.score, k)
    ensures forall e :: e in Insert(x, s) ==> !Outranks(e.score, k)
  {
    InsertPermutes(x, s);
    forall e | e in Insert(x, s)
      ensures !Outranks(e.score, k)
    {
      assert e in multiset(Insert(x, s));
      if e != x {
        assert e in multiset(s);
      }
    }
  }

  /** A sorted list stays sorted behind a head that nothing in it outranks. */
  lemma SortedCons(a: Prediction, r: seq<Prediction>)
    requires SortedDesc(r)
    requires forall e :: e in r ==> !Outranks(e.score, a.score)
    ensures SortedDesc([a] + r)
  {
    forall i, j | 0 <= i < j < |[a] + r|
      ensures !Outranks(([a] + r)[j].score, ([a] + r)[i].score)
    {
      if i == 0 {
        assert ([a] + r)[j] == r[j - 1];
        assert r[j - 1] in r;
      } else {
        assert ([a] + r)[j] == r[j - 1] && ([a] + r)[i] == r[i - 1];
      }
    }
  }

  /** Inserting an entry prepends it to its key class and leaves every other
      key class unchanged. */
  lemma {:induction false} InsertStable(x: Prediction, s: seq<Prediction>, k: Option<real>)
    ensures WithScore(Insert(x, s), k) == if x.score == k then [x] + WithScore(s, k) else WithScore(s, k)
  {
    if s == [] {
      assert WithScore([x], k) == (if x.score == k then [x] else []) + WithScore([], k);
    } else if !Outranks(s[0].score, x.score) {
      FilterCons(x, s, k);
    } else {
      InsertStable(x, s[1..], k);
      FilterCons(s[0], Insert(x, s[1..]), k);
      FilterCons(s[0], s[1..], k);
      assert [s[0]] + s[1..] == s;
    }
  }

  lemma FilterCons(x: Prediction, s: seq<Prediction>, k: Option<real>)
    ensures WithScore([x] + s, k) == if x.score == k then [x] + WithScore(s, k) else WithScore(s, k)
  {
    assert ([x] + s)[0] == x && ([x] + s)[1..] == s;
  }

  lemma {:induction false} InsertDistinct(x: Prediction, s: seq<Prediction>)
    requires Distinct(s) && x !in s
    ensures Distinct(Insert(x, s))
  {
    if s != [] && Outranks(s[0].score, x.score) {
      InsertDistinct(x, s[1..]);
      InsertPermutes(x, s[1..]);
      var r := Insert(x, s[1..]);
      assert s[0] != x;
      assert s[0] !in s[1..];
      assert s[0] !in multiset(r);
      forall i, j | 0 <= i < j < |[s[0]] + r|
        ensures ([s[0]] + r)[i] != ([s[0]] + r)[j]
      {
        if i == 0 {
          assert ([s[0]] + r)[j] == r[j - 1];
          assert r[j - 1] in multiset(r);
        } else {
          assert ([s[0]] + r)[j] == r[j - 1] && ([s[0]] + r)[i] == r[i - 1];
        }
      }
    }
  }

  // ---------------------------------------------------------------------
  // SortDesc
  // ---------------------------------------------------------------------

  /** The sort returns a permutation of its input: the same entries, each as
      often as before. */
  lemma {:induction false} SortDescPermutes(s: seq<Prediction>)
    ensures multiset(SortDesc(s)) == multiset(s)
    ensures |SortDesc(s)| == |s|
    ensures forall e :: e in SortDesc(s) <==> e in s
  {
    SortDescMultiset(s);
    assert |multiset(SortDesc(s))| == |multiset(s)|;
    forall e
      ensures e in SortDesc(s) <==> e in s
    {
      assert e in SortDesc(s) <==> e in multiset(SortDesc(s));
    }
  }

  lemma {:induction false} SortDescMultiset(s: seq<Prediction>)
    ensures multiset(SortDesc(s)) == multiset(s)
  {
    if s != [] {
      SortDescMultiset(s[1..]);
      InsertPermutes(s[0], SortDesc(s[1..]));
      assert s == [s[0]] + s[1..];
    }
  }

  /** The sort returns its input in descending order of key. */
  lemma {:induction false} SortDescSorted(s: seq<Prediction>)
    ensures SortedDesc(SortDesc(s))
  {
    if s != [] {
      SortDescSorted(s[1..]);
      InsertSorted(s[0], SortDesc(s[1..]));
    }
  }

  /** Stability: the entries with any one key appear in the sorted list in
      exactly the order they had in the input. */
  lemma {:induction false} SortDescStable(s: seq<Prediction>, k: Option<real>)
    ensures WithScore(SortDesc(s), k) == WithScore(s, k)
  {
    if s != [] {
      SortDescStable(s[1..], k);
      InsertStable(s[0], SortDesc(s[1..]), k);
      FilterCons(s[0], s[1..], k);
      assert [s[0]] + s[1..] == s;
    }
  }

  lemma {:induction false} SortDescDistinct(s: seq<Prediction>)
    requires Distinct(s)
    ensures Distinct(SortDesc(s))
  {
    if s != [] {
      SortDescDistinct(s[1..]);
      SortDescPermutes(s[1..]);
      InsertDistinct(s[0], SortDesc(s[1..]));
    }
  }

  /** A defined prediction greater than another, or any defined prediction
      against an undefined one, is placed first. */
  lemma HigherComesFirst(s: seq<Prediction>, i: int, j: int)
    requires 0 <= i < |SortDesc(s)| && 0 <= j < |SortDesc(s)|
    requires Outranks(SortDesc(s)[i].score, SortDesc(s)[j].score)
    ensures i < j
  {
    SortDescSorted(s);
  }

  /** Every defined prediction precedes every undefined one. */
  lemma DefinedBeforeUndefined(s: seq<Prediction>, i: int, j: int)
    requires 0 <= i < |SortDesc(s)| && 0 <= j < |SortDesc(s)|
    requires SortDesc(s)[i].score.Some? && SortDesc(s)[j].score.None?
    ensures i < j
  {
    HigherComesFirst(s, i, j);
  }

  /** Ties keep their input order: two entries with equal keys, in the sorted
      list in one order, occurred in the input in that order, and (when the
      input has no repeated entry) not in the other. */
  lemma TiesKeepInputOrder(s: seq<Prediction>, i: int, j: int)
    requires 0 <= i < j < |SortDesc(s)|
    requires SortDesc(s)[i].score == SortDesc(s)[j].score
    ensures Before(s, SortDesc(s)[i], SortDesc(s)[j])
    ensures Distinct(s) ==> !Before(s, SortDesc(s)[j], SortDesc(s)[i])
  {
    var r := SortDesc(s);
    var k := r[i].score;
    var x, y := r[i], r[j];
    assert Before(r, x, y);
    FilterKeepsOrder(r, (e: Prediction) => e.score == k, x, y);
    SortDescStable(s, k);
    FilterBeforeBack(s, (e: Prediction) => e.score == k, x, y);
    if Distinct(s) {
      DistinctBeforeAsymmetric(s, x, y);
    }
  }

  /** When no prediction is defined every key is equal, and the stable sort
      leaves the list as it was. */
  lemma {:induction false} SortAllUndefined(s: seq<Prediction>)
    requires forall e :: e in s ==> e.score.None?
    ensures SortDesc(s) == s
  {
    if s != [] {
      assert s[0] in s;
      SortAllUndefined(s[1..]);
      if s[1..] != [] {
        assert s[1..][0] in s;
      }
      assert [s[0]] + s[1..] == s;
    }
  }
}
