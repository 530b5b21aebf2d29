/** Sequence helpers shared by the recommender modules: distinctness, an
    order-preserving filter (the model of a boolean mask on a pandas index or
    column) and the relative order of two elements. */
module Seqs {

  function Min(a: int, b: int): int
  {
    if a <= b then a else b
  }

  /** No element occurs twice. */
  predicate Distinct<T(==)>(s: seq<T>)
  {
    forall i, j :: 0 <= i < j < |s| ==> s[i] != s[j]
  }

  /** The set of elements of a sequence. */
  function Elems<T(==)>(s: seq<T>): set<T>
  {
    set x | x in s
  }

  /** The elements of `s` that satisfy `p`, in their order in `s`. */
  function Filter<T(==)>(s: seq<T>, p: T -> bool): (r: seq<T>)
    ensures |r| <= |s|
    ensures forall x :: x in r ==> x in s && p(x)
    ensures forall x :: x in s && p(x) ==> x in r
    ensures Distinct(s) ==> Distinct(r)
  {
    if s == [] then []
    else if p(s[0]) then [s[0]] + Filter(s[1..], p)
    else Filter(s[1..], p)
  }

  /** `x` occurs at some position before some occurrence of `y`. */
  ghost predicate Before<T>(s: seq<T>, x: T, y: T)
  {
    exists i, j :: 0 <= i < j < |s| && s[i] == x && s[j] == y
  }

  lemma BeforeTail<T>(s: seq<T>, x: T, y: T)
    requires s != [] && Before(s[1..], x, y)
    ensures Before(s, x, y)
  {
    var i, j :| 0 <= i < j < |s[1..]| && s[1..][i] == x && s[1..][j] == y;
    assert s[i + 1] == x && s[j + 1] == y;
  }

  /** Filtering keeps the relative order of the elements it keeps. */
  lemma {:induction false} FilterKeepsOrder<T>(s: seq<T>, p: T -> bool, x: T, y: T)
    requires Before(s, x, y) && p(x) && p(y)
    ensures Before(Filter(s, p), x, y)
  {
    var i, j :| 0 <= i < j < |s| && s[i] == x && s[j] == y;
    var r := Filter(s[1..], p);
    if i == 0 {
      assert s[1..][j - 1] == y;
      assert y in r;
      var k :| 0 <= k < |r| && r[k] == y;
      assert Filter(s, p) == [x] + r;
      assert Filter(s, p)[0] == x && Filter(s, p)[k + 1] == y;
    } else {
      assert s[1..][i - 1] == x && s[1..][j - 1] == y;
      FilterKeepsOrder(s[1..], p, x, y);
      var a, b :| 0 <= a < b < |r| && r[a] == x && r[b] == y;
      if p(s[0]) {
        assert Filter(s, p) == [s[0]] + r;
        assert Filter(s, p)[a + 1] == x && Filter(s, p)[b + 1] == y;
      }
    }
  }

  /** Filtering never puts two elements in an order they did not have. */
  lemma {:induction false} FilterBeforeBack<T>(s: seq<T>, p: T -> bool, x: T, y: T)
    requires Before(Filter(s, p), x, y)
    ensures Before(s, x, y)
  {
    var r := Filter(s, p);
    var a, b :| 0 <= a < b < |r| && r[a] == x && r[b] == y;
    var t := Filter(s[1..], p);
    if p(s[0]) {
      assert r == [s[0]] + t;
      if a == 0 {
        assert t[b - 1] == y;
        assert y in s[1..];
        var k :| 0 <= k < |s[1..]| && s[1..][k] == y;
        assert s[0] == x && s[k + 1] == y;
      } else {
        assert t[a - 1] == x && t[b - 1] == y;
        FilterBeforeBack(s[1..], p, x, y);
        BeforeTail(s, x, y);
      }
    } else {
      assert r == t;
      FilterBeforeBack(s[1..], p, x, y);
      BeforeTail(s, x, y);
    }
  }

  /** In a sequence without repetitions, relative order is antisymmetric. */
  lemma DistinctBeforeAsymmetric<T>(s: seq<T>, x: T, y: T)
    requires Distinct(s) && Before(s, x, y)
    ensures !Before(s, y, x)
  {
  }

  /** A sequence has at most as many distinct elements as positions, and
      exactly as many when it has no repetitions. */
  lemma {:induction false} ElemsCard<T>(s: seq<T>)
    ensures |Elems(s)| <= |s|
    ensures Distinct(s) ==> |Elems(s)| == |s|
  {
    if s != [] {
      ElemsCard(s[1..]);
      assert Elems(s) == {s[0]} + Elems(s[1..]);
      if Distinct(s) {
        assert s[0] !in Elems(s[1..]);
      }
    }
  }

  /** Filtering out every element leaves nothing. */
  lemma {:induction false} FilterNone<T>(s: seq<T>, p: T -> bool)
    requires forall x :: x in s ==> !p(x)
    ensures Filter(s, p) == []
  {
    if s != [] {
      assert s[0] in s;
      FilterNone(s[1..], p);
    }
  }

  /** One step of `Filter` on a non-empty sequence. */
  lemma FilterStep<T>(s: seq<T>, p: T -> bool)
    requires s != []
    ensures Filter(s, p) == if p(s[0]) then [s[0]] + Filter(s[1..], p) else Filter(s[1..], p)
  {
  }

  /** Filtering with a predicate every element meets changes nothing. */
  lemma {:induction false} FilterAll<T>(s: seq<T>, p: T -> bool)
    requires forall x :: x in s ==> p(x)
    ensures Filter(s, p) == s
  {
    if s != [] {
      assert s[0] in s;
      FilterAll(s[1..], p);
      assert [s[0]] + s[1..] == s;
    }
  }

  /** A subset is no larger than its superset. */
  lemma SubsetCard<T>(a: set<T>, b: set<T>)
    requires a <= b
    ensures |a| <= |b|
  {
    assert b == a + (b - a);
  }
}
