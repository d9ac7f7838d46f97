/** Helpers for tables held as sequences of rows: an optional value, the
    queryset `.filter` that keeps rows in table order, and pairwise
    constraints (strictly increasing ids, uniqueness) over a table. */
module Rows {

  datatype Option<+T> = None | Some(value: T)

  /** The rows of `s` that satisfy `p`, in their original order. */
  function Filter<T(!new)>(s: seq<T>, p: T -> bool): (r: seq<T>)
    ensures |r| <= |s|
    ensures forall x :: x in r <==> x in s && p(x)
    decreases |s|
  {
    if s == [] then []
    else if p(s[0]) then [s[0]] + Filter(s[1..], p)
    else Filter(s[1..], p)
  }

  /** Every earlier row stands in `rel` to every later row. */
  ghost predicate Pairwise<T>(s: seq<T>, rel: (T, T) -> bool) {
    forall i, j :: 0 <= i < j < |s| ==> rel(s[i], s[j])
  }

  /** Under an irreflexive pairwise constraint (such as strictly increasing
      ids) no row occurs twice. */
  lemma {:induction false} PairwiseOnce<T>(s: seq<T>, rel: (T, T) -> bool)
    requires Pairwise(s, rel)
    requires forall x :: !rel(x, x)
    ensures forall x :: multiset(s)[x] <= 1
    decreases |s|
  {
    if s != [] {
      PairwiseOnce(s[1..], rel);
      assert s == [s[0]] + s[1..];
      forall j | 0 <= j < |s| - 1 ensures s[1..][j] != s[0] {
        assert rel(s[0], s[1 + j]);
      }
    }
  }

  /** Filtering keeps rows in order, so it keeps every pairwise constraint. */
  lemma {:induction false} FilterPairwise<T(!new)>(s: seq<T>, p: T -> bool, rel: (T, T) -> bool)
    requires Pairwise(s, rel)
    ensures Pairwise(Filter(s, p), rel)
    decreases |s|
  {
    if s != [] {
      var tail := s[1..];
      assert Pairwise(tail, rel) by {
        forall i, j | 0 <= i < j < |tail| ensures rel(tail[i], tail[j]) {
          assert tail[i] == s[i + 1] && tail[j] == s[j + 1];
        }
      }
      FilterPairwise(tail, p, rel);
      var t := Filter(tail, p);
      if p(s[0]) {
        var r := [s[0]] + t;
        forall i, j | 0 <= i < j < |r| ensures rel(r[i], r[j]) {
          assert r[j] == t[j - 1];
          if i == 0 {
            assert t[j - 1] in tail;
            var k :| 0 <= k < |tail| && tail[k] == t[j - 1];
            assert s[k + 1] == t[j - 1];
          } else {
            assert r[i] == t[i - 1];
          }
        }
      }
    }
  }

  /** Appending a row keeps a pairwise constraint when the new row stands
      in the relation to every row already there. */
  lemma AppendPairwise<T>(s: seq<T>, x: T, rel: (T, T) -> bool)
    requires Pairwise(s, rel)
    requires forall y :: y in s ==> rel(y, x)
    ensures Pairwise(s + [x], rel)
  {
    var r := s + [x];
    forall i, j | 0 <= i < j < |r| ensures rel(r[i], r[j]) {
      assert r[i] == s[i];
      if j < |s| {
        assert r[j] == s[j];
      } else {
        assert s[i] in s;
      }
    }
  }

  /** The larger of `x` and 0. */
  function Floor0(x: int): (r: nat)
    ensures r >= x && (r == 0 || r == x)
  {
    if x < 0 then 0 else x
  }

  lemma {:induction false} FilterConcat<T(!new)>(a: seq<T>, b: seq<T>, p: T -> bool)
    ensures Filter(a + b, p) == Filter(a, p) + Filter(b, p)
    decreases |a|
  {
    if a != [] {
      var ab := a + b;
      assert ab != [] && ab[0] == a[0] && ab[1..] == a[1..] + b;
      FilterConcat(a[1..], b, p);
    } else {
      assert a + b == b;
    }
  }

  /** A table split around row `k`. */
  lemma FilterSplit<T(!new)>(s: seq<T>, k: nat, p: T -> bool)
    requires k < |s|
    ensures Filter(s, p) == Filter(s[..k], p) + Filter([s[k]], p) + Filter(s[k + 1..], p)
  {
    var a, b, c := s[..k], [s[k]], s[k + 1..];
    calc {
      Filter(s, p);
      { SplitAt(s, k); }
      Filter(a + (b + c), p);
      { FilterConcat(a, b + c, p); }
      Filter(a, p) + Filter(b + c, p);
      { FilterConcat(b, c, p); }
      Filter(a, p) + (Filter(b, p) + Filter(c, p));
      { ConcatAssoc(Filter(a, p), Filter(b, p), Filter(c, p)); }
      Filter(a, p) + Filter(b, p) + Filter(c, p);
    }
  }

  lemma SplitAt<T>(s: seq<T>, k: nat)
    requires k < |s|
    ensures s == s[..k] + ([s[k]] + s[k + 1..])
  {
    assert s[k..] == [s[k]] + s[k + 1..];
    assert s == s[..k] + s[k..];
  }

  lemma ConcatAssoc<T>(a: seq<T>, b: seq<T>, c: seq<T>)
    ensures a + (b + c) == a + b + c
  {
  }

  lemma {:induction false} FilterAll<T(!new)>(s: seq<T>, p: T -> bool)
    requires forall x :: x in s ==> p(x)
    ensures Filter(s, p) == s
    decreases |s|
  {
    if s != [] {
      assert s[0] in s;
      FilterAll(s[1..], p);
      assert s == [s[0]] + s[1..];
    }
  }

  lemma FilterNone<T(!new)>(s: seq<T>, p: T -> bool)
    requires forall x :: x in s ==> !p(x)
    ensures Filter(s, p) == []
  {
    if Filter(s, p) != [] {
      assert Filter(s, p)[0] in Filter(s, p);
    }
  }

  /** Replacing one row by another that the filter treats alike. */
  lemma FilterUpdate<T(!new)>(s: seq<T>, k: nat, y: T, p: T -> bool)
    requires k < |s| && p(s[k]) == p(y)
    ensures !p(y) ==> Filter(s[k := y], p) == Filter(s, p)
    ensures p(y) ==> Filter(s[k := y], p) == Filter(s[..k], p) + [y] + Filter(s[k + 1..], p)
    ensures p(y) ==> Filter(s, p) == Filter(s[..k], p) + [s[k]] + Filter(s[k + 1..], p)
  {
    var t := s[k := y];
    assert t[..k] == s[..k] && t[k + 1..] == s[k + 1..] && t[k] == y;
    FilterSplit(s, k, p);
    FilterSplit(t, k, p);
    FilterSingle(s[k], p);
    FilterSingle(y, p);
  }

  lemma FilterSingle<T(!new)>(x: T, p: T -> bool)
    ensures Filter([x], p) == if p(x) then [x] else []
  {
    assert [x][1..] == [];
  }
}
