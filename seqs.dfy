/** Generic sequence operations used by the table transformations:
    row filtering (`query`, `isin`), and a stable sort (`sort_values` on several columns). */
module Seqs {

  /** The column obtained by applying `f` to every row. */
  function Map<T, U>(f: T -> U, s: seq<T>): (r: seq<U>)
    ensures |r| == |s|
    ensures forall i :: 0 <= i < |s| ==> r[i] == f(s[i])
  {
    seq(|s|, i requires 0 <= i < |s| => f(s[i]))
  }

  /** `a` can be obtained from `b` by deleting elements (checked greedily from the right). */
  predicate IsSubsequence<T(==)>(a: seq<T>, b: seq<T>)
    decreases |b|
  {
    if a == [] then true
    else if b == [] then false
    else if a[|a| - 1] == b[|b| - 1] then IsSubsequence(a[..|a| - 1], b[..|b| - 1])
    else IsSubsequence(a, b[..|b| - 1])
  }

  /** The rows of `s` that satisfy `p`, in their original order. */
  function Filter<T(==, !new)>(p: T -> bool, s: seq<T>): (r: seq<T>)
    ensures |r| <= |s|
    ensures forall x :: x in r <==> x in s && p(x)
    decreases |s|
  {
    if s == [] then []
    else
      var init, last := s[..|s| - 1], s[|s| - 1];
      assert s == init + [last];
      if p(last) then Filter(p, init) + [last] else Filter(p, init)
  }

  /** Every satisfying row is kept as often as it occurs; no other row is. */
  lemma {:induction false} FilterCount<T(!new)>(p: T -> bool, s: seq<T>)
    ensures forall x :: multiset(Filter(p, s))[x] == if p(x) then multiset(s)[x] else 0
    decreases |s|
  {
    if s != [] {
      var init, last := s[..|s| - 1], s[|s| - 1];
      assert s == init + [last];
      FilterCount(p, init);
    }
  }

  /** Filtering keeps the relative order of the rows. */
  lemma {:induction false} FilterIsSubsequence<T(!new)>(p: T -> bool, s: seq<T>)
    ensures IsSubsequence(Filter(p, s), s)
    decreases |s|
  {
    if s != [] {
      var init, last := s[..|s| - 1], s[|s| - 1];
      var r := Filter(p, init);
      FilterIsSubsequence(p, init);
      if p(last) {
        assert (r + [last])[..|r|] == r;
      } else if r != [] {
        assert r[|r| - 1] in r;
      }
    }
  }

  lemma {:induction false} FilterConcat<T(!new)>(p: T -> bool, a: seq<T>, b: seq<T>)
    ensures Filter(p, a + b) == Filter(p, a) + Filter(p, b)
    decreases |b|
  {
    if b == [] {
      assert a + b == a;
    } else {
      var b' := b[..|b| - 1];
      assert (a + b)[..|a + b| - 1] == a + b';
      assert (a + b)[|a + b| - 1] == b[|b| - 1];
      FilterConcat(p, a, b');
    }
  }

  /** `le` is total and transitive: a sort key order with possible ties. */
  ghost predicate TotalPreorder<T(!new)>(le: (T, T) -> bool)
  {
    (forall x, y :: le(x, y) || le(y, x)) &&
    (forall x, y, z :: le(x, y) && le(y, z) ==> le(x, z))
  }

  /** Every earlier element is `le` every later one. */
  predicate Sorted<T>(le: (T, T) -> bool, s: seq<T>)
  {
    forall i, j :: 0 <= i < j < |s| ==> le(s[i], s[j])
  }

  /** The elements tied with `c` under `le`. */
  function TiedWith<T>(le: (T, T) -> bool, c: T): T -> bool
  {
    y => le(c, y) && le(y, c)
  }

  /** Inserts `x` in front of the first element it is `le` to. */
  function Insert<T>(le: (T, T) -> bool, x: T, s: seq<T>): (r: seq<T>)
    ensures multiset(r) == multiset(s) + multiset{x}
    ensures |r| == |s| + 1
  {
    if s == [] || le(x, s[0]) then [x] + s
    else
      assert s == [s[0]] + s[1..];
      [s[0]] + Insert(le, x, s[1..])
  }

  /** Stable insertion sort: the order of tied elements is the input order. */
  function SortBy<T>(le: (T, T) -> bool, s: seq<T>): (r: seq<T>)
    ensures multiset(r) == multiset(s)
    ensures |r| == |s|
  {
    if s == [] then []
    else
      assert s == [s[0]] + s[1..];
      Insert(le, s[0], SortBy(le, s[1..]))
  }

  lemma {:induction false} InsertSorted<T(!new)>(le: (T, T) -> bool, x: T, s: seq<T>)
    requires TotalPreorder(le) && Sorted(le, s)
    ensures Sorted(le, Insert(le, x, s))
  {
    if s == [] || le(x, s[0]) {
    } else {
      var t := Insert(le, x, s[1..]);
      InsertSorted(le, x, s[1..]);
      assert forall y :: y in t ==> y == x || y in s[1..] by {
        forall y | y in t ensures y == x || y in s[1..] {
          assert y in multiset(t);
        }
      }
      forall i, j | 0 <= i < j < |[s[0]] + t| ensures le(([s[0]] + t)[i], ([s[0]] + t)[j]) {
        if i == 0 {
          assert t[j - 1] in t;
        }
      }
    }
  }

  lemma {:induction false} SortBySorted<T(!new)>(le: (T, T) -> bool, s: seq<T>)
    requires TotalPreorder(le)
    ensures Sorted(le, SortBy(le, s))
  {
    if s != [] {
      SortBySorted(le, s[1..]);
      InsertSorted(le, s[0], SortBy(le, s[1..]));
    }
  }

  lemma FilterSingleton<T(!new)>(p: T -> bool, y: T)
    ensures Filter(p, [y]) == if p(y) then [y] else []
  {
    assert [y][..0] == [];
  }

  /** Moving `y` in front of `x` does not change the filtered result when at most one of them is kept. */
  lemma FilterSwapFront<T(!new)>(p: T -> bool, x: T, y: T, u: seq<T>, v: seq<T>)
    requires !(p(x) && p(y))
    requires Filter(p, u) == Filter(p, [x] + v)
    ensures Filter(p, [y] + u) == Filter(p, [x] + ([y] + v))
  {
    FilterSingleton(p, x);
    FilterSingleton(p, y);
    FilterConcat(p, [y], u);
    FilterConcat(p, [x], v);
    FilterConcat(p, [y], v);
    FilterConcat(p, [x], [y] + v);
  }

  lemma {:induction false} InsertStable<T(!new)>(le: (T, T) -> bool, x: T, s: seq<T>, c: T)
    requires TotalPreorder(le)
    ensures Filter(TiedWith(le, c), Insert(le, x, s)) == Filter(TiedWith(le, c), [x] + s)
  {
    var p := TiedWith(le, c);
    if s != [] && !le(x, s[0]) {
      var s0, s1 := s[0], s[1..];
      assert !(p(x) && p(s0));
      InsertStable(le, x, s1, c);
      FilterSwapFront(p, x, s0, Insert(le, x, s1), s1);
      assert s == [s0] + s1;
    }
  }

  /** Tied elements keep their relative input order. */
  lemma {:induction false} SortByStable<T(!new)>(le: (T, T) -> bool, s: seq<T>, c: T)
    requires TotalPreorder(le)
    ensures Filter(TiedWith(le, c), SortBy(le, s)) == Filter(TiedWith(le, c), s)
  {
    if s != [] {
      var p := TiedWith(le, c);
      var t := SortBy(le, s[1..]);
      InsertStable(le, s[0], t, c);
      SortByStable(le, s[1..], c);
      FilterConcat(p, [s[0]], t);
      FilterConcat(p, [s[0]], s[1..]);
      assert s == [s[0]] + s[1..];
    }
  }

  /** Sorting an already sorted sequence leaves it as it is. */
  lemma {:induction false} SortByOfSorted<T>(le: (T, T) -> bool, s: seq<T>)
    requires Sorted(le, s)
    ensures SortBy(le, s) == s
  {
    if s != [] {
      assert Sorted(le, s[1..]);
      SortByOfSorted(le, s[1..]);
      assert s == [s[0]] + s[1..];
    }
  }

  /** Deleting rows from a sorted sequence leaves it sorted. */
  lemma {:induction false} FilterSorted<T(!new)>(le: (T, T) -> bool, p: T -> bool, s: seq<T>)
    requires Sorted(le, s)
    ensures Sorted(le, Filter(p, s))
    decreases |s|
  {
    if s != [] {
      var init, last := s[..|s| - 1], s[|s| - 1];
      assert Sorted(le, init);
      FilterSorted(le, p, init);
      var r := Filter(p, init);
      if p(last) {
        forall i, j | 0 <= i < j < |r + [last]| ensures le((r + [last])[i], (r + [last])[j]) {
          if j == |r| {
            assert r[i] in r;
            var k :| 0 <= k < |init| && init[k] == r[i];
            assert s[k] == r[i] && s[|s| - 1] == last;
          }
        }
      }
    }
  }
}
