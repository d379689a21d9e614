/** Target ids: their order, and the grouping of a table's id column. */
module Ids {
  import opened Wrappers
  import opened Seqs

  /** Python's `<=` on str: lexicographic by character, a proper prefix first. */
  predicate StrLe(a: string, b: string)
    decreases |a|
  {
    a == [] || (b != [] && (a[0] < b[0] || (a[0] == b[0] && StrLe(a[1..], b[1..]))))
  }

  lemma {:induction false} StrLeRefl(a: string)
    ensures StrLe(a, a)
    decreases |a|
  {
    if a != [] {
      StrLeRefl(a[1..]);
    }
  }

  lemma {:induction false} StrLeTotal(a: string, b: string)
    ensures StrLe(a, b) || StrLe(b, a)
    decreases |a|
  {
    if a != [] && b != [] && a[0] == b[0] {
      StrLeTotal(a[1..], b[1..]);
    }
  }

  lemma {:induction false} StrLeAntisymmetric(a: string, b: string)
    requires StrLe(a, b) && StrLe(b, a)
    ensures a == b
    decreases |a|
  {
    if a != [] {
      StrLeAntisymmetric(a[1..], b[1..]);
      assert a == [a[0]] + a[1..] && b == [b[0]] + b[1..];
    }
  }

  lemma {:induction false} StrLeTransitive(a: string, b: string, c: string)
    requires StrLe(a, b) && StrLe(b, c)
    ensures StrLe(a, c)
    decreases |a|
  {
    if a != [] && a[0] == b[0] && b[0] == c[0] {
      StrLeTransitive(a[1..], b[1..], c[1..]);
    }
  }

  /** The ordering of `target_id` used by `sort_values` and `groupby`. */
  lemma StrLeTotalPreorder()
    ensures TotalPreorder(StrLe)
  {
    forall a, b ensures StrLe(a, b) || StrLe(b, a) {
      StrLeTotal(a, b);
    }
    forall a, b, c | StrLe(a, b) && StrLe(b, c) ensures StrLe(a, c) {
      StrLeTransitive(a, b, c);
    }
  }

  /** Rows that share an id are contiguous. */
  predicate Grouped(ids: seq<string>)
  {
    forall i, k, j :: 0 <= i < k < j < |ids| && ids[i] == ids[j] ==> ids[k] == ids[i]
  }

  /** Row `k` begins a run of equal ids. */
  predicate IsGroupStart(ids: seq<string>, k: nat)
    requires k < |ids|
  {
    k == 0 || ids[k - 1] != ids[k]
  }

  /** The last row before `n` whose id is `x`: the row `groupby(...).diff()` subtracts. */
  function LastIndexBefore(ids: seq<string>, x: string, n: nat): (r: Option<nat>)
    requires n <= |ids|
    ensures r.Some? ==> r.value < n && ids[r.value] == x && forall i :: r.value < i < n ==> ids[i] != x
    ensures r.None? <==> x !in ids[..n]
  {
    if n == 0 then None
    else if ids[n - 1] == x then Some(n - 1)
    else
      var r := LastIndexBefore(ids, x, n - 1);
      assert ids[..n] == ids[..n - 1] + [ids[n - 1]];
      r
  }

  /** In a grouped column the previous row of the same id is the adjacent row, unless a group starts. */
  lemma LastIndexBeforeGrouped(ids: seq<string>, k: nat)
    requires Grouped(ids) && k < |ids|
    ensures LastIndexBefore(ids, ids[k], k) == if IsGroupStart(ids, k) then None else Some(k - 1)
  {
  }

  /** In a grouped column a group starts exactly where an id is seen for the first time. */
  lemma GroupStartIsFirstOccurrence(ids: seq<string>, k: nat)
    requires Grouped(ids) && k < |ids|
    ensures IsGroupStart(ids, k) <==> ids[k] !in ids[..k]
  {
    LastIndexBeforeGrouped(ids, k);
  }

  /** The number of groups begun before row `n`: the seed cursor's value there. */
  function Starts(ids: seq<string>, n: nat): (c: nat)
    requires n <= |ids|
    ensures c <= n
    ensures forall k :: 0 <= k < n && IsGroupStart(ids, k) ==> Starts(ids, k) < c
  {
    if n == 0 then 0 else Starts(ids, n - 1) + (if IsGroupStart(ids, n - 1) then 1 else 0)
  }

  /** In a grouped column the number of groups begun is the number of distinct ids seen. */
  lemma {:induction false} StartsCountsIds(ids: seq<string>, n: nat)
    requires Grouped(ids) && n <= |ids|
    ensures Starts(ids, n) == |set x | x in ids[..n]|
  {
    if n == 0 {
      assert (set x | x in ids[..0]) == {};
    } else {
      StartsCountsIds(ids, n - 1);
      var before := ids[..n - 1];
      assert ids[..n] == before + [ids[n - 1]];
      DistinctCountSnoc(before, ids[n - 1]);
      GroupStartIsFirstOccurrence(ids, n - 1);
    }
  }

  /** Appending an id adds one distinct id exactly when it is new. */
  lemma DistinctCountSnoc(s: seq<string>, y: string)
    ensures |set x | x in s + [y]| == |set x | x in s| + (if y in s then 0 else 1)
  {
    var a := set x | x in s;
    assert (set x | x in s + [y]) == a + {y};
    if y in s {
      assert a + {y} == a;
    } else {
      assert y !in a;
    }
  }

  /** A column sorted by `StrLe` is grouped. */
  lemma SortedIdsGrouped(ids: seq<string>)
    requires Sorted(StrLe, ids)
    ensures Grouped(ids)
  {
    forall i, k, j | 0 <= i < k < j < |ids| && ids[i] == ids[j] ensures ids[k] == ids[i] {
      StrLeAntisymmetric(ids[i], ids[k]);
    }
  }

  /** In a sorted column, later groups have strictly greater ids: groups are visited in ascending id order. */
  lemma SortedGroupStartsAscending(ids: seq<string>, i: nat, j: nat)
    requires Sorted(StrLe, ids)
    requires i < j < |ids| && IsGroupStart(ids, j)
    ensures StrLe(ids[i], ids[j]) && ids[i] != ids[j]
  {
    SortedIdsGrouped(ids);
  }

  /** The id column of a table sorted by an order that sorts by id first is sorted. */
  lemma SortedIdColumn<T(!new)>(le: (T, T) -> bool, idOf: T -> string, s: seq<T>)
    requires Sorted(le, s)
    requires forall a, b :: le(a, b) ==> StrLe(idOf(a), idOf(b))
    ensures Sorted(StrLe, Map(idOf, s))
  {
  }

  /** `absent` holds exactly on the first row of each id: where pandas leaves a group difference NaN. */
  ghost predicate FirstsMarked<T>(s: seq<T>, idOf: T -> string, absent: T -> bool)
  {
    forall k :: 0 <= k < |s| ==> (absent(s[k]) <==> idOf(s[k]) !in Map(idOf, s)[..k])
  }

  /** Among the rows of an id there is one marked as first. */
  lemma {:induction false} FirstOfIdMarked<T>(s: seq<T>, idOf: T -> string, absent: T -> bool, k: nat)
    requires FirstsMarked(s, idOf, absent) && k < |s|
    ensures exists z :: z in s && idOf(z) == idOf(s[k]) && absent(z)
    decreases k
  {
    if !absent(s[k]) {
      var ids := Map(idOf, s);
      assert ids[k] in ids[..k];
      var j :| 0 <= j < k && ids[j] == ids[k];
      FirstOfIdMarked(s, idOf, absent, j);
    }
  }

  lemma InMap<T, U>(f: T -> U, s: seq<T>, v: U)
    ensures v in Map(f, s) <==> exists y :: y in s && f(y) == v
  {
    if v in Map(f, s) {
      var j :| 0 <= j < |s| && Map(f, s)[j] == v;
      assert s[j] in s;
    }
  }

  /** The marking of a table with one more row at the end. */
  lemma FirstsMarkedSnoc<T>(s: seq<T>, x: T, idOf: T -> string, absent: T -> bool)
    ensures FirstsMarked(s + [x], idOf, absent) <==>
            FirstsMarked(s, idOf, absent) && (absent(x) <==> idOf(x) !in Map(idOf, s))
  {
    var t := s + [x];
    assert Map(idOf, t) == Map(idOf, s) + [idOf(x)];
    assert forall k :: 0 <= k <= |s| ==> Map(idOf, t)[..k] == Map(idOf, s)[..k];
    assert Map(idOf, t)[..|s|] == Map(idOf, s);
    assert forall k :: 0 <= k < |s| ==> t[k] == s[k];
  }

  /** Dropping rows that are never first rows keeps the marking right (the `dt != 0` query). */
  lemma {:induction false} FilterKeepsFirstsMarked<T(!new)>(p: T -> bool, s: seq<T>, idOf: T -> string, absent: T -> bool)
    requires FirstsMarked(s, idOf, absent)
    requires forall x :: absent(x) ==> p(x)
    ensures FirstsMarked(Filter(p, s), idOf, absent)
    decreases |s|
  {
    if s != [] {
      var init, last := s[..|s| - 1], s[|s| - 1];
      assert s == init + [last];
      FirstsMarkedSnoc(init, last, idOf, absent);
      FilterKeepsFirstsMarked(p, init, idOf, absent);
      var r := Filter(p, init);
      if p(last) {
        FirstsMarkedSnoc(r, last, idOf, absent);
        InMap(idOf, r, idOf(last));
        InMap(idOf, init, idOf(last));
        if idOf(last) in Map(idOf, init) {
          var y :| y in init && idOf(y) == idOf(last);
          var i :| 0 <= i < |init| && init[i] == y;
          FirstOfIdMarked(init, idOf, absent, i);
          var z :| z in init && idOf(z) == idOf(last) && absent(z);
          assert z in r;
        }
      }
    }
  }

  /** Keeping or dropping whole ids keeps the marking right (the `isin` restriction). */
  lemma {:induction false} FilterByIdKeepsFirstsMarked<T(!new)>(p: T -> bool, keep: set<string>, s: seq<T>, idOf: T -> string, absent: T -> bool)
    requires FirstsMarked(s, idOf, absent)
    requires forall x :: p(x) <==> idOf(x) in keep
    ensures FirstsMarked(Filter(p, s), idOf, absent)
    decreases |s|
  {
    if s != [] {
      var init, last := s[..|s| - 1], s[|s| - 1];
      assert s == init + [last];
      FirstsMarkedSnoc(init, last, idOf, absent);
      FilterByIdKeepsFirstsMarked(p, keep, init, idOf, absent);
      var r := Filter(p, init);
      if p(last) {
        FirstsMarkedSnoc(r, last, idOf, absent);
        InMap(idOf, r, idOf(last));
        InMap(idOf, init, idOf(last));
        if idOf(last) in Map(idOf, init) {
          var y :| y in init && idOf(y) == idOf(last);
          assert p(y);
          assert y in r;
        }
      }
    }
  }
}
