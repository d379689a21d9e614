/** Extremal-acceleration selection: rank the rows by `a`, take the first ten distinct targets,
    and restrict the table to them. */
module Selection {
  import opened Wrappers
  import opened Seqs
  import opened Ids
  import opened Samples
  import opened Kinematics

  /** How many targets are reconstructed. */
  const TopCount: nat := 10

  /** The order of `sort_values("a")`: ascending, NaN last. */
  predicate ALe(x: Option<real>, y: Option<real>)
  {
    match x
    case None => y.None?
    case Some(u) => y.None? || u <= y.value
  }

  predicate ByA(d: Derived, e: Derived) { ALe(d.a, e.a) }

  lemma ByATotalPreorder()
    ensures TotalPreorder(ByA)
  {
  }

  /** `ranked` is one possible outcome of `sort_values("a")` on `d`: the same rows, in ascending
      `a` with the absent values last. The order among equal values is left open. */
  ghost predicate RankedByA(ranked: seq<Derived>, d: seq<Derived>)
  {
    multiset(ranked) == multiset(d) && Sorted(ByA, ranked)
  }

  /** Some ranking always exists. */
  lemma RankingExists(d: seq<Derived>)
    ensures RankedByA(SortBy(ByA, d), d)
  {
    ByATotalPreorder();
    SortBySorted(ByA, d);
  }

  /** No id occurs twice. */
  predicate NoDuplicates(s: seq<string>)
  {
    forall i, j :: 0 <= i < j < |s| ==> s[i] != s[j]
  }

  /** The position of the first occurrence of `x`. */
  function FirstIndex(s: seq<string>, x: string): (i: nat)
    requires x in s
    ensures i < |s| && s[i] == x && x !in s[..i]
  {
    if s[0] == x then 0
    else
      var i := FirstIndex(s[1..], x);
      assert s[..i + 1] == [s[0]] + s[1..][..i];
      i + 1
  }

  /** The distinct ids of `s`, each once, in the order in which they first occur. */
  function Distinct(s: seq<string>): (r: seq<string>)
    ensures forall x :: x in r <==> x in s
    ensures NoDuplicates(r)
    ensures |r| <= |s|
  {
    if s == [] then []
    else
      var init, last := s[..|s| - 1], s[|s| - 1];
      assert s == init + [last];
      var d := Distinct(init);
      if last in d then d else d + [last]
  }

  lemma FirstIndexSnoc(s: seq<string>, y: string, x: string)
    requires x in s
    ensures x in s + [y] && FirstIndex(s + [y], x) == FirstIndex(s, x)
    decreases |s|
  {
    if s[0] != x {
      assert (s + [y])[1..] == s[1..] + [y];
      FirstIndexSnoc(s[1..], y, x);
    }
  }

  /** `Distinct` lists ids in the order of their first occurrence. */
  lemma {:induction false} DistinctInFirstOccurrenceOrder(s: seq<string>, i: nat, j: nat)
    requires i < j < |Distinct(s)|
    ensures FirstIndex(s, Distinct(s)[i]) < FirstIndex(s, Distinct(s)[j])
    decreases |s|
  {
    var init, last := s[..|s| - 1], s[|s| - 1];
    assert s == init + [last];
    var d := Distinct(init);
    if j < |d| {
      DistinctInFirstOccurrenceOrder(init, i, j);
      FirstIndexSnoc(init, last, d[i]);
      FirstIndexSnoc(init, last, d[j]);
    } else {
      assert Distinct(s)[j] == last && last !in init;
      FirstIndexSnoc(init, last, d[i]);
      assert FirstIndex(s, last) == |init| by {
        assert s[|init|] == last && s[..|init|] == init;
      }
    }
  }

  /** The distinct ids of a prefix are a prefix of the distinct ids. */
  lemma {:induction false} DistinctOfPrefix(s: seq<string>, n: nat)
    requires n <= |s|
    ensures Distinct(s[..n]) <= Distinct(s)
    decreases |s|
  {
    if n < |s| {
      var init := s[..|s| - 1];
      assert s == init + [s[|s| - 1]];
      assert s[..n] == init[..n];
      DistinctOfPrefix(init, n);
    } else {
      assert s[..n] == s;
    }
  }

  /** A list without duplicates is as long as the set of its elements. */
  lemma {:induction false} NoDuplicatesCard(s: seq<string>)
    requires NoDuplicates(s)
    ensures |set x | x in s| == |s|
    decreases |s|
  {
    if s != [] {
      var init, last := s[..|s| - 1], s[|s| - 1];
      assert s == init + [last];
      NoDuplicatesCard(init);
      assert (set x | x in s) == (set x | x in init) + {last};
      assert last !in init;
    }
  }

  /** `top10_id_lst` as the loop leaves it: the first `TopCount` distinct ids, in order of first
      occurrence, or all of them if there are fewer. */
  function TopDistinct(ids: seq<string>): (top: seq<string>)
    ensures NoDuplicates(top)
    ensures |top| == if |set x | x in ids| < TopCount then |set x | x in ids| else TopCount
    ensures forall x :: x in top ==> x in ids
    ensures forall i, j :: 0 <= i < j < |top| ==> FirstIndex(ids, top[i]) < FirstIndex(ids, top[j])
    ensures forall i :: 0 <= i < |ids| && |Distinct(ids[..i])| < TopCount ==> ids[i] in top
  {
    var d := Distinct(ids);
    NoDuplicatesCard(d);
    assert (set x | x in d) == (set x | x in ids);
    var top := if |d| <= TopCount then d else d[..TopCount];
    assert top <= d;
    forall i, j | 0 <= i < j < |top| ensures FirstIndex(ids, top[i]) < FirstIndex(ids, top[j]) {
      DistinctInFirstOccurrenceOrder(ids, i, j);
    }
    forall i | 0 <= i < |ids| && |Distinct(ids[..i])| < TopCount ensures ids[i] in top {
      TopCoversEarlyIds(ids, i);
    }
    top
  }

  /** An id met while fewer than `TopCount` distinct ids have been collected is selected. */
  lemma TopCoversEarlyIds(ids: seq<string>, i: nat)
    requires i < |ids| && |Distinct(ids[..i])| < TopCount
    ensures ids[i] in (var d := Distinct(ids); if |d| <= TopCount then d else d[..TopCount])
  {
    var d := Distinct(ids);
    var p := Distinct(ids[..i + 1]);
    assert ids[..i + 1][..i] == ids[..i];
    assert ids[i] in p by {
      assert ids[..i + 1][i] == ids[i];
    }
    assert |p| <= TopCount;
    DistinctOfPrefix(ids, i + 1);
    var k :| 0 <= k < |p| && p[k] == ids[i];
    assert d[k] == ids[i];
  }

  /** The loop of lines 38-43: walk the ranked ids, stop once `TopCount` are collected, and add
      each id not collected yet. */
  method SelectTop(ids: seq<string>) returns (top: seq<string>)
    ensures top == TopDistinct(ids)
  {
    top := [];
    var n := 0;
    while n < |ids|
      invariant n <= |ids|
      invariant top == Distinct(ids[..n])
      invariant |top| <= TopCount
    {
      if |top| >= TopCount {
        break;
      }
      assert ids[..n + 1][..n] == ids[..n];
      assert ids[..n + 1][n] == ids[n];
      if ids[n] !in top {
        top := top + [ids[n]];
      }
      n := n + 1;
    }
    if n == |ids| {
      assert ids[..n] == ids;
    } else {
      DistinctOfPrefix(ids, n);
    }
  }

  /** The extremal property of the selection: for every selected target and every row of an
      unselected target, the selected target has a row ranked earlier with an `a` that is no
      larger. So the smallest `a` of a selected target is at most that of any unselected one. */
  lemma SelectionIsExtremal(ranked: seq<Derived>, x: string, j: nat)
    requires Sorted(ByA, ranked)
    requires x in TopDistinct(Map(DerivedId, ranked))
    requires j < |ranked| && ranked[j].row.id !in TopDistinct(Map(DerivedId, ranked))
    ensures exists i :: 0 <= i < j && ranked[i].row.id == x && ALe(ranked[i].a, ranked[j].a)
  {
    var ids := Map(DerivedId, ranked);
    var d := Distinct(ids);
    var top := TopDistinct(ids);
    assert ids[j] !in top;
    assert |Distinct(ids[..j])| >= TopCount;
    DistinctOfPrefix(ids, j);
    var p := Distinct(ids[..j]);
    assert top == d[..TopCount];
    var k :| 0 <= k < |top| && top[k] == x;
    assert p[k] == x;
    assert x in ids[..j];
    var i :| 0 <= i < j && ids[i] == x;
    assert ByA(ranked[i], ranked[j]);
  }

  function HasIdIn(top: seq<string>): Derived -> bool
  {
    (d: Derived) => d.row.id in top
  }

  /** `df_sorted[df_sorted["target_id"].isin(top10_id_lst)]`: exactly the rows of the selected
      targets, unchanged and in their order. */
  function Restrict(d: seq<Derived>, top: seq<string>): (r: seq<Derived>)
    ensures forall x :: x in r <==> x in d && x.row.id in top
    ensures forall x :: multiset(r)[x] == if x.row.id in top then multiset(d)[x] else 0
    ensures IsSubsequence(r, d)
  {
    FilterCount(HasIdIn(top), d);
    FilterIsSubsequence(HasIdIn(top), d);
    Filter(HasIdIn(top), d)
  }

  /** The re-sort of line 47: by target, then by time, stably. */
  function SortTrack(r: seq<Derived>): (t: seq<Derived>)
    ensures multiset(t) == multiset(r)
    ensures Sorted(DerivedLe, t)
  {
    DerivedLeTotalPreorder();
    SortBySorted(DerivedLe, r);
    SortBy(DerivedLe, r)
  }

  /** The restricted rows are already in target and time order, so the re-sort changes nothing. */
  lemma SortTrackOfRestricted(d: seq<Derived>, top: seq<string>)
    requires Sorted(DerivedLe, d)
    ensures SortTrack(Restrict(d, top)) == Restrict(d, top)
  {
    FilterSorted(DerivedLe, HasIdIn(top), d);
    SortByOfSorted(DerivedLe, Restrict(d, top));
  }
}
