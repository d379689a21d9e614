/** Per-target differencing: the time step `dt`, the drop of zero steps, the speed step `dv` and
    the acceleration `a = dv / dt`. */
module Kinematics {
  import opened Wrappers
  import opened Seqs
  import opened Ids
  import opened Samples

  /** A report decorated with `dt`, in seconds; `None` where pandas leaves NaN. */
  datatype Timed = Timed(row: Row, dt: Option<real>)

  /** A report decorated with `dt`, `dv` and `a`. */
  datatype Derived = Derived(row: Row, dt: Option<real>, dv: real, a: Option<real>)

  function TimedId(t: Timed): string { t.row.id }
  function DerivedId(d: Derived): string { d.row.id }
  predicate TimedDtAbsent(t: Timed) { t.dt.None? }
  predicate DerivedDtAbsent(d: Derived) { d.dt.None? }
  predicate TimedLe(a: Timed, b: Timed) { RowLe(a.row, b.row) }
  predicate DerivedLe(a: Derived, b: Derived) { RowLe(a.row, b.row) }

  lemma DerivedLeTotalPreorder()
    ensures TotalPreorder(DerivedLe)
  {
    RowLeTotalPreorder();
    forall a: Derived, b: Derived ensures DerivedLe(a, b) || DerivedLe(b, a) {
      assert RowLe(a.row, b.row) || RowLe(b.row, a.row);
    }
    forall a: Derived, b: Derived, c: Derived | DerivedLe(a, b) && DerivedLe(b, c) ensures DerivedLe(a, c) {
      assert RowLe(a.row, b.row) && RowLe(b.row, c.row);
    }
  }

  /** `total_seconds()` of a difference of times given in milliseconds. */
  function Seconds(ms: int): real
  {
    ms as real / 1000.0
  }

  /** The `dt` of row `k`: its time minus that of the previous row of the same target. */
  function DtAt(s: seq<Row>, k: nat): Option<real>
    requires k < |s|
  {
    match LastIndexBefore(Map(IdOf, s), s[k].id, k)
    case None => None
    case Some(j) => Some(Seconds(s[k].time - s[j].time))
  }

  /** `groupby("target_id")["time"].diff()`: every report stays in place, decorated with its `dt`. */
  function WithDt(s: seq<Row>): (ts: seq<Timed>)
    ensures |ts| == |s|
    ensures forall k :: 0 <= k < |s| ==> ts[k].row == s[k]
  {
    seq(|s|, k requires 0 <= k < |s| => Timed(s[k], DtAt(s, k)))
  }

  /** On sorted reports `dt` is absent exactly on a target's first row; elsewhere it is the
      non-negative step from the adjacent previous row. */
  lemma DtOfSorted(s: seq<Row>, k: nat)
    requires Sorted(RowLe, s) && k < |s|
    ensures WithDt(s)[k].dt ==
      if k > 0 && s[k - 1].id == s[k].id then Some(Seconds(s[k].time - s[k - 1].time)) else None
    ensures WithDt(s)[k].dt.Some? ==> WithDt(s)[k].dt.value >= 0.0
  {
    var ids := Map(IdOf, s);
    SortedRowsGrouped(s);
    LastIndexBeforeGrouped(ids, k);
    if k > 0 && s[k - 1].id == s[k].id {
      assert ids[k - 1] == ids[k];
      assert RowLe(s[k - 1], s[k]);
      assert DtAt(s, k) == Some(Seconds(s[k].time - s[k - 1].time));
    } else {
      assert IsGroupStart(ids, k);
      assert DtAt(s, k) == None;
    }
  }

  /** The rows without `dt` are exactly the first report of each target in table order, whatever
      the order of `s`. */
  lemma WithDtFirstsMarked(s: seq<Row>)
    ensures FirstsMarked(WithDt(s), TimedId, TimedDtAbsent)
  {
    assert Map(TimedId, WithDt(s)) == Map(IdOf, s);
  }

  predicate NonZeroDt(t: Timed) { t.dt != Some(0.0) }

  /** `query("dt != 0")`: NaN differs from 0, so the first row of every target stays. */
  function DropZeroDt(ts: seq<Timed>): (kept: seq<Timed>)
    ensures |kept| <= |ts|
    ensures forall t :: t in kept <==> t in ts && t.dt != Some(0.0)
    ensures forall t :: multiset(kept)[t] == if t.dt != Some(0.0) then multiset(ts)[t] else 0
    ensures forall t :: t in ts && t.dt.None? ==> t in kept
    ensures IsSubsequence(kept, ts)
  {
    FilterCount(NonZeroDt, ts);
    FilterIsSubsequence(NonZeroDt, ts);
    Filter(NonZeroDt, ts)
  }

  /** The `dv` and `a` of row `k`: the speed step from the previous retained row of the same
      target (0 on its first row), divided by `dt`. */
  function DerivedAt(u: seq<Timed>, k: nat): (r: Derived)
    requires k < |u| && u[k].dt != Some(0.0)
    ensures r.row == u[k].row && r.dt == u[k].dt
    ensures u[k].row.id !in Map(TimedId, u)[..k] ==> r.dv == 0.0
    ensures r.a.Some? <==> r.dt.Some?
    ensures r.dt.Some? ==> r.a == Some(r.dv / r.dt.value)
  {
    var dv := match LastIndexBefore(Map(TimedId, u), u[k].row.id, k)
      case None => 0.0
      case Some(j) => u[k].row.speed - u[j].row.speed;
    Derived(u[k].row, u[k].dt, dv, match u[k].dt case None => None case Some(dt) => Some(dv / dt))
  }

  /** Row `j` is the last row of row `k`'s target before `k`. */
  predicate LastOfTargetBefore(u: seq<Timed>, j: nat, k: nat)
  {
    j < k < |u| && u[j].row.id == u[k].row.id && forall i :: j < i < k ==> u[i].row.id != u[k].row.id
  }

  /** Whatever the order of the rows, `dv` of a row with an earlier row of its target is the speed
      step from the last such row. */
  lemma DvOfPrevious(u: seq<Timed>, k: nat)
    requires forall t :: t in u ==> t.dt != Some(0.0)
    requires k < |u| && u[k].row.id in Map(TimedId, u)[..k]
    ensures exists j: nat :: LastOfTargetBefore(u, j, k) && WithDvA(u)[k].dv == u[k].row.speed - u[j].row.speed
  {
    var ids := Map(TimedId, u);
    var last := LastIndexBefore(ids, u[k].row.id, k);
    var j := last.value;
    assert WithDvA(u)[k].dv == u[k].row.speed - u[j].row.speed by {
      assert WithDvA(u)[k] == DerivedAt(u, k);
    }
    assert LastOfTargetBefore(u, j, k) by {
      assert ids[j] == u[j].row.id;
      forall i | j < i < k ensures u[i].row.id != u[k].row.id {
        assert ids[i] == u[i].row.id;
      }
    }
  }

  /** `groupby("target_id")["speed"].diff().fillna(0.0)` and `dv / dt`. */
  function WithDvA(u: seq<Timed>): (d: seq<Derived>)
    requires forall t :: t in u ==> t.dt != Some(0.0)
    ensures |d| == |u|
    ensures forall k :: 0 <= k < |u| ==> d[k].row == u[k].row && d[k].dt == u[k].dt
    ensures forall k :: 0 <= k < |u| ==> (d[k].a.Some? <==> d[k].dt.Some?)
    ensures forall k :: 0 <= k < |u| && d[k].dt.Some? ==> d[k].a == Some(d[k].dv / d[k].dt.value)
    ensures forall k :: 0 <= k < |u| && u[k].row.id !in Map(TimedId, u)[..k] ==> d[k].dv == 0.0
  {
    seq(|u| , k requires 0 <= k < |u| => DerivedAt(u, k))
  }

  /** No derived row has a zero `dt`. */
  lemma WithDvANonZero(u: seq<Timed>)
    requires forall t :: t in u ==> t.dt != Some(0.0)
    ensures forall x :: x in WithDvA(u) ==> x.dt != Some(0.0)
  {
    var d := WithDvA(u);
    forall x | x in d ensures x.dt != Some(0.0) {
      var k :| 0 <= k < |d| && d[k] == x;
      assert d[k].dt == u[k].dt;
      assert u[k] in u;
    }
  }

  /** The whole differencing stage on the sorted reports. */
  function Differences(s: seq<Row>): (d: seq<Derived>)
    ensures |d| <= |s|
    ensures forall x :: x in d ==> x.dt != Some(0.0)
  {
    var ts := WithDt(s);
    var u := DropZeroDt(ts);
    var d := WithDvA(u);
    assert |d| == |u| <= |ts| == |s|;
    WithDvANonZero(u);
    d
  }

  /** Every derived row carries one of the reports it was derived from. */
  lemma DifferencesRows(s: seq<Row>, x: Derived)
    requires x in Differences(s)
    ensures x.row in s
  {
    var ts := WithDt(s);
    var u := DropZeroDt(ts);
    var d := Differences(s);
    var k :| 0 <= k < |d| && d[k] == x;
    assert x.row == u[k].row;
    assert u[k] in ts;
    var j :| 0 <= j < |ts| && ts[j] == u[k];
    assert ts[j].row == s[j];
  }

  /** On sorted reports every derived `dt` is positive. */
  lemma DifferencesDtPositive(s: seq<Row>, x: Derived)
    requires Sorted(RowLe, s)
    requires x in Differences(s) && x.dt.Some?
    ensures x.dt.value > 0.0
  {
    var u := DropZeroDt(WithDt(s));
    var d := Differences(s);
    var k :| 0 <= k < |d| && d[k] == x;
    assert u[k] in u;
    DropZeroDtPositive(s, u[k]);
  }

  /** After the drop, the first retained row of a target is still its first row, so the rows
      without `dt` are again exactly the first rows. */
  lemma DropZeroDtFirstsMarked(s: seq<Row>)
    ensures FirstsMarked(DropZeroDt(WithDt(s)), TimedId, TimedDtAbsent)
  {
    WithDtFirstsMarked(s);
    FilterKeepsFirstsMarked(NonZeroDt, WithDt(s), TimedId, TimedDtAbsent);
  }

  lemma WithDtSorted(s: seq<Row>)
    requires Sorted(RowLe, s)
    ensures Sorted(TimedLe, WithDt(s))
  {
  }

  /** The retained sorted rows are still sorted. */
  lemma DropZeroDtSorted(s: seq<Row>)
    requires Sorted(RowLe, s)
    ensures Sorted(TimedLe, DropZeroDt(WithDt(s)))
  {
    WithDtSorted(s);
    FilterSorted(TimedLe, NonZeroDt, WithDt(s));
  }

  /** Every `dt` left after the drop is positive. */
  lemma DropZeroDtPositive(s: seq<Row>, t: Timed)
    requires Sorted(RowLe, s)
    requires t in DropZeroDt(WithDt(s)) && t.dt.Some?
    ensures t.dt.value > 0.0
  {
    var ts := WithDt(s);
    assert t in ts;
    var k :| 0 <= k < |ts| && ts[k] == t;
    DtOfSorted(s, k);
    var v := t.dt.value;
    assert v >= 0.0 && v != 0.0;
  }

  /** On sorted retained rows, `dv` is the speed step from the adjacent previous row of the same
      target and 0 on a target's first row; `a` is `dv / dt`, absent where `dt` is. */
  lemma DvOfSorted(u: seq<Timed>, k: nat)
    requires forall t :: t in u ==> t.dt != Some(0.0)
    requires Sorted(TimedLe, u) && k < |u|
    ensures WithDvA(u)[k].dv ==
      if k > 0 && u[k - 1].row.id == u[k].row.id then u[k].row.speed - u[k - 1].row.speed else 0.0
    ensures WithDvA(u)[k].a ==
      match u[k].dt case None => None case Some(dt) => Some(WithDvA(u)[k].dv / dt)
  {
    assert forall a, b :: TimedLe(a, b) ==> StrLe(TimedId(a), TimedId(b)) by {
      RowLeRefinesIds();
    }
    SortedIdColumn(TimedLe, TimedId, u);
    SortedIdsGrouped(Map(TimedId, u));
    DvOfGrouped(u, k);
  }

  /** The same on rows merely grouped by target. */
  lemma DvOfGrouped(u: seq<Timed>, k: nat)
    requires forall t :: t in u ==> t.dt != Some(0.0)
    requires Grouped(Map(TimedId, u)) && k < |u|
    ensures WithDvA(u)[k].dv ==
      if k > 0 && u[k - 1].row.id == u[k].row.id then u[k].row.speed - u[k - 1].row.speed else 0.0
    ensures WithDvA(u)[k].a ==
      match u[k].dt case None => None case Some(dt) => Some(WithDvA(u)[k].dv / dt)
  {
    var ids := Map(TimedId, u);
    LastIndexBeforeGrouped(ids, k);
    assert ids[k] == u[k].row.id;
    assert WithDvA(u)[k] == DerivedAt(u, k);
    if k > 0 && u[k - 1].row.id == u[k].row.id {
      assert ids[k - 1] == ids[k];
      assert LastIndexBefore(ids, u[k].row.id, k) == Some(k - 1);
    } else {
      assert LastIndexBefore(ids, u[k].row.id, k).None?;
    }
  }

  /** The derived rows of sorted reports are sorted by target and time, and their rows without
      `dt` are exactly each target's first row. */
  lemma DifferencesOrdered(s: seq<Row>)
    requires Sorted(RowLe, s)
    ensures Sorted(DerivedLe, Differences(s))
    ensures FirstsMarked(Differences(s), DerivedId, DerivedDtAbsent)
  {
    var u := DropZeroDt(WithDt(s));
    var d := Differences(s);
    DropZeroDtSorted(s);
    DropZeroDtFirstsMarked(s);
    assert Map(DerivedId, d) == Map(TimedId, u);
  }

  /** Row `k` of the differencing stage on sorted reports. */
  lemma DifferencesAt(s: seq<Row>, k: nat)
    requires Sorted(RowLe, s) && k < |Differences(s)|
    ensures var d := Differences(s);
      if k == 0 || d[k - 1].row.id != d[k].row.id then
        d[k].dt.None? && d[k].dv == 0.0 && d[k].a.None?
      else
        d[k].dt.Some? && d[k].dt.value > 0.0 &&
        d[k].dv == d[k].row.speed - d[k - 1].row.speed && d[k].a == Some(d[k].dv / d[k].dt.value)
  {
    var u := DropZeroDt(WithDt(s));
    DropZeroDtSorted(s);
    DropZeroDtFirstsMarked(s);
    assert forall a, b :: TimedLe(a, b) ==> StrLe(TimedId(a), TimedId(b)) by {
      RowLeRefinesIds();
    }
    SortedIdColumn(TimedLe, TimedId, u);
    SortedIdsGrouped(Map(TimedId, u));
    DvOfSorted(u, k);
    GroupStartIsFirstOccurrence(Map(TimedId, u), k);
    assert u[k] in u;
    if u[k].dt.Some? {
      DropZeroDtPositive(s, u[k]);
    }
  }

  /** The differencing stage on sorted reports: the result is sorted by target and time, its rows
      without `dt` are exactly each target's first row, where `dv` is 0 and `a` is absent, and
      elsewhere `dt` is positive, `dv` is the speed step from the previous row and `a = dv / dt`. */
  lemma DifferencesOfSorted(s: seq<Row>)
    requires Sorted(RowLe, s)
    ensures Sorted(DerivedLe, Differences(s))
    ensures FirstsMarked(Differences(s), DerivedId, DerivedDtAbsent)
    ensures forall k :: 0 <= k < |Differences(s)| ==>
      var d := Differences(s);
      if k == 0 || d[k - 1].row.id != d[k].row.id then
        d[k].dt.None? && d[k].dv == 0.0 && d[k].a.None?
      else
        d[k].dt.Some? && d[k].dt.value > 0.0 &&
        d[k].dv == d[k].row.speed - d[k - 1].row.speed && d[k].a == Some(d[k].dv / d[k].dt.value)
  {
    DifferencesOrdered(s);
    forall k | 0 <= k < |Differences(s)| ensures
      var d := Differences(s);
      if k == 0 || d[k - 1].row.id != d[k].row.id then
        d[k].dt.None? && d[k].dv == 0.0 && d[k].a.None?
      else
        d[k].dt.Some? && d[k].dt.value > 0.0 &&
        d[k].dv == d[k].row.speed - d[k - 1].row.speed && d[k].a == Some(d[k].dv / d[k].dt.value)
    {
      DifferencesAt(s, k);
    }
  }
}
