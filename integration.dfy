/** Dead reckoning: displacements from velocity and `dt`, the seed overwrite of each target's first
    displacement, and the per-target running sum that gives the positions. */
module Integration {
  import opened Wrappers
  import opened Seqs
  import opened Ids

  /** Why a run aborts: the seed table has no entry at `cursor` for the group of `target`
      (the `KeyError` raised by `df_x0y0["x0"][i]`). */
  datatype Failure = SeedExhausted(target: string, cursor: nat)

  /** `dv_x * dt`: NaN where `dt` is NaN. */
  function Step(v: real, dt: Option<real>): (r: Option<real>)
    ensures r.Some? <==> dt.Some?
  {
    match dt
    case None => None
    case Some(t) => Some(v * t)
  }

  /** `out` is `col` with the first row of the g-th group of `ids` replaced by `seeds[g]`. */
  predicate SeededWith(ids: seq<string>, col: seq<Option<real>>, seeds: seq<real>, out: seq<Option<real>>)
  {
    |out| == |col| == |ids| && Starts(ids, |ids|) <= |seeds| &&
    forall k :: 0 <= k < |col| ==> out[k] == if IsGroupStart(ids, k) then Some(seeds[Starts(ids, k)]) else col[k]
  }

  /** The `dt` column is absent exactly on the first row of each group. This is the positional
      form, over a grouped id column, of `Ids.FirstsMarked` (absent exactly at an id's first
      occurrence): the filters are proved to keep `FirstsMarked`, which does not depend on the row
      order, while the seed cursor and the running sum work on group starts;
      `Pipeline.RestrictGroups` turns one into the other. */
  predicate MarksStarts(ids: seq<string>, dts: seq<Option<real>>)
  {
    |dts| == |ids| && forall j :: 0 <= j < |ids| ==> (dts[j].None? <==> IsGroupStart(ids, j))
  }

  /** `groupby("target_id")[col].apply(update_first_dx)`: walks the groups of the grouped column
      `ids` in order; the first row of the g-th group gets `seeds[g]` and the shared cursor moves
      on by one; every other row keeps its value. Runs out of seeds with a failure. */
  method SeedFirst(ids: seq<string>, col: seq<Option<real>>, seeds: seq<real>)
    returns (res: Result<seq<Option<real>>, Failure>, cursor: nat)
    requires |col| == |ids|
    ensures res.Ok? <==> Starts(ids, |ids|) <= |seeds|
    ensures res.Ok? ==> cursor == Starts(ids, |ids|)
    ensures res.Ok? ==> SeededWith(ids, col, seeds, res.value)
    ensures res.Err? ==> cursor == |seeds| && res.error.cursor == |seeds|
    ensures res.Err? ==>
      exists k :: 0 <= k < |ids| && IsGroupStart(ids, k) && Starts(ids, k) == |seeds| && res.error.target == ids[k]
  {
    var out: seq<Option<real>> := [];
    cursor := 0;
    var k := 0;
    while k < |ids|
      invariant k <= |ids|
      invariant cursor == Starts(ids, k) && cursor <= |seeds|
      invariant |out| == k
      invariant forall j :: 0 <= j < k ==>
        out[j] == if IsGroupStart(ids, j) then Some(seeds[Starts(ids, j)]) else col[j]
    {
      if IsGroupStart(ids, k) {
        if cursor >= |seeds| {
          assert Starts(ids, k) < Starts(ids, |ids|);
          return Err(SeedExhausted(ids[k], cursor)), cursor;
        }
        out := out + [Some(seeds[cursor])];
        cursor := cursor + 1;
      } else {
        out := out + [col[k]];
      }
      k := k + 1;
    }
    res := Ok(out);
  }

  /** The sum of the present values of `col` on the rows before `n` whose id is `x`. */
  function SumSame(ids: seq<string>, col: seq<Option<real>>, x: string, n: nat): real
    requires n <= |ids| == |col|
  {
    if n == 0 then 0.0
    else SumSame(ids, col, x, n - 1) + (if ids[n - 1] == x && col[n - 1].Some? then col[n - 1].value else 0.0)
  }

  /** `groupby("target_id")[col].cumsum()`: the running sum over the earlier rows of the same
      target; a NaN value stays NaN and is skipped by the sum. */
  function GroupCumsum(ids: seq<string>, col: seq<Option<real>>): (r: seq<Option<real>>)
    requires |ids| == |col|
    ensures |r| == |col|
    ensures forall k :: 0 <= k < |col| ==> (r[k].Some? <==> col[k].Some?)
  {
    seq(|col|, k requires 0 <= k < |col| => if col[k].None? then None else Some(SumSame(ids, col, ids[k], k + 1)))
  }

  lemma {:induction false} SumSameUnseen(ids: seq<string>, col: seq<Option<real>>, x: string, n: nat)
    requires n <= |ids| == |col| && x !in ids[..n]
    ensures SumSame(ids, col, x, n) == 0.0
  {
    if n > 0 {
      assert ids[..n - 1] == ids[..n][..n - 1];
      assert ids[..n][n - 1] == ids[n - 1];
      SumSameUnseen(ids, col, x, n - 1);
    }
  }

  /** At the first row of a target the position is that row's own displacement. */
  lemma CumsumAtGroupStart(ids: seq<string>, col: seq<Option<real>>, k: nat)
    requires |ids| == |col| && Grouped(ids)
    requires k < |col| && IsGroupStart(ids, k) && col[k].Some?
    ensures GroupCumsum(ids, col)[k] == col[k]
  {
    GroupStartIsFirstOccurrence(ids, k);
    SumSameUnseen(ids, col, ids[k], k);
  }

  /** Inside a target the position is the previous position plus the row's displacement. */
  lemma CumsumStep(ids: seq<string>, col: seq<Option<real>>, k: nat)
    requires |ids| == |col|
    requires 0 < k < |col| && !IsGroupStart(ids, k) && col[k - 1].Some? && col[k].Some?
    ensures GroupCumsum(ids, col)[k] == Some(GroupCumsum(ids, col)[k - 1].value + col[k].value)
  {
  }

  /** On a grouped column with a value on every row, every position is present: a target's first
      position is its own displacement and each later one adds the row's displacement to the
      previous position. */
  lemma CumsumOfPresent(ids: seq<string>, col: seq<Option<real>>, k: nat)
    requires |ids| == |col| && Grouped(ids) && k < |col|
    requires forall j :: 0 <= j < |col| ==> col[j].Some?
    ensures GroupCumsum(ids, col)[k].Some?
    ensures k > 0 ==> GroupCumsum(ids, col)[k - 1].Some?
    ensures IsGroupStart(ids, k) ==> GroupCumsum(ids, col)[k] == col[k]
    ensures !IsGroupStart(ids, k) ==> GroupCumsum(ids, col)[k] == Some(GroupCumsum(ids, col)[k - 1].value + col[k].value)
  {
    if IsGroupStart(ids, k) {
      CumsumAtGroupStart(ids, col, k);
    } else {
      CumsumStep(ids, col, k);
    }
  }

  /** The same for the whole column. */
  lemma CumsumColumn(ids: seq<string>, col: seq<Option<real>>)
    requires |ids| == |col| && Grouped(ids)
    requires forall j :: 0 <= j < |col| ==> col[j].Some?
    ensures forall k :: 0 <= k < |col| ==> GroupCumsum(ids, col)[k].Some?
    ensures forall k :: 0 <= k < |col| && IsGroupStart(ids, k) ==> GroupCumsum(ids, col)[k] == col[k]
    ensures forall k :: 0 <= k < |col| && !IsGroupStart(ids, k) ==>
      GroupCumsum(ids, col)[k] == Some(GroupCumsum(ids, col)[k - 1].value + col[k].value)
  {
    forall k | 0 <= k < |col| ensures GroupCumsum(ids, col)[k].Some? {
      CumsumOfPresent(ids, col, k);
    }
    forall k | 0 <= k < |col| && IsGroupStart(ids, k) ensures GroupCumsum(ids, col)[k] == col[k] {
      CumsumOfPresent(ids, col, k);
    }
    forall k | 0 <= k < |col| && !IsGroupStart(ids, k)
      ensures GroupCumsum(ids, col)[k] == Some(GroupCumsum(ids, col)[k - 1].value + col[k].value)
    {
      CumsumOfPresent(ids, col, k);
    }
  }

  /** Running sums never cross target boundaries: the position of row `k` depends only on the
      displacements of its own target. */
  lemma {:induction false} CumsumWithinTarget(ids: seq<string>, col: seq<Option<real>>, col': seq<Option<real>>, k: nat)
    requires |ids| == |col| == |col'| && k < |col|
    requires forall j :: 0 <= j <= k && ids[j] == ids[k] ==> col[j] == col'[j]
    ensures GroupCumsum(ids, col)[k] == GroupCumsum(ids, col')[k]
  {
    SumSameAgree(ids, col, col', ids[k], k + 1);
  }

  lemma {:induction false} SumSameAgree(ids: seq<string>, col: seq<Option<real>>, col': seq<Option<real>>, x: string, n: nat)
    requires n <= |ids| == |col| == |col'|
    requires forall j :: 0 <= j < n && ids[j] == x ==> col[j] == col'[j]
    ensures SumSame(ids, col, x, n) == SumSame(ids, col', x, n)
  {
    if n > 0 {
      SumSameAgree(ids, col, col', x, n - 1);
    }
  }

  /** `df["dx"] = df["dv_x"] * df["dt"]`: the displacement column before the seeding. */
  function Displacements(v: seq<real>, dts: seq<Option<real>>): (r: seq<Option<real>>)
    requires |v| == |dts|
    ensures |r| == |v|
    ensures forall k :: 0 <= k < |v| ==> r[k] == Step(v[k], dts[k])
  {
    seq(|v|, k requires 0 <= k < |v| => Step(v[k], dts[k]))
  }

  /** Dead reckoning along one axis, as a reference: over the grouped rows `ids` with time steps
      `dts` and velocities `v`, each group's first row has the group's seed as its displacement
      `d` and its position `pos`; every later row is displaced by velocity times its time step
      and its position is the previous row's plus that displacement. */
  predicate Reckoned(ids: seq<string>, dts: seq<Option<real>>, v: seq<real>, d: seq<Option<real>>, pos: seq<Option<real>>, seeds: seq<real>)
  {
    |dts| == |v| == |d| == |pos| == |ids| && Starts(ids, |ids|) <= |seeds| &&
    (forall k :: 0 <= k < |ids| ==> pos[k].Some?) &&
    forall k :: 0 <= k < |ids| ==> ReckonedAt(ids, dts, v, d, pos, seeds, k)
  }

  predicate ReckonedAt(ids: seq<string>, dts: seq<Option<real>>, v: seq<real>, d: seq<Option<real>>, pos: seq<Option<real>>, seeds: seq<real>, k: nat)
    requires |dts| == |v| == |d| == |pos| == |ids| && Starts(ids, |ids|) <= |seeds| && k < |ids|
    requires k > 0 ==> pos[k - 1].Some?
  {
    if IsGroupStart(ids, k) then
      d[k] == Some(seeds[Starts(ids, k)]) && pos[k] == d[k]
    else
      dts[k].Some? && d[k] == Some(v[k] * dts[k].value) && pos[k] == Some(pos[k - 1].value + d[k].value)
  }

  /** A seeded displacement column, when the time step is absent exactly on first rows, has a
      displacement on every row, velocity times the time step on every row but a group's first. */
  lemma SeededColumn(ids: seq<string>, dts: seq<Option<real>>, v: seq<real>, seeded: seq<Option<real>>, seeds: seq<real>)
    requires |v| == |dts| && MarksStarts(ids, dts) && SeededWith(ids, Displacements(v, dts), seeds, seeded)
    ensures forall j :: 0 <= j < |ids| ==> seeded[j].Some?
    ensures forall j :: 0 <= j < |ids| && !IsGroupStart(ids, j) ==>
      dts[j].Some? && seeded[j] == Some(v[j] * dts[j].value)
  {
    forall j | 0 <= j < |ids| ensures seeded[j].Some? {
      if !IsGroupStart(ids, j) {
        assert Displacements(v, dts)[j] == Step(v[j], dts[j]);
      }
    }
    forall j | 0 <= j < |ids| && !IsGroupStart(ids, j) ensures dts[j].Some? && seeded[j] == Some(v[j] * dts[j].value) {
      assert seeded[j] == Displacements(v, dts)[j] == Step(v[j], dts[j]);
    }
  }

  /** Lines 51-75: seeding the displacements with `SeedFirst` and summing them per target is dead
      reckoning. */
  lemma SeededReckoned(ids: seq<string>, dts: seq<Option<real>>, v: seq<real>, seeded: seq<Option<real>>, seeds: seq<real>)
    requires |v| == |dts| && Grouped(ids) && MarksStarts(ids, dts) && SeededWith(ids, Displacements(v, dts), seeds, seeded)
    ensures Reckoned(ids, dts, v, seeded, GroupCumsum(ids, seeded), seeds)
  {
    SeededColumn(ids, dts, v, seeded, seeds);
    CumsumColumn(ids, seeded);
    var pos := GroupCumsum(ids, seeded);
    forall k | 0 <= k < |ids| ensures ReckonedAt(ids, dts, v, seeded, pos, seeds, k) {
      if IsGroupStart(ids, k) {
        assert seeded[k] == Some(seeds[Starts(ids, k)]);
      }
    }
  }

  /** Row `k` of a dead-reckoned column: the first row of the g-th group sits at `seeds[g]`, and
      every later row is the previous position moved by `v[k] * dts[k]`. */
  lemma ReckonedRow(ids: seq<string>, dts: seq<Option<real>>, v: seq<real>, d: seq<Option<real>>, pos: seq<Option<real>>,
                    seeds: seq<real>, k: nat)
    requires Reckoned(ids, dts, v, d, pos, seeds) && k < |ids|
    ensures pos[k].Some?
    ensures IsGroupStart(ids, k) ==> Starts(ids, k) < |seeds| && pos[k] == Some(seeds[Starts(ids, k)])
    ensures !IsGroupStart(ids, k) ==>
      k > 0 && ids[k - 1] == ids[k] && dts[k].Some? && pos[k - 1].Some? &&
      d[k].Some? && d[k] == Step(v[k], dts[k]) && pos[k] == Some(pos[k - 1].value + d[k].value)
  {
    assert ReckonedAt(ids, dts, v, d, pos, seeds, k);
    if !IsGroupStart(ids, k) {
      assert Step(v[k], dts[k]) == Some(v[k] * dts[k].value);
    }
  }

  /** One target "A" seeded at 10, one second after its first report moving at 10 along the
      axis: its second position is 20. */
  lemma ReckonedExample(d: seq<Option<real>>, pos: seq<Option<real>>)
    requires Reckoned(["A", "A"], [None, Some(1.0)], [0.0, 10.0], d, pos, [10.0])
    ensures pos == [Some(10.0), Some(20.0)]
  {
    var ids := ["A", "A"];
    assert IsGroupStart(ids, 0) && !IsGroupStart(ids, 1);
    assert Starts(ids, 0) == 0;
    ReckonedRow(ids, [None, Some(1.0)], [0.0, 10.0], d, pos, [10.0], 0);
    ReckonedRow(ids, [None, Some(1.0)], [0.0, 10.0], d, pos, [10.0], 1);
  }
}
