/** The reconstruction run end to end: filter, sort, differencing, selection, restriction and dead
    reckoning. */
module Pipeline {
  import opened Wrappers
  import opened Seqs
  import opened Ids
  import opened Samples
  import opened Kinematics
  import opened Selection
  import opened Integration

  /** A row of the output table: the derived report, its velocity components, its displacement
      and its reconstructed position. */
  datatype Point = Point(d: Derived, dvx: real, dvy: real, dx: Option<real>, dy: Option<real>, x: Option<real>, y: Option<real>)

  function DtOf(d: Derived): Option<real> { d.dt }
  function SeedX(s: (real, real)): real { s.0 }
  function SeedY(s: (real, real)): real { s.1 }

  /** Lines 17-32: the derived rows of all targets; none of them has a zero `dt`. */
  function Derive(rows: seq<Row>): (d: seq<Derived>)
    ensures forall x :: x in d ==> x.dt != Some(0.0)
  {
    Differences(SortRows(SpeedFilter(rows)))
  }

  /** Lines 35-43: the selected target ids, for the ranking `rankByA` chosen by `sort_values("a")`. */
  function Selected(rows: seq<Row>, rankByA: seq<Derived> -> seq<Derived>): (sel: seq<string>)
    ensures NoDuplicates(sel) && |sel| <= TopCount
  {
    TopDistinct(Map(DerivedId, rankByA(Derive(rows))))
  }

  /** Lines 46-47: the rows of the selected targets, by target and time. */
  function Track(rows: seq<Row>, rankByA: seq<Derived> -> seq<Derived>): (t: seq<Derived>)
    ensures forall x :: x in t <==> x in Derive(rows) && x.row.id in Selected(rows, rankByA)
  {
    var r := Restrict(Derive(rows), Selected(rows, rankByA));
    var t := SortTrack(r);
    assert forall x :: x in t <==> x in r by {
      forall x ensures x in t <==> x in r {
        assert x in t <==> x in multiset(t);
        assert x in r <==> x in multiset(r);
      }
    }
    t
  }

  /** No report outside the speed band survives the filter into the derived rows. */
  lemma DeriveInBand(rows: seq<Row>, x: Derived)
    requires x in Derive(rows)
    ensures 0.0 <= x.row.speed < 30.0
  {
    var s := SortRows(SpeedFilter(rows));
    DifferencesRows(s, x);
    assert x.row in multiset(s);
    assert x.row in SpeedFilter(rows);
  }

  /** The derived rows are sorted by target and time; a row's `dt` is absent exactly on its
      target's first row and positive elsewhere. */
  lemma DeriveFacts(rows: seq<Row>)
    ensures Sorted(DerivedLe, Derive(rows))
    ensures FirstsMarked(Derive(rows), DerivedId, DerivedDtAbsent)
    ensures forall x :: x in Derive(rows) && x.dt.Some? ==> x.dt.value > 0.0
  {
    var s := SortRows(SpeedFilter(rows));
    DifferencesOfSorted(s);
    forall x | x in Derive(rows) && x.dt.Some? ensures x.dt.value > 0.0 {
      DifferencesDtPositive(s, x);
    }
  }

  lemma DerivedLeRefinesIds()
    ensures forall a, b :: DerivedLe(a, b) ==> StrLe(DerivedId(a), DerivedId(b))
  {
    RowLeRefinesIds();
    forall a: Derived, b: Derived | DerivedLe(a, b) ensures StrLe(DerivedId(a), DerivedId(b)) {
      assert StrLe(IdOf(a.row), IdOf(b.row));
    }
  }

  /** Restricting sorted derived rows to some targets keeps them sorted and grouped, and its rows
      without `dt` are still exactly each group's first row. */
  lemma RestrictGroups(d: seq<Derived>, sel: seq<string>)
    requires Sorted(DerivedLe, d) && FirstsMarked(d, DerivedId, DerivedDtAbsent)
    ensures Sorted(DerivedLe, Restrict(d, sel))
    ensures Grouped(Map(DerivedId, Restrict(d, sel)))
    ensures MarksStarts(Map(DerivedId, Restrict(d, sel)), Map(DtOf, Restrict(d, sel)))
  {
    var t := Restrict(d, sel);
    var ids := Map(DerivedId, t);
    SortTrackOfRestricted(d, sel);
    DerivedLeRefinesIds();
    SortedIdColumn(DerivedLe, DerivedId, t);
    SortedIdsGrouped(ids);
    var keep := set x | x in sel;
    FilterByIdKeepsFirstsMarked(HasIdIn(sel), keep, d, DerivedId, DerivedDtAbsent);
    assert FirstsMarked(t, DerivedId, DerivedDtAbsent);
    forall k | 0 <= k < |t| ensures Map(DtOf, t)[k].None? <==> IsGroupStart(ids, k) {
      GroupStartIsFirstOccurrence(ids, k);
    }
  }

  /** When every selected target has rows, the restriction holds exactly the selected targets. */
  lemma RestrictTargets(d: seq<Derived>, sel: seq<string>)
    requires forall x :: x in sel ==> x in Map(DerivedId, d)
    ensures forall x :: x in Map(DerivedId, Restrict(d, sel)) <==> x in sel
  {
    var t := Restrict(d, sel);
    forall x ensures x in Map(DerivedId, t) <==> x in sel {
      InMap(DerivedId, t, x);
      if x in sel {
        InMap(DerivedId, d, x);
        var y :| y in d && DerivedId(y) == x;
        assert y in t;
      }
    }
  }

  /** A grouped id column holding exactly the targets of `sel`, which has no repeats, has one group
      per target of `sel`. */
  lemma GroupCount(ids: seq<string>, sel: seq<string>)
    requires Grouped(ids)
    requires forall x :: x in ids <==> x in sel
    requires NoDuplicates(sel)
    ensures Starts(ids, |ids|) == |sel|
  {
    StartsCountsIds(ids, |ids|);
    assert ids[..|ids|] == ids;
    var a, b := set x | x in ids, set x | x in sel;
    assert a == b by {
      forall x ensures x in a <==> x in b { }
    }
    NoDuplicatesCard(sel);
  }

  /** Every selected target has derived rows. */
  lemma SelectedPresent(rows: seq<Row>, rankByA: seq<Derived> -> seq<Derived>)
    requires forall d :: RankedByA(rankByA(d), d)
    ensures forall x :: x in Selected(rows, rankByA) ==> x in Map(DerivedId, Derive(rows))
  {
    var d := Derive(rows);
    var ranked := rankByA(d);
    forall x | x in Selected(rows, rankByA) ensures x in Map(DerivedId, d) {
      InMap(DerivedId, ranked, x);
      var r :| r in ranked && DerivedId(r) == x;
      assert r in multiset(ranked);
      InMap(DerivedId, d, x);
    }
  }

  /** The restricted table: it is the restriction itself (the re-sort changes nothing), its
      targets are exactly the selected ones, one group per selected target in ascending id order,
      and its rows without `dt` are exactly each group's first row. */
  lemma TrackFacts(rows: seq<Row>, rankByA: seq<Derived> -> seq<Derived>)
    requires forall d :: RankedByA(rankByA(d), d)
    ensures Track(rows, rankByA) == Restrict(Derive(rows), Selected(rows, rankByA))
    ensures Grouped(Map(DerivedId, Track(rows, rankByA)))
    ensures forall x :: x in Map(DerivedId, Track(rows, rankByA)) <==> x in Selected(rows, rankByA)
    ensures Starts(Map(DerivedId, Track(rows, rankByA)), |Track(rows, rankByA)|) == |Selected(rows, rankByA)|
    ensures MarksStarts(Map(DerivedId, Track(rows, rankByA)), Map(DtOf, Track(rows, rankByA)))
  {
    var d := Derive(rows);
    var sel := Selected(rows, rankByA);
    DeriveFacts(rows);
    SortTrackOfRestricted(d, sel);
    RestrictGroups(d, sel);
    SelectedPresent(rows, rankByA);
    RestrictTargets(d, sel);
    GroupCount(Map(DerivedId, Restrict(d, sel)), sel);
  }

  /** The groups of the restricted table are visited in ascending target id order, as the seed
      table is read. */
  lemma TrackGroupsAscending(rows: seq<Row>, rankByA: seq<Derived> -> seq<Derived>, i: nat, j: nat)
    requires forall d :: RankedByA(rankByA(d), d)
    requires i < j < |Track(rows, rankByA)| && IsGroupStart(Map(DerivedId, Track(rows, rankByA)), j)
    ensures StrLe(Track(rows, rankByA)[i].row.id, Track(rows, rankByA)[j].row.id)
    ensures Track(rows, rankByA)[i].row.id != Track(rows, rankByA)[j].row.id
  {
    var t := Track(rows, rankByA);
    var ids := Map(DerivedId, t);
    DerivedLeRefinesIds();
    SortedIdColumn(DerivedLe, DerivedId, t);
    SortedGroupStartsAscending(ids, i, j);
  }

  function PointDvx(p: Point): real { p.dvx }
  function PointDvy(p: Point): real { p.dvy }
  function PointDx(p: Point): Option<real> { p.dx }
  function PointDy(p: Point): Option<real> { p.dy }
  function PointX(p: Point): Option<real> { p.x }
  function PointY(p: Point): Option<real> { p.y }

  /** `p` is the reconstructed trajectory table of the rows `t`: row by row it carries the report
      and its velocity components, and along each axis its displacements and positions are the
      dead reckoning of those velocities from the seeds (`Reckoned`). */
  ghost predicate IsTrajectory(p: seq<Point>, t: seq<Derived>, seeds: seq<(real, real)>, sinDeg: real -> real, cosDeg: real -> real)
  {
    |p| == |t| &&
    (forall k :: 0 <= k < |t| ==>
      p[k].d == t[k] &&
      p[k].dvx == t[k].row.speed * sinDeg(t[k].row.heading) &&
      p[k].dvy == t[k].row.speed * cosDeg(t[k].row.heading)) &&
    Reckoned(Map(DerivedId, t), Map(DtOf, t), Map(PointDvx, p), Map(PointDx, p), Map(PointX, p), Map(SeedX, seeds)) &&
    Reckoned(Map(DerivedId, t), Map(DtOf, t), Map(PointDvy, p), Map(PointDy, p), Map(PointY, p), Map(SeedY, seeds))
  }

  /** Row `k` of a trajectory table: a target's first row sits at the target's seed; every later
      row of a target has a displacement `Step(dv, dt)`, velocity times time step, and is the
      previous row's position moved by that displacement. */
  lemma TrajectoryAt(p: seq<Point>, t: seq<Derived>, seeds: seq<(real, real)>, sinDeg: real -> real, cosDeg: real -> real, k: nat)
    requires IsTrajectory(p, t, seeds, sinDeg, cosDeg) && k < |t|
    ensures p[k].x.Some? && p[k].y.Some?
    ensures IsGroupStart(Map(DerivedId, t), k) ==>
      Starts(Map(DerivedId, t), k) < |seeds| &&
      p[k].x == Some(seeds[Starts(Map(DerivedId, t), k)].0) && p[k].y == Some(seeds[Starts(Map(DerivedId, t), k)].1)
    ensures !IsGroupStart(Map(DerivedId, t), k) ==>
      k > 0 && t[k - 1].row.id == t[k].row.id && t[k].dt.Some? &&
      p[k].dx == Step(p[k].dvx, t[k].dt) && p[k].dy == Step(p[k].dvy, t[k].dt)
    ensures !IsGroupStart(Map(DerivedId, t), k) ==>
      k > 0 && p[k - 1].x.Some? && p[k - 1].y.Some? && p[k].dx.Some? && p[k].dy.Some? &&
      p[k].x == Some(p[k - 1].x.value + p[k].dx.value) && p[k].y == Some(p[k - 1].y.value + p[k].dy.value)
  {
    var ids := Map(DerivedId, t);
    var xs, ys := Map(PointX, p), Map(PointY, p);
    ReckonedRow(ids, Map(DtOf, t), Map(PointDvx, p), Map(PointDx, p), xs, Map(SeedX, seeds), k);
    ReckonedRow(ids, Map(DtOf, t), Map(PointDvy, p), Map(PointDy, p), ys, Map(SeedY, seeds), k);
    assert xs[k] == p[k].x && ys[k] == p[k].y;
    if !IsGroupStart(ids, k) {
      assert xs[k - 1] == p[k - 1].x && ys[k - 1] == p[k - 1].y;
      assert Map(PointDx, p)[k] == p[k].dx && Map(PointDy, p)[k] == p[k].dy;
      assert Map(DtOf, t)[k] == t[k].dt && Map(PointDvx, p)[k] == p[k].dvx && Map(PointDvy, p)[k] == p[k].dvy;
    }
  }

  /** `dv_x` (with `sinDeg`) or `dv_y` (with `cosDeg`): speed times the heading's component. */
  function Velocities(t: seq<Derived>, trig: real -> real): (v: seq<real>)
    ensures |v| == |t|
    ensures forall k :: 0 <= k < |t| ==> v[k] == t[k].row.speed * trig(t[k].row.heading)
  {
    seq(|t|, k requires 0 <= k < |t| => t[k].row.speed * trig(t[k].row.heading))
  }

  /** The output table: each row with its velocities, its seeded displacements and the running
      sums of those over its target. */
  function Positions(t: seq<Derived>, vx: seq<real>, vy: seq<real>, dx: seq<Option<real>>, dy: seq<Option<real>>): (p: seq<Point>)
    requires |vx| == |vy| == |dx| == |dy| == |t|
    ensures |p| == |t|
    ensures forall k :: 0 <= k < |t| ==> p[k].d == t[k] && (p[k].x.Some? <==> dx[k].Some?) && (p[k].y.Some? <==> dy[k].Some?)
  {
    var ids := Map(DerivedId, t);
    var xs, ys := GroupCumsum(ids, dx), GroupCumsum(ids, dy);
    seq(|t|, k requires 0 <= k < |t| => Point(t[k], vx[k], vy[k], dx[k], dy[k], xs[k], ys[k]))
  }

  /** Both displacement columns, seeded as `SeedFirst` does it, give a trajectory table. */
  lemma SeededTrajectory(t: seq<Derived>, seeds: seq<(real, real)>, sinDeg: real -> real, cosDeg: real -> real,
                         dx: seq<Option<real>>, dy: seq<Option<real>>)
    requires Grouped(Map(DerivedId, t)) && MarksStarts(Map(DerivedId, t), Map(DtOf, t))
    requires SeededWith(Map(DerivedId, t), Displacements(Velocities(t, sinDeg), Map(DtOf, t)), Map(SeedX, seeds), dx)
    requires SeededWith(Map(DerivedId, t), Displacements(Velocities(t, cosDeg), Map(DtOf, t)), Map(SeedY, seeds), dy)
    ensures IsTrajectory(Positions(t, Velocities(t, sinDeg), Velocities(t, cosDeg), dx, dy), t, seeds, sinDeg, cosDeg)
  {
    var ids, dts := Map(DerivedId, t), Map(DtOf, t);
    var vx, vy := Velocities(t, sinDeg), Velocities(t, cosDeg);
    SeededReckoned(ids, dts, vx, dx, Map(SeedX, seeds));
    SeededReckoned(ids, dts, vy, dy, Map(SeedY, seeds));
    PositionsColumns(t, vx, vy, dx, dy);
  }

  /** Read back column by column, the output table holds the columns it was assembled from. */
  lemma PositionsColumns(t: seq<Derived>, vx: seq<real>, vy: seq<real>, dx: seq<Option<real>>, dy: seq<Option<real>>)
    requires |vx| == |vy| == |dx| == |dy| == |t|
    ensures forall k :: 0 <= k < |t| ==> Positions(t, vx, vy, dx, dy)[k].d == t[k]
    ensures Map(PointDvx, Positions(t, vx, vy, dx, dy)) == vx
    ensures Map(PointDvy, Positions(t, vx, vy, dx, dy)) == vy
    ensures Map(PointDx, Positions(t, vx, vy, dx, dy)) == dx
    ensures Map(PointDy, Positions(t, vx, vy, dx, dy)) == dy
    ensures Map(PointX, Positions(t, vx, vy, dx, dy)) == GroupCumsum(Map(DerivedId, t), dx)
    ensures Map(PointY, Positions(t, vx, vy, dx, dy)) == GroupCumsum(Map(DerivedId, t), dy)
  {
  }

  /** The run. `rankByA` is the sort of line 35, of which only the outcome's order is fixed;
      `sinDeg` and `cosDeg` are sine and cosine of an angle in degrees. The run fails exactly when
      the seed table is shorter than the list of selected targets. */
  method Reconstruct(rows: seq<Row>, rankByA: seq<Derived> -> seq<Derived>, seeds: seq<(real, real)>,
                     sinDeg: real -> real, cosDeg: real -> real)
    returns (res: Result<seq<Point>, Failure>)
    requires forall d :: RankedByA(rankByA(d), d)
    ensures res.Ok? <==> |Selected(rows, rankByA)| <= |seeds|
    ensures res.Ok? ==> IsTrajectory(res.value, Track(rows, rankByA), seeds, sinDeg, cosDeg)
    ensures res.Err? ==> res.error.cursor == |seeds| && res.error.target in Selected(rows, rankByA)
  {
    var derived := Derive(rows);
    var top := SelectTop(Map(DerivedId, rankByA(derived)));
    var track := SortTrack(Restrict(derived, top));
    TrackFacts(rows, rankByA);
    var ids := Map(DerivedId, track);
    var vx, vy := Velocities(track, sinDeg), Velocities(track, cosDeg);
    var rawX, rawY := Displacements(vx, Map(DtOf, track)), Displacements(vy, Map(DtOf, track));
    var dx, i := SeedFirst(ids, rawX, Map(SeedX, seeds));
    if dx.Err? {
      return Err(dx.error);
    }
    var dy, j := SeedFirst(ids, rawY, Map(SeedY, seeds));
    assert dy.Ok?;
    SeededTrajectory(track, seeds, sinDeg, cosDeg, dx.value, dy.value);
    res := Ok(Positions(track, vx, vy, dx.value, dy.value));
  }
}
