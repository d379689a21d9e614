# Top-10 extremal-acceleration track reconstruction, modelled in Dafny

`top10_tracking.py` reads radar plot reports (one row per target per scan), keeps the plausible
ones, computes per-target time steps, speed steps and accelerations, picks the ten targets whose
reports rank first by acceleration, and rebuilds their tracks by dead reckoning from a table of
seed positions. This project models that pipeline (lines 13-75 of the script) and proves what
each stage guarantees.

The model follows the script stage by stage:

- `Samples`: a plot report `Row` (target id as text, time of day in milliseconds, speed, heading
  in degrees), the speed filter `0 <= speed < 30`, and the stable sort by target and time.
- `Kinematics`: `groupby("target_id")["time"].diff()` (difference to the previous row of the same
  target, absent on its first row), the drop of rows with `dt == 0`, `dv` (speed difference to the
  previous retained row of the target, 0 on its first) and `a = dv / dt`.
- `Selection`: the ranking by `a` (ascending, absent values last, tie order left open), the loop
  that collects the first ten distinct target ids (the method `SelectTop` with its early exit),
  the `isin` restriction and the re-sort.
- `Integration`: `dx = dv_x * dt`, the seed overwrite `update_first_dx` with its shared cursor (the
  method `SeedFirst`; running out of seeds is the `KeyError` of the script, returned as a
  `Failure`), `groupby(...).cumsum()` with NaN skipped, and the one-axis dead-reckoning reference
  `Reckoned`.
- `Pipeline`: the whole run, the method `Reconstruct`, specified by the trajectory predicate
  `IsTrajectory` and the facts proved about the selected table.
- `Ids` and `Seqs`: the text order of target ids, grouping of a sorted id column, counting of
  groups, and generic sequence tools (map, filter, stable insertion sort).

Absent pandas values (NaN) are `Option.None`. Real numbers are Dafny `real`.

The script filters with `query("dt != 0")`, and NaN differs from 0, so the first report of
each target, whose `dt` is undefined, is kept with `dt` absent, `dv = 0` and `a` absent: `Kinematics.DropZeroDt` keeps
these rows and `Pipeline.TrackFacts` proves that the rows without `dt` are exactly each target's
first row. It is also this first row that the seed overwrite replaces.

## Model

| member | source | states |
|---|---|---|
| `Samples.SpeedFilter` | top10_tracking.py:17 | every kept report has `0 <= speed < 30`; every report in that band is kept, with its multiplicity; the kept reports keep their original relative order (a subsequence of the input) |
| `Samples.RowLeTotalPreorder` | top10_tracking.py:20 | ordering by (target id, time) is total and transitive, so the sort is well defined |
| `Samples.SortRows` | top10_tracking.py:20 | the sorted table is a permutation of its input and is ordered by target id, then time |
| `Samples.SortRowsStable` | top10_tracking.py:20 | the sort is stable: reports with the same id and time stay in their input order |
| `Samples.SortedRowsGrouped` | top10_tracking.py:20 | in a table sorted by target and time, the rows of one target are contiguous and their times never decrease |
| `Kinematics.DtOfSorted` | top10_tracking.py:25-26 | on sorted reports, `dt` is absent exactly on a target's first row; elsewhere it is the time since the adjacent previous row, in seconds, and is non-negative |
| `Kinematics.WithDt` | top10_tracking.py:25-26 | one decorated row per report, each carrying its report unchanged and in place |
| `Kinematics.WithDtFirstsMarked` | top10_tracking.py:25 | whatever the row order, the rows without `dt` are exactly the first report of each target in table order |
| `Kinematics.DropZeroDt` | top10_tracking.py:29 | a row survives exactly when its `dt` is not 0, each surviving row with its full multiplicity and every other row dropped; rows with an absent `dt` are kept; the survivors keep their order |
| `Kinematics.DropZeroDtPositive` | top10_tracking.py:25-29 | on sorted reports, every `dt` left after the drop is strictly positive |
| `Kinematics.DerivedAt` | top10_tracking.py:31-32 | a derived row keeps its report and `dt`; `dv` is 0 when no earlier row has the same target; `a` is present exactly when `dt` is, and is then `dv / dt` |
| `Kinematics.WithDvA` | top10_tracking.py:31-32 | the same for every row of the table, one derived row per retained row |
| `Kinematics.WithDvANonZero` | top10_tracking.py:29-32 | adding `dv` and `a` brings back no row with `dt == 0` |
| `Kinematics.DvOfPrevious` | top10_tracking.py:31 | in any row order, a row whose target occurred before has `dv` equal to its speed minus the speed of the last earlier row of that target |
| `Kinematics.DvOfGrouped` | top10_tracking.py:31-32 | on grouped retained rows, `dv` is the speed step from the adjacent previous row of the same target and 0 on a group's first row; `a = dv / dt` where `dt` is present and absent where it is not |
| `Kinematics.DvOfSorted` | top10_tracking.py:31-32 | on sorted retained rows, `dv` is the speed step from the previous retained row of the same target and 0 on its first; `a = dv / dt` where `dt` is present and absent where it is not |
| `Kinematics.Differences` | top10_tracking.py:25-32 | the differencing stage returns no more rows than it gets, and none of them has `dt == 0` |
| `Kinematics.DifferencesRows` | top10_tracking.py:25-32 | every derived row carries one of the input reports |
| `Kinematics.DifferencesOrdered` | top10_tracking.py:25-32 | on sorted reports the derived rows stay sorted, and the rows without `dt` are exactly each target's first row |
| `Kinematics.DifferencesAt` | top10_tracking.py:25-32 | on sorted reports, a target's first derived row has no `dt`, `dv = 0` and no `a`; every later row has `dt > 0`, `dv` equal to the speed step from the row before, and `a = dv / dt` |
| `Kinematics.DifferencesOfSorted` | top10_tracking.py:25-32 | all of the above for every derived row at once |
| `Selection.ByATotalPreorder` | top10_tracking.py:35 | the `a` ordering (absent values last) is a total preorder |
| `Selection.RankingExists` | top10_tracking.py:35 | a ranking by `a` exists for every table: a permutation in ascending `a` |
| `Selection.Distinct` | top10_tracking.py:38-43 | the distinct ids of a sequence are exactly its ids, without repeats and no more of them than it has elements |
| `Selection.DistinctInFirstOccurrenceOrder` | top10_tracking.py:38-43 | the distinct ids appear in the order of their first occurrence |
| `Selection.TopDistinct` | top10_tracking.py:38-43 | the selection has no duplicates, has `min(10, number of distinct ids)` elements, holds only ranked ids, lists them in first-occurrence order, and holds every id that occurs before ten distinct ids have been seen |
| `Selection.TopCoversEarlyIds` | top10_tracking.py:38-43 | an id occurring while fewer than ten distinct ids were seen before it is among the first ten distinct ids |
| `Selection.SelectTop` | top10_tracking.py:38-43 | the loop with its early `break` returns exactly `TopDistinct` of the ranked ids |
| `Selection.SelectionIsExtremal` | top10_tracking.py:35-43 | for any selected target and any row of an unselected target, the selected target has an earlier-ranked row whose `a` is no larger |
| `Selection.Restrict` | top10_tracking.py:46 | the restriction holds exactly the rows whose target is selected, each with its multiplicity, unchanged and in their order |
| `Selection.SortTrack` | top10_tracking.py:47 | the re-sort is a permutation ordered by target and time |
| `Selection.SortTrackOfRestricted` | top10_tracking.py:46-47 | restricting sorted rows and sorting again gives the restriction itself |
| `Ids.LastIndexBeforeGrouped` | top10_tracking.py:25 | on a grouped id column the previous row of the same target is the adjacent previous row, and there is none exactly at a group start |
| `Ids.GroupStartIsFirstOccurrence` | top10_tracking.py:58-60 | on a grouped column, a row starts a group exactly when its id has not occurred before it |
| `Ids.StartsCountsIds` | top10_tracking.py:57-72 | the number of group starts before row `n` equals the number of distinct ids before `n` |
| `Ids.SortedGroupStartsAscending` | top10_tracking.py:71-72 | in an id column sorted by id, each group start has an id strictly after all ids before it |
| `Integration.Step` | top10_tracking.py:52-53 | a displacement is present exactly when `dt` is |
| `Integration.SeedFirst` | top10_tracking.py:57-72 | succeeds exactly when there are at least as many seeds as groups; then the cursor ends at the number of groups, each group's first row gets the group's seed in visiting order and every other row keeps its value; otherwise the cursor is at the end of the seed table and the failure names the first group left without a seed |
| `Integration.GroupCumsum` | top10_tracking.py:74-75 | the running sum is present exactly where the displacement is |
| `Integration.CumsumAtGroupStart` | top10_tracking.py:74-75 | at a target's first row the running sum is that row's displacement |
| `Integration.CumsumStep` | top10_tracking.py:74-75 | inside a target, the running sum is the previous row's sum plus the row's displacement |
| `Integration.CumsumOfPresent` | top10_tracking.py:74-75 | with a displacement on every row, every sum is present, a first row's sum is its displacement, and each later sum adds the row's displacement to the previous one |
| `Integration.CumsumColumn` | top10_tracking.py:74-75 | the same for every row of the column |
| `Integration.CumsumWithinTarget` | top10_tracking.py:74-75 | sums never cross target boundaries: a row's sum depends only on the displacements of its own target |
| `Integration.SeededColumn` | top10_tracking.py:49-72 | when `dt` is absent exactly on the first rows, every seeded displacement is present and every non-first row keeps `dv * dt` |
| `Integration.SeededReckoned` | top10_tracking.py:52-75 | seeding the displacements as `SeedFirst` does and summing them per target is dead reckoning along that axis (`Reckoned`) |
| `Integration.ReckonedRow` | top10_tracking.py:52-75 | in a dead-reckoned column, the g-th group's first row sits at seed g; every later row has the same target as the row before, displacement `Step(v, dt)`, and the previous position plus that displacement |
| `Integration.ReckonedExample` | top10_tracking.py:52-75 | one target seeded at 10, moving at 10 for one second after its first report, is at 10 and then 20 |
| `Pipeline.Derive` | top10_tracking.py:17-32 | no derived row has `dt == 0` |
| `Pipeline.DeriveInBand` | top10_tracking.py:17-32 | every derived row carries a report inside the speed band |
| `Pipeline.DeriveFacts` | top10_tracking.py:17-32 | the derived rows are sorted by target and time, the rows without `dt` are exactly each target's first row, and every present `dt` is positive |
| `Pipeline.Selected` | top10_tracking.py:35-43 | the selected target ids have no repeats and are at most ten |
| `Pipeline.Track` | top10_tracking.py:46-47 | the track table holds exactly the derived rows whose target is selected |
| `Pipeline.RestrictGroups` | top10_tracking.py:46-47 | restricting the derived rows keeps them sorted and grouped, and `dt` is still absent exactly on each target's first row |
| `Pipeline.RestrictTargets` | top10_tracking.py:46 | when every selected target has rows, the targets of the restriction are exactly the selected ones |
| `Pipeline.GroupCount` | top10_tracking.py:71-72 | a grouped table holding exactly the targets of a repeat-free list has one group per listed target |
| `Pipeline.SelectedPresent` | top10_tracking.py:38-46 | every selected target has derived rows |
| `Pipeline.TrackFacts` | top10_tracking.py:46-47 | the re-sorted restriction equals the restriction, is grouped, holds exactly the selected targets in one group each, and has `dt` absent exactly on each target's first row |
| `Pipeline.TrackGroupsAscending` | top10_tracking.py:71-72 | the groups of the restricted table, and so the seeds, are visited in ascending target id order |
| `Pipeline.SeededTrajectory` | top10_tracking.py:49-75 | both seeded displacement columns with their running sums form a trajectory table (`IsTrajectory`) |
| `Pipeline.Positions` | top10_tracking.py:49-75 | one output row per track row, carrying that row; the positions `x` and `y`, running sums over the target, are present exactly where the seeded displacements `dx` and `dy` are |
| `Pipeline.TrajectoryAt` | top10_tracking.py:52-75 | in a trajectory table every position is present; a target's first row is at that target's seed `(x0, y0)`; each later row of a target has displacement `dv * dt` on each axis and is the previous row's position plus that displacement |
| `Pipeline.Reconstruct` | top10_tracking.py:13-75 | the run succeeds exactly when there are at least as many seeds as selected targets; it then returns a trajectory table of the selected targets' rows; otherwise the failure names a selected target and the cursor stands at the end of the seed table |

## Left out

- CSV reading and writing, the Shift-JIS encoding, the column selection and renaming (lines 7-10, 55, 80): the reports and the seed table are inputs, and the output table is the returned value.
- The `astype(float)` conversions (lines 13-14, 30, 77-78): the report fields arrive typed.
- `pd.to_datetime` (line 23): times arrive as integer milliseconds of the day. The sort at line 20 is on the zero-padded `HH:MM:SS.mmm` text, which orders the same as that number.
- `np.radians`, `np.sin`, `np.cos` (lines 48-50): floating-point trigonometry; the sine and cosine of a heading in degrees are the parameters `sinDeg` and `cosDeg` of `Pipeline.Reconstruct`.
- `Pipeline.Reconstruct`: line 48 overwrites the heading column with its value in radians, so the script's output table holds the heading in radians; in the model the output rows keep the heading in degrees, and the conversion is folded into `sinDeg` and `cosDeg`.
- IEEE floating point: values are exact reals, without rounding or infinities; NaN is modelled only as an absent value (`Option.None`).
- `Pipeline.Reconstruct`: the tie order of `sort_values("a")` (line 35) is not fixed by pandas. The ranking is the parameter `rankByA`, and the contract holds for every ranking that is an ascending permutation with absent `a` values last (`Selection.RankedByA`).
- `reset_index` (lines 20, 47) adds an index column; the model works on row positions only.
- Latitude and longitude are carried by the table but not used by the reconstruction.
- `Integration.SeedFirst`: `groupby(...).apply` is taken to call `update_first_dx` once per group, in group order. Its result is taken to line up with the rows of the table sorted by target, as `list(...)` assigns it by position. Some pandas versions call the function twice on the first group, which would advance the cursor twice; this is not modelled.
- The plotting and animation (lines 84-116): visualisation only.
