/** The plot reports and the first two table transformations: the speed filter and the sort by
    target and time. */
module Samples {
  import opened Seqs
  import opened Ids

  /** One plot report: target id (read as text), time of day in milliseconds, speed in m/s and
      heading in degrees clockwise from North. Latitude and longitude are carried by the table but
      not used by the reconstruction. */
  datatype Row = Row(id: string, time: int, speed: real, heading: real)

  function IdOf(r: Row): string { r.id }

  /** The admissible speed band; slower or faster reports are sensor artefacts. */
  predicate ValidSpeed(r: Row)
  {
    0.0 <= r.speed < 30.0
  }

  /** `query("0 <= speed < 30")`. */
  function SpeedFilter(rows: seq<Row>): (kept: seq<Row>)
    ensures forall r :: r in kept ==> 0.0 <= r.speed < 30.0
    ensures forall r :: r in rows && 0.0 <= r.speed < 30.0 ==> r in kept
    ensures forall r :: multiset(kept)[r] == if 0.0 <= r.speed < 30.0 then multiset(rows)[r] else 0
    ensures IsSubsequence(kept, rows)
  {
    FilterCount(ValidSpeed, rows);
    FilterIsSubsequence(ValidSpeed, rows);
    Filter(ValidSpeed, rows)
  }

  /** The row order of `sort_values(["target_id", time])`: by id, then by time. */
  predicate RowLe(a: Row, b: Row)
  {
    if a.id != b.id then StrLe(a.id, b.id) else a.time <= b.time
  }

  lemma RowLeTotalPreorder()
    ensures TotalPreorder(RowLe)
  {
    forall a, b ensures RowLe(a, b) || RowLe(b, a) {
      StrLeTotal(a.id, b.id);
    }
    forall a, b, c | RowLe(a, b) && RowLe(b, c) ensures RowLe(a, c) {
      if a.id != b.id && b.id != c.id {
        StrLeTransitive(a.id, b.id, c.id);
        if a.id == c.id {
          StrLeAntisymmetric(a.id, b.id);
        }
      }
    }
  }

  /** `RowLe` orders ids before it orders times. */
  lemma RowLeRefinesIds()
    ensures forall a, b :: RowLe(a, b) ==> StrLe(IdOf(a), IdOf(b))
  {
    forall a: Row, b: Row | RowLe(a, b) ensures StrLe(IdOf(a), IdOf(b)) {
      StrLeRefl(a.id);
    }
  }

  /** `sort_values(["target_id", time])`: a stable sort, for a multi-column sort is a lexsort. */
  function SortRows(rows: seq<Row>): (r: seq<Row>)
    ensures multiset(r) == multiset(rows)
    ensures Sorted(RowLe, r)
  {
    RowLeTotalPreorder();
    SortBySorted(RowLe, rows);
    SortBy(RowLe, rows)
  }

  /** Reports of one target at one instant keep the order in which they were read. */
  lemma SortRowsStable(rows: seq<Row>, c: Row)
    ensures Filter(TiedWith(RowLe, c), SortRows(rows)) == Filter(TiedWith(RowLe, c), rows)
    ensures forall r :: TiedWith(RowLe, c)(r) <==> r.id == c.id && r.time == c.time
  {
    RowLeTotalPreorder();
    SortByStable(RowLe, rows, c);
    forall r ensures TiedWith(RowLe, c)(r) <==> r.id == c.id && r.time == c.time {
      if RowLe(c, r) && RowLe(r, c) && c.id != r.id {
        StrLeAntisymmetric(c.id, r.id);
      }
    }
  }

  /** After the sort a target's rows are contiguous and in non-decreasing time. */
  lemma SortedRowsGrouped(s: seq<Row>)
    requires Sorted(RowLe, s)
    ensures Grouped(Map(IdOf, s))
    ensures forall i, j :: 0 <= i < j < |s| && s[i].id == s[j].id ==> s[i].time <= s[j].time
  {
    RowLeRefinesIds();
    SortedIdColumn(RowLe, IdOf, s);
    SortedIdsGrouped(Map(IdOf, s));
  }
}
