/** The date-by-hour table behind the heatmap: one row per date, one column
    per hour that has events (`groupby(['Date', 'Hour']).size()
    .unstack(fill_value=0)`), to which the dashboard adds the missing hour
    columns in place before reindexing to the 24 hours. */
module Heatmap {

  /** The hours that `for hour in range(24)` visits. */
  predicate IsHour(x: int) {
    0 <= x < 24
  }

  /** A row under the 24 hour labels, 0 where it has no such column. */
  function HourRow(row: map<int, nat>): (r: seq<nat>)
    ensures |r| == 24
    ensures forall h :: 0 <= h < 24 ==> r[h] == if h in row then row[h] else 0
  {
    seq(24, h requires 0 <= h < 24 => if h in row then row[h] else 0)
  }

  /** `heatmap_data[hour] = 0` on the rows. */
  function WithZeroColumn(rows: seq<map<int, nat>>, hour: int): (r: seq<map<int, nat>>)
    ensures |r| == |rows|
    ensures forall d :: 0 <= d < |r| ==> r[d] == rows[d][hour := 0]
  {
    seq(|rows|, d requires 0 <= d < |rows| => rows[d][hour := 0])
  }

  /** A zero column added where a row had none leaves the reindexed row as
      it was: reindexing with `fill_value=0` supplies the same zero. */
  lemma ZeroColumnInvisible(row: map<int, nat>, hour: int)
    requires hour !in row
    ensures HourRow(row[hour := 0]) == HourRow(row)
  {
    assert forall h :: 0 <= h < 24 ==> HourRow(row[hour := 0])[h] == HourRow(row)[h];
  }

  class HourTable {
    /** The column labels, in order. */
    var columns: seq<int>
    /** One row per date: the event count under each column label. */
    var cells: seq<map<int, nat>>

    /** Every row has exactly the columns of the table. */
    ghost predicate Valid()
      reads this
    {
      forall d, x :: 0 <= d < |cells| ==> (x in cells[d] <==> x in columns)
    }

    constructor (columns: seq<int>, cells: seq<map<int, nat>>)
      requires forall d, x :: 0 <= d < |cells| ==> (x in cells[d] <==> x in columns)
      ensures Valid()
      ensures this.columns == columns && this.cells == cells
    {
      this.columns := columns;
      this.cells := cells;
    }

    /** `heatmap_data.reindex(columns=range(24), fill_value=0)`: each row
        as 24 counts, 0 under an hour the table has no column for. */
    function Reindexed(): (r: seq<seq<nat>>)
      reads this
      requires Valid()
      ensures |r| == |cells|
      ensures forall d :: 0 <= d < |r| ==> r[d] == HourRow(cells[d])
      ensures forall d, h :: 0 <= d < |r| && 0 <= h < 24 ==>
                |r[d]| == 24 && r[d][h] == if h in columns then cells[d][h] else 0
    {
      var rows := cells;
      seq(|rows|, d requires 0 <= d < |rows| => HourRow(rows[d]))
    }

    /** The loop that adds a zero column for each hour the table lacks. */
    method AddMissingHours()
      requires Valid()
      modifies this
      ensures Valid()
      ensures forall x :: x in columns <==> x in old(columns) || IsHour(x)
      ensures |old(columns)| <= |columns| && columns[..|old(columns)|] == old(columns)
      ensures forall i, j :: |old(columns)| <= i < j < |columns| ==> columns[i] < columns[j]
      ensures |cells| == |old(cells)|
      ensures forall d, x :: 0 <= d < |cells| && x in old(columns) ==> cells[d][x] == old(cells)[d][x]
      ensures forall d, x :: 0 <= d < |cells| && x !in old(columns) && IsHour(x) ==> cells[d][x] == 0
      ensures Reindexed() == old(Reindexed())
    {
      ghost var before := Reindexed();
      ghost var columns0, cells0 := columns, cells;
      assert forall d, x :: 0 <= d < |cells0| ==> (x in cells0[d] <==> x in columns0);
      for hour := 0 to 24
        invariant Valid()
        invariant forall x :: x in columns <==> x in old(columns) || 0 <= x < hour
        invariant |old(columns)| <= |columns| && columns[..|old(columns)|] == old(columns)
        invariant forall i :: |old(columns)| <= i < |columns| ==> 0 <= columns[i] < hour
        invariant forall i, j :: |old(columns)| <= i < j < |columns| ==> columns[i] < columns[j]
        invariant |cells| == |old(cells)|
        invariant forall d, x :: 0 <= d < |cells| && x in old(columns) ==> cells[d][x] == old(cells)[d][x]
        invariant forall d, x :: 0 <= d < |cells| && x !in old(columns) && x in columns ==> cells[d][x] == 0
      {
        if hour !in columns {
          columns := columns + [hour];
          cells := WithZeroColumn(cells, hour);
        }
      }
      forall d | 0 <= d < |cells|
        ensures Reindexed()[d] == before[d]
      {
        assert before[d] == HourRow(cells0[d]);
        forall h | 0 <= h < 24
          ensures Reindexed()[d][h] == before[d][h]
        {
          if h !in columns0 {
            assert h !in cells0[d];
          }
        }
      }
    }
  }
}
