/** Host statistics of the AI summary and of the report. */
module Hosts {

  import opened Wrappers
  import opened Frames
  import opened Ranking

  /** `df['Host'].nunique()`, 0 without a Host column: the number of
      distinct host names. There are never more hosts than events, and
      there is a host exactly when some event names one. */
  function UniqueHosts(f: Frame): (n: nat)
    ensures "Host" in f.columns ==> n == |set x | x in Present(Column(f, "Host"))|
    ensures n <= |f.rows|
    ensures n > 0 <==> "Host" in f.columns && exists i :: 0 <= i < |f.rows| && CellOf(f.rows[i], "Host").Some?
  {
    if "Host" in f.columns then Unique(Column(f, "Host")) else 0
  }

  /** `df['Host'].value_counts().head(n)`, empty without a Host column:
      `min(n, nunique)` hosts, busiest first, each with its number of
      events, and no host left out that has more events than the last one
      listed. */
  function TopHosts(f: Frame, n: nat): (r: seq<(string, nat)>)
    ensures |r| == Min(n, UniqueHosts(f))
    ensures NonIncreasing(r)
    ensures NoDuplicates(Keys(r))
    ensures forall i :: 0 <= i < |r| ==> r[i].1 >= 1 && r[i].1 == Occurrences(Present(Column(f, "Host")), r[i].0)
    ensures "Host" in f.columns ==>
              forall x :: Some(x) in Column(f, "Host") && x !in Keys(r) ==>
                |r| == n && (n > 0 ==> Occurrences(Present(Column(f, "Host")), x) <= r[n - 1].1)
  {
    if "Host" in f.columns then TopN(Column(f, "Host"), n) else []
  }

  /** The Host cells of the rows whose Status is "PROBLEM". */
  function ProblemCells(rows: seq<Row>): (c: seq<Option<string>>)
    ensures |c| <= |rows|
  {
    if rows == [] then []
    else
      var last := rows[|rows| - 1];
      ProblemCells(rows[..|rows| - 1]) + (if CellOf(last, "Status") == Some("PROBLEM") then [CellOf(last, "Host")] else [])
  }

  /** `df[df['Status'] == 'PROBLEM']['Host'].value_counts().head(5)`,
      empty without a Status column: the five hosts with the most PROBLEM
      events (all of them if fewer), busiest first, each with its number of
      PROBLEM events, which never exceeds its number of events; no host
      left out has more PROBLEM events than the last one listed. */
  function ProblemHosts(f: Frame): (r: seq<(string, nat)>)
    ensures "Status" !in f.columns ==> r == []
    ensures "Status" in f.columns ==> |r| == Min(5, Unique(ProblemCells(f.rows)))
    ensures "Status" in f.columns ==>
              forall x :: Some(x) in ProblemCells(f.rows) && x !in Keys(r) ==>
                |r| == 5 && Occurrences(Present(ProblemCells(f.rows)), x) <= r[4].1
    ensures |r| <= 5
    ensures NonIncreasing(r)
    ensures NoDuplicates(Keys(r))
    ensures forall i :: 0 <= i < |r| ==> r[i].1 >= 1 && r[i].1 == Occurrences(Present(ProblemCells(f.rows)), r[i].0)
    ensures forall i :: 0 <= i < |r| ==> r[i].1 <= Occurrences(Present(Column(f, "Host")), r[i].0)
  {
    if "Status" in f.columns then
      ProblemTop(f);
      TopN(ProblemCells(f.rows), 5)
    else []
  }

  /** The PROBLEM listing never shows a host with more PROBLEM events than
      it has events. */
  lemma ProblemTop(f: Frame)
    ensures var r := TopN(ProblemCells(f.rows), 5);
            forall i :: 0 <= i < |r| ==> r[i].1 <= Occurrences(Present(Column(f, "Host")), r[i].0)
  {
    AllProblemsWithinEvents(f.rows);
    ColumnIsHostCells(f);
  }

  /** The Host cells of all rows. */
  function HostCells(rows: seq<Row>): (c: seq<Option<string>>)
    ensures |c| == |rows|
    ensures forall i :: 0 <= i < |rows| ==> c[i] == CellOf(rows[i], "Host")
  {
    if rows == [] then [] else HostCells(rows[..|rows| - 1]) + [CellOf(rows[|rows| - 1], "Host")]
  }

  /** A problem host has no more PROBLEM events than events. */
  lemma {:induction false} ProblemsWithinEvents(rows: seq<Row>, x: string)
    ensures Occurrences(Present(ProblemCells(rows)), x) <= Occurrences(Present(HostCells(rows)), x)
  {
    if rows != [] {
      var init, last := rows[..|rows| - 1], rows[|rows| - 1];
      ProblemsWithinEvents(init, x);
      var cell := CellOf(last, "Host");
      var extra := if cell.Some? then [cell.value] else [];
      assert HostCells(rows) == HostCells(init) + [cell];
      PresentAppend(HostCells(init), cell);
      OccurrencesAppend(Present(HostCells(init)), extra, x);
      if CellOf(last, "Status") == Some("PROBLEM") {
        assert ProblemCells(rows) == ProblemCells(init) + [cell];
        PresentAppend(ProblemCells(init), cell);
        OccurrencesAppend(Present(ProblemCells(init)), extra, x);
      } else {
        assert ProblemCells(rows) == ProblemCells(init) + [];
        assert ProblemCells(init) + [] == ProblemCells(init);
      }
    }
  }

  lemma AllProblemsWithinEvents(rows: seq<Row>)
    ensures forall x :: Occurrences(Present(ProblemCells(rows)), x) <= Occurrences(Present(HostCells(rows)), x)
  {
    forall x
      ensures Occurrences(Present(ProblemCells(rows)), x) <= Occurrences(Present(HostCells(rows)), x)
    {
      ProblemsWithinEvents(rows, x);
    }
  }

  lemma ColumnIsHostCells(f: Frame)
    ensures Column(f, "Host") == HostCells(f.rows)
  {
  }

  /** `avg_events_per_host`: events per distinct host, 0 when there is no
      host. */
  function AvgEventsPerHost(total: nat, unique: nat): (r: real)
    ensures unique == 0 ==> r == 0.0
    ensures unique > 0 ==> r * (unique as real) == total as real
    ensures r >= 0.0
  {
    if unique > 0 then total as real / unique as real else 0.0
  }

  datatype HostAnalysis = HostAnalysis(top: seq<(string, nat)>, average: real, problem: seq<(string, nat)>)

  /** The AI summary's `host_analysis`; `None` for the empty dictionary it
      keeps without a Host column. */
  function AnalyseHosts(f: Frame): (r: Option<HostAnalysis>)
    ensures r.Some? <==> "Host" in f.columns
  {
    if "Host" in f.columns then
      Some(HostAnalysis(TopHosts(f, 5), AvgEventsPerHost(|f.rows|, UniqueHosts(f)), ProblemHosts(f)))
    else None
  }

  // ---------------------------------------------------------------------
  // The report's unguarded average
  // ---------------------------------------------------------------------

  /** `total_events / unique_hosts` as `generate_report` writes it, with
      no guard; `None` stands for the ZeroDivisionError. */
  function ReportAvgPerHost(total: nat, unique: nat): (r: Option<real>)
    ensures r.None? <==> unique == 0
  {
    if unique == 0 then None else Some(total as real / unique as real)
  }

  /** The report divides by zero exactly when the table has no Host
      column or no event names a host; the AI summary reports 0 then. */
  lemma ReportAvgWithoutHosts(f: Frame)
    ensures ReportAvgPerHost(|f.rows|, UniqueHosts(f)).None? <==>
              "Host" !in f.columns || forall i :: 0 <= i < |f.rows| ==> CellOf(f.rows[i], "Host").None?
    ensures ReportAvgPerHost(|f.rows|, UniqueHosts(f)).None? ==> AvgEventsPerHost(|f.rows|, UniqueHosts(f)) == 0.0
  {
  }

  /** Wherever the unguarded division succeeds it agrees with the guarded
      one. */
  lemma ReportAvgAgrees(total: nat, unique: nat)
    requires unique > 0
    ensures ReportAvgPerHost(total, unique) == Some(AvgEventsPerHost(total, unique))
  {
  }
}
