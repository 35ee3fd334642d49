/** Severity banding and status counts of the report and of the AI summary:
    the severity column is the first alias present, and each band is a
    case-insensitive membership test on its cells. */
module Severity {

  import opened Wrappers
  import opened Text
  import opened Frames

  /** The report's three bands, as lower-case labels. */
  const CriticalLabels: set<string> := {"disaster", "high", "fatal", "critical", "error"}
  const WarningLabels: set<string> := {"average", "warning", "major", "medium"}
  const InfoLabels: set<string> := {"information", "info", "low", "not classified"}

  /** `series.str.lower().isin(band)` on one cell: NaN stays NaN under
      `.str.lower()` and is in no band. */
  predicate InBand(cell: Option<string>, band: set<string>) {
    cell.Some? && Lower(cell.value) in band
  }

  function BandCount(c: seq<Option<string>>, band: set<string>): nat {
    Count(c, cell => InBand(cell, band))
  }

  datatype Bands = Bands(critical: nat, warning: nat, info: nat)

  /** Some cell holds text. Without one, pandas refuses the `.str` accessor
      on a non-empty column. */
  predicate HasText(c: seq<Option<string>>) {
    exists i :: 0 <= i < |c| && c[i].Some?
  }

  /** The severity column `generate_report` uses, if any. */
  function SeverityColumn(f: Frame): Option<string> {
    FirstPresent(SeverityAliases, f.columns)
  }

  /** The critical, warning and info counts of `generate_report`; `None`
      when `.str.lower()` raises because the resolved column holds no text
      at all. */
  function ReportBands(f: Frame): (r: Option<Bands>)
    ensures SeverityColumn(f).None? ==> r == Some(Bands(0, 0, 0))
    ensures r.None? <==> (SeverityColumn(f).Some? && |f.rows| > 0
                          && !HasText(Column(f, SeverityColumn(f).value)))
  {
    match SeverityColumn(f)
    case None => Some(Bands(0, 0, 0))
    case Some(col) =>
      var c := Column(f, col);
      if |c| > 0 && !HasText(c) then None
      else Some(Bands(BandCount(c, CriticalLabels), BandCount(c, WarningLabels), BandCount(c, InfoLabels)))
  }

  /** Each event falls in at most one band, so the bands never add up to
      more than the number of events; the rest are unclassified. */
  lemma BandsWithinTotal(f: Frame)
    requires ReportBands(f).Some?
    ensures var b := ReportBands(f).value; b.critical + b.warning + b.info <= |f.rows|
  {
    if SeverityColumn(f).Some? {
      var c := Column(f, SeverityColumn(f).value);
      var p, q, r := cell => InBand(cell, CriticalLabels), cell => InBand(cell, WarningLabels),
                     cell => InBand(cell, InfoLabels);
      forall i | 0 <= i < |c|
        ensures !(p(c[i]) && q(c[i])) && !(p(c[i]) && r(c[i])) && !(q(c[i]) && r(c[i]))
      {
        LabelsDisjoint();
      }
      CountDisjoint(c, p, q, r);
    }
  }

  /** No label belongs to two bands. */
  lemma LabelsDisjoint()
    ensures CriticalLabels * WarningLabels == {}
    ensures CriticalLabels * InfoLabels == {}
    ensures WarningLabels * InfoLabels == {}
  {
  }

  /** The band counts are the numbers of rows whose severity cell,
      lower-cased, is one of the band's labels. */
  lemma BandsCountRows(f: Frame, col: string)
    requires SeverityColumn(f) == Some(col) && ReportBands(f).Some?
    ensures ReportBands(f).value.critical == |RowsInBand(f, col, CriticalLabels)|
    ensures ReportBands(f).value.warning == |RowsInBand(f, col, WarningLabels)|
    ensures ReportBands(f).value.info == |RowsInBand(f, col, InfoLabels)|
  {
    var c := Column(f, col);
    CountIsCardinality(c, cell => InBand(cell, CriticalLabels));
    CountIsCardinality(c, cell => InBand(cell, WarningLabels));
    CountIsCardinality(c, cell => InBand(cell, InfoLabels));
    SameRows(f, col, CriticalLabels);
    SameRows(f, col, WarningLabels);
    SameRows(f, col, InfoLabels);
  }

  /** The row numbers whose cell in `col` is in `band`. */
  function RowsInBand(f: Frame, col: string, band: set<string>): set<nat> {
    set i: nat | i < |f.rows| && InBand(CellOf(f.rows[i], col), band)
  }

  lemma SameRows(f: Frame, col: string, band: set<string>)
    ensures RowsInBand(f, col, band) == Matching(Column(f, col), cell => InBand(cell, band))
  {
  }

  // ---------------------------------------------------------------------
  // The AI summary's variant
  // ---------------------------------------------------------------------

  /** `astype(str)`: NaN becomes the text "nan". */
  function AsText(cell: Option<string>): string {
    match cell
    case None => "nan"
    case Some(s) => s
  }

  predicate TextInBand(cell: Option<string>, band: set<string>) {
    Lower(AsText(cell)) in band
  }

  /** The critical and warning counts of `perform_simple_ai_analysis`,
      which converts the column to text before lower-casing it. */
  function AnalysisBands(f: Frame): (r: (nat, nat))
    ensures SeverityColumn(f).None? ==> r == (0, 0)
    ensures r.0 + r.1 <= |f.rows|
  {
    match SeverityColumn(f)
    case None => (0, 0)
    case Some(col) =>
      var c := Column(f, col);
      var p, q := cell => TextInBand(cell, CriticalLabels), cell => TextInBand(cell, WarningLabels);
      LabelsDisjoint();
      CountDisjoint(c, p, q, cell => false);
      (Count(c, p), Count(c, q))
  }

  lemma NanInNoBand()
    ensures Lower("nan") == "nan"
    ensures "nan" !in CriticalLabels && "nan" !in WarningLabels && "nan" !in InfoLabels
  {
  }

  /** The two variants agree wherever the report's does not raise: "nan"
      is in no band. Where the report's raises, the AI summary counts 0. */
  lemma AnalysisAgreesWithReport(f: Frame)
    ensures ReportBands(f).Some? ==> AnalysisBands(f) == (ReportBands(f).value.critical, ReportBands(f).value.warning)
    ensures ReportBands(f).None? ==> AnalysisBands(f) == (0, 0)
  {
    NanInNoBand();
    if SeverityColumn(f).Some? {
      var c := Column(f, SeverityColumn(f).value);
      CountSame(c, cell => TextInBand(cell, CriticalLabels), cell => InBand(cell, CriticalLabels));
      CountSame(c, cell => TextInBand(cell, WarningLabels), cell => InBand(cell, WarningLabels));
      if ReportBands(f).None? {
        CountNone(c, cell => InBand(cell, CriticalLabels));
        CountNone(c, cell => InBand(cell, WarningLabels));
      }
    }
  }

  // ---------------------------------------------------------------------
  // The live metric
  // ---------------------------------------------------------------------

  /** The dashboard's "심각 이벤트" metric: exact-case "Disaster" or "High"
      in a column named exactly "Severity". */
  function LiveCritical(f: Frame): (n: nat)
    ensures n == |LiveRows(f)|
  {
    if "Severity" in f.columns then
      var c := Column(f, "Severity");
      var live := cell => cell == Some("Disaster") || cell == Some("High");
      CountIsCardinality(c, live);
      assert LiveRows(f) == Matching(c, live);
      Count(c, live)
    else
      assert LiveRows(f) == {};
      0
  }

  /** The rows the live metric counts: those whose "Severity" cell is
      exactly "Disaster" or "High". */
  function LiveRows(f: Frame): set<nat> {
    set i: nat | i < |f.rows| && "Severity" in f.columns
                 && (CellOf(f.rows[i], "Severity") == Some("Disaster") || CellOf(f.rows[i], "Severity") == Some("High"))
  }

  lemma LowerLiveLabels()
    ensures Lower("Disaster") == "disaster" && Lower("High") == "high"
  {
    assert Lower("Disaster") == "disaster" by {
      assert LowerChar('D') == 'd';
    }
    assert Lower("High") == "high" by {
      assert LowerChar('H') == 'h';
    }
  }

  /** The live metric never exceeds the report's critical count: its two
      labels are report labels, read on the column the report picks first. */
  lemma LiveWithinReport(f: Frame)
    requires ReportBands(f).Some?
    ensures LiveCritical(f) <= ReportBands(f).value.critical
  {
    if "Severity" in f.columns {
      SeverityFirst(f.columns);
      LowerLiveLabels();
      CountMonotone(Column(f, "Severity"), cell => cell == Some("Disaster") || cell == Some("High"),
                    cell => InBand(cell, CriticalLabels));
    }
  }

  // ---------------------------------------------------------------------
  // Status
  // ---------------------------------------------------------------------

  /** `len(df[df['Status'] == status])`, 0 without a Status column. */
  function StatusCount(f: Frame, status: string): (n: nat)
    ensures n == |StatusRows(f, status)|
  {
    if "Status" in f.columns then
      var c := Column(f, "Status");
      var has := cell => cell == Some(status);
      CountIsCardinality(c, has);
      assert StatusRows(f, status) == Matching(c, has);
      Count(c, has)
    else
      assert StatusRows(f, status) == {};
      0
  }

  /** The rows whose "Status" cell is exactly `status`. */
  function StatusRows(f: Frame, status: string): set<nat> {
    set i: nat | i < |f.rows| && "Status" in f.columns && CellOf(f.rows[i], "Status") == Some(status)
  }

  /** PROBLEM and OK events are disjoint, so together they are at most
      all events. */
  lemma StatusWithinTotal(f: Frame)
    ensures StatusCount(f, "PROBLEM") + StatusCount(f, "OK") <= |f.rows|
  {
    if "Status" in f.columns {
      CountDisjoint(Column(f, "Status"), cell => cell == Some("PROBLEM"), cell => cell == Some("OK"), cell => false);
    }
  }

  // ---------------------------------------------------------------------
  // Worked example
  // ---------------------------------------------------------------------

  function SeverityRow(severity: string): Row {
    map["Severity" := Some(severity)]
  }

  lemma LowerExampleLabels()
    ensures Lower("Disaster") in CriticalLabels
    ensures Lower("Warning") in WarningLabels
    ensures Lower("Information") in InfoLabels
    ensures Lower("Disaster") !in WarningLabels && Lower("Disaster") !in InfoLabels
    ensures Lower("Warning") !in CriticalLabels && Lower("Warning") !in InfoLabels
    ensures Lower("Information") !in CriticalLabels && Lower("Information") !in WarningLabels
  {
    LowerLiveLabels();
    assert Lower("Warning") == "warning" by {
      assert LowerChar('W') == 'w';
    }
    assert Lower("Information") == "information" by {
      assert LowerChar('I') == 'i';
    }
  }

  /** Four events labelled Disaster, Warning, Warning and Information give
      one critical, two warning and one info event, none left over. */
  lemma BandsExample()
    ensures var f := Frame(["Severity"], [SeverityRow("Disaster"), SeverityRow("Warning"),
                                          SeverityRow("Warning"), SeverityRow("Information")]);
            ReportBands(f) == Some(Bands(1, 2, 1))
  {
    var f := Frame(["Severity"], [SeverityRow("Disaster"), SeverityRow("Warning"),
                                  SeverityRow("Warning"), SeverityRow("Information")]);
    SeverityFirst(f.columns);
    LowerExampleLabels();
    var c := Column(f, "Severity");
    assert c == [Some("Disaster"), Some("Warning"), Some("Warning"), Some("Information")];
    assert HasText(c) by {
      assert c[0].Some?;
    }
    var p, q, r := cell => InBand(cell, CriticalLabels), cell => InBand(cell, WarningLabels),
                   cell => InBand(cell, InfoLabels);
    CountFour(c, p);
    CountFour(c, q);
    CountFour(c, r);
  }

  function Indicator(b: bool): nat {
    if b then 1 else 0
  }

  lemma CountFour(c: seq<Option<string>>, p: Option<string> -> bool)
    requires |c| == 4
    ensures Count(c, p) == Indicator(p(c[0])) + Indicator(p(c[1])) + Indicator(p(c[2])) + Indicator(p(c[3]))
  {
    assert c[..3][..2][..1][..0] == [];
    assert Count(c[..1], p) == Indicator(p(c[0])) by {
      assert c[..1][..0] == [] && c[..1][0] == c[0];
    }
    assert Count(c[..2], p) == Count(c[..1], p) + Indicator(p(c[1])) by {
      assert c[..2][..1] == c[..1] && c[..2][1] == c[1];
    }
    assert Count(c[..3], p) == Count(c[..2], p) + Indicator(p(c[2])) by {
      assert c[..3][..2] == c[..2] && c[..3][2] == c[2];
    }
    assert c[..4 - 1] == c[..3];
  }
}
