/** The event table as the dashboard sees it after `pd.read_csv`: an
    ordered list of column names and one row per event. A cell is `None`
    when pandas holds NaN there (an empty CSV field, or a column one of the
    concatenated files lacked). */
module Frames {

  import opened Wrappers

  type Row = map<string, Option<string>>

  datatype Frame = Frame(columns: seq<string>, rows: seq<Row>)

  function CellOf(r: Row, name: string): Option<string> {
    if name in r then r[name] else None
  }

  /** `df[name]` as a list of cells, one per row. */
  function Column(f: Frame, name: string): (c: seq<Option<string>>)
    ensures |c| == |f.rows|
    ensures forall i :: 0 <= i < |c| ==> c[i] == CellOf(f.rows[i], name)
  {
    seq(|f.rows|, i requires 0 <= i < |f.rows| => CellOf(f.rows[i], name))
  }

  /** The candidate names `generate_report`, `perform_simple_ai_analysis`
      and the severity tab try, in order, for the severity column. */
  const SeverityAliases: seq<string> := ["Severity", "severity", "SEVERITY", "심각도", "Level", "level"]

  /** The first of `aliases` that is a column name, if any. */
  function FirstPresent(aliases: seq<string>, columns: seq<string>): (r: Option<string>)
    ensures r.None? <==> forall i :: 0 <= i < |aliases| ==> aliases[i] !in columns
    ensures r.Some? ==> r.value in columns
    ensures r.Some? ==> exists i :: 0 <= i < |aliases| && aliases[i] == r.value
                          && forall j :: 0 <= j < i ==> aliases[j] !in columns
  {
    if aliases == [] then None
    else if aliases[0] in columns then
      Some(aliases[0])
    else
      var r := FirstPresent(aliases[1..], columns);
      assert forall i :: 1 <= i < |aliases| ==> aliases[i] == aliases[1..][i - 1];
      if r.Some? then
        var i :| 0 <= i < |aliases[1..]| && aliases[1..][i] == r.value
                 && forall j :: 0 <= j < i ==> aliases[1..][j] !in columns;
        assert aliases[i + 1] == r.value;
        assert forall j :: 0 <= j < i + 1 ==> aliases[j] !in columns by {
          forall j | 0 <= j < i + 1 ensures aliases[j] !in columns {
            if j > 0 { assert aliases[j] == aliases[1..][j - 1]; }
          }
        }
        r
      else r
  }

  /** The source's loop over the candidate names, with `break` at the
      first one present. */
  method ResolveColumn(columns: seq<string>, aliases: seq<string>) returns (col: Option<string>)
    ensures col == FirstPresent(aliases, columns)
  {
    col := None;
    var k := 0;
    while k < |aliases|
      invariant 0 <= k <= |aliases|
      invariant FirstPresent(aliases, columns) == FirstPresent(aliases[k..], columns)
    {
      if aliases[k] in columns {
        col := Some(aliases[k]);
        break;
      }
      assert aliases[k..][1..] == aliases[k + 1..];
      k := k + 1;
    }
    if k == |aliases| {
      assert aliases[k..] == [];
    }
  }

  /** "Severity" is the first candidate: whenever the table has a column of
      that exact name, it is the one used. */
  lemma SeverityFirst(columns: seq<string>)
    requires "Severity" in columns
    ensures FirstPresent(SeverityAliases, columns) == Some("Severity")
  {
  }

  /** A table whose only severity-like column is "Level" is analysed on
      it: the lower-case names, "SEVERITY" and 심각도 come before it and are
      absent. */
  lemma LevelFallback(columns: seq<string>)
    requires "Level" in columns
    requires forall i :: 0 <= i < 4 ==> SeverityAliases[i] !in columns
    ensures FirstPresent(SeverityAliases, columns) == Some("Level")
  {
    assert SeverityAliases[4] == "Level";
    var r := FirstPresent(SeverityAliases, columns);
    var i :| 0 <= i < |SeverityAliases| && SeverityAliases[i] == r.value
             && forall j :: 0 <= j < i ==> SeverityAliases[j] !in columns;
    assert i <= 4;
  }

  // ---------------------------------------------------------------------
  // Counting cells
  // ---------------------------------------------------------------------

  /** How many cells satisfy `accept`. */
  function Count<T>(c: seq<Option<T>>, accept: Option<T> -> bool): (n: nat)
    ensures n <= |c|
  {
    if c == [] then 0
    else Count(c[..|c| - 1], accept) + (if accept(c[|c| - 1]) then 1 else 0)
  }

  /** Counts of a weaker filter are no smaller. */
  lemma {:induction false} CountMonotone<T>(c: seq<Option<T>>, p: Option<T> -> bool, q: Option<T> -> bool)
    requires forall i :: 0 <= i < |c| && p(c[i]) ==> q(c[i])
    ensures Count(c, p) <= Count(c, q)
  {
    if c != [] {
      CountMonotone(c[..|c| - 1], p, q);
    }
  }

  /** Three filters that no cell satisfies two of together count at most
      one per cell. */
  lemma {:induction false} CountDisjoint<T>(c: seq<Option<T>>, p: Option<T> -> bool,
                                            q: Option<T> -> bool, r: Option<T> -> bool)
    requires forall i :: 0 <= i < |c| ==> !(p(c[i]) && q(c[i])) && !(p(c[i]) && r(c[i])) && !(q(c[i]) && r(c[i]))
    ensures Count(c, p) + Count(c, q) + Count(c, r) <= |c|
  {
    if c != [] {
      CountDisjoint(c[..|c| - 1], p, q, r);
    }
  }

  /** Filters that agree on every cell count the same. */
  lemma {:induction false} CountSame<T>(c: seq<Option<T>>, p: Option<T> -> bool, q: Option<T> -> bool)
    requires forall i :: 0 <= i < |c| ==> p(c[i]) == q(c[i])
    ensures Count(c, p) == Count(c, q)
  {
    if c != [] {
      CountSame(c[..|c| - 1], p, q);
    }
  }

  /** A filter that holds of no cell counts 0. */
  lemma {:induction false} CountNone<T>(c: seq<Option<T>>, p: Option<T> -> bool)
    requires forall i :: 0 <= i < |c| ==> !p(c[i])
    ensures Count(c, p) == 0
  {
    if c != [] {
      CountNone(c[..|c| - 1], p);
    }
  }

  /** The positions of the cells that satisfy `accept`. */
  function Matching<T>(c: seq<Option<T>>, accept: Option<T> -> bool): set<nat> {
    set i: nat | i < |c| && accept(c[i])
  }

  /** `Count` is the number of matching positions. */
  lemma {:induction false} CountIsCardinality<T>(c: seq<Option<T>>, accept: Option<T> -> bool)
    ensures Count(c, accept) == |Matching(c, accept)|
  {
    if c == [] {
      assert Matching(c, accept) == {};
    } else {
      var n := |c| - 1;
      CountIsCardinality(c[..n], accept);
      assert Matching(c, accept) == Matching(c[..n], accept) + (if accept(c[n]) then {n} else {});
    }
  }
}
