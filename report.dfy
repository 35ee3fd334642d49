/** The listing sections of `generate_report`, built by appending one line
    per entry to the report text. */
module Report {

  import opened Wrappers
  import opened Text
  import opened Frames
  import opened Ranking
  import opened Timeline
  import opened Hosts

  // ---------------------------------------------------------------------
  // Percentages
  // ---------------------------------------------------------------------

  /** `a / b` rounded to the nearest integer, ties to the even one. */
  function RoundHalfEven(a: nat, b: nat): (q: nat)
    requires b > 0
    ensures 2 * q * b <= 2 * a + b
    ensures 2 * a <= 2 * q * b + b
    ensures (2 * a + b == 2 * q * b || 2 * a == 2 * q * b + b) ==> q % 2 == 0
  {
    var q0, r := a / b, a % b;
    QuotientParts(a, b);
    if 2 * r > b then q0 + 1
    else if 2 * r < b then q0
    else if q0 % 2 == 0 then q0
    else q0 + 1
  }

  lemma QuotientParts(a: nat, b: nat)
    requires b > 0
    ensures a == (a / b) * b + a % b && 0 <= a % b < b
    ensures 2 * (a / b) * b == 2 * ((a / b) * b)
    ensures 2 * (a / b + 1) * b == 2 * ((a / b) * b) + 2 * b
  {
  }

  /** `f"{count / total * 100:.1f}"`: the share as a percentage with one
      decimal. Read back in tenths, the shown value lies within half a
      tenth of the exact share, a tie goes to the even tenth, and a part of
      the total never shows above 100.0. */
  function Pct(count: nat, total: nat): (r: string)
    requires total > 0
    ensures |r| >= 3 && r[|r| - 2] == '.' && IsDigit(r[|r| - 1])
    ensures forall i :: 0 <= i < |r| ==> IsDigit(r[i]) || r[i] == '.'
    ensures ParseInt(r[..|r| - 2]).Some? && ParseInt(r[..|r| - 2]).value >= 0
    ensures var shown := ParseInt(r[..|r| - 2]).value * 10 + DigitValue(r[|r| - 1]);
            && 2 * shown * total <= 2000 * count + total
            && 2000 * count <= 2 * shown * total + total
            && ((2000 * count + total == 2 * shown * total || 2000 * count == 2 * shown * total + total) ==> shown % 2 == 0)
            && (count <= total ==> shown <= 1000)
  {
    var tenths := RoundHalfEven(count * 1000, total);
    TenthsAtMostThousand(count, total);
    ShowTenths(tenths);
    NatToString(tenths / 10) + "." + [DigitChar(tenths % 10)]
  }

  /** The text of `t` tenths splits at its point into the whole part,
      which `int()` reads back, and the tenths digit. */
  lemma ShowTenths(t: nat)
    ensures var r := NatToString(t / 10) + "." + [DigitChar(t % 10)];
            && |r| >= 3 && r[..|r| - 2] == NatToString(t / 10) && r[|r| - 2] == '.' && r[|r| - 1] == DigitChar(t % 10)
            && ParseInt(r[..|r| - 2]) == Some(t / 10) && (t / 10) * 10 + t % 10 == t
  {
    ParseIntOfIntToString(t / 10);
  }

  /** A share never shows above 100.0: the rounded tenths of a part stay
      within 1000. */
  lemma TenthsAtMostThousand(count: nat, total: nat)
    requires 0 < total
    ensures count <= total ==> RoundHalfEven(count * 1000, total) <= 1000
  {
    if count <= total {
      var q := RoundHalfEven(count * 1000, total);
      assert 2 * q * total <= 2 * (count * 1000) + total;
      MulLe(count, total, 2000);
      assert 2 * q * total <= 2001 * total;
      Cancel(2 * q, 2001, total);
    }
  }

  lemma MulLe(a: nat, b: nat, k: nat)
    requires a <= b
    ensures k * a <= k * b
  {
  }

  lemma Cancel(x: nat, y: nat, t: nat)
    requires t > 0 && x * t <= y * t
    ensures x <= y
  {
    assert (x - y) * t == x * t - y * t;
  }

  /** The shares of the four-event example: one event of four is 25.0 and
      two are 50.0. */
  lemma PctExamples()
    ensures Pct(1, 4) == "25.0" && Pct(2, 4) == "50.0"
  {
    assert RoundHalfEven(1000, 4) == 250;
    assert RoundHalfEven(2000, 4) == 500;
    assert NatToString(25) == "25" by {
      assert NatToString(2) == "2";
    }
    assert NatToString(50) == "50" by {
      assert NatToString(5) == "5";
    }
  }

  // ---------------------------------------------------------------------
  // Issue lines
  // ---------------------------------------------------------------------

  /** `f"{issue[:100]}{'...' if len(issue) > 100 else ''}"`: a description
      of at most 100 characters in full, a longer one as its first 100
      characters and "...". */
  function Display100(issue: string): (r: string)
    ensures |issue| <= 100 ==> r == issue
    ensures |issue| > 100 ==> |r| == 103 && r[..100] == issue[..100] && r[100..] == "..."
  {
    if |issue| > 100 then issue[..100] + "..." else issue
  }

  /** The shown text never exceeds 103 characters and always begins the
      description itself. */
  lemma DisplayBounds(issue: string)
    ensures |Display100(issue)| <= 103
    ensures var k := if |issue| < 100 then |issue| else 100; Display100(issue)[..k] == issue[..k]
  {
  }

  // ---------------------------------------------------------------------
  // Listing lines
  // ---------------------------------------------------------------------

  /** A single line of text: one newline, at its end. */
  predicate OneLine(s: string) {
    s != [] && s[|s| - 1] == '\n' && '\n' !in s[..|s| - 1]
  }

  /** The characters of decimal text are no newline. */
  lemma NoNewline(s: string)
    requires Numeric(s)
    ensures '\n' !in s
  {
  }

  /** The characters of a rendered number: digits, and the separators
      of the formats used. */
  predicate Numeric(s: string) {
    forall i :: 0 <= i < |s| ==> IsDigit(s[i]) || s[i] == ' ' || s[i] == ',' || s[i] == '.' || s[i] == '-'
  }

  /** `s` is `g`, "건 (", `p`, "%)" and a newline: the end of a line that
      shows a count rendered as `g` and a share rendered as `p`. */
  predicate CountShareText(s: string, g: string, p: string) {
    && |s| == |g| + |p| + 6
    && s[..|g|] == g && s[|g|..|g| + 3] == "건 (" && s[|g| + 3..|s| - 3] == p && s[|s| - 3..] == "%)\n"
    && OneLine(s)
  }

  /** The end of a line that shows a count and its share,
      `f"{count:,}건 ({percentage:.1f}%)\n"`: the count with its thousands
      commas, which `int()` reads back once they are removed, then "건 (",
      the share as `Pct` renders it, "%)" and the newline. */
  predicate ShowsCountShare(s: string, count: nat, total: nat)
    requires total > 0
  {
    && CountShareText(s, Grouped(count), Pct(count, total))
    && ParseInt(Without(s[..|Grouped(count)|], ',')) == Some(count)
  }

  /** `s` is `g`, "건" and a newline. */
  predicate CountText(s: string, g: string) {
    && |s| == |g| + 2
    && s[..|g|] == g && s[|g|..] == "건\n"
    && OneLine(s)
  }

  /** The end of an hourly line, `f"{count:,}건\n"`: the count with its
      thousands commas, which `int()` reads back once they are removed,
      then "건" and the newline. */
  predicate ShowsCount(s: string, count: nat) {
    && CountText(s, Grouped(count))
    && ParseInt(Without(s[..|Grouped(count)|], ',')) == Some(count)
  }

  lemma CountShareLayout(g: string, p: string)
    requires Numeric(g) && Numeric(p)
    ensures CountShareText(g + "건 (" + p + "%)\n", g, p)
  {
    NoNewline(g);
    NoNewline(p);
    var t := g + "건 (" + p + "%)\n";
    assert t[..|g|] == g;
    assert t[|g|..|g| + 3] == "건 (";
    assert t[|g| + 3..|t| - 3] == p;
    assert t[..|t| - 1] == g + "건 (" + p + "%)";
  }

  lemma CountLayout(g: string)
    requires Numeric(g)
    ensures CountText(g + "건\n", g)
  {
    NoNewline(g);
    var t := g + "건\n";
    assert t[..|g|] == g;
    assert t[..|t| - 1] == g + "건";
  }

  /** `f"{count:,}건 ({percentage:.1f}%)\n"`: a single line ending in
      "%)". */
  function CountShare(count: nat, total: nat): (t: string)
    requires total > 0
    ensures OneLine(t) && |t| >= 3 && t[|t| - 3..] == "%)\n"
  {
    var g, p := Grouped(count), Pct(count, total);
    NoNewline(g);
    NoNewline(p);
    var t := g + "건 (" + p + "%)\n";
    assert t[..|t| - 1] == g + "건 (" + p + "%)";
    t
  }

  /** The text shows the count, which reads back, and the share. */
  lemma CountShareShows(count: nat, total: nat)
    requires total > 0
    ensures ShowsCountShare(CountShare(count, total), count, total)
  {
    GroupedUngrouped(count);
    CountShareLayout(Grouped(count), Pct(count, total));
  }

  function CountOnly(count: nat): (t: string)
    ensures ShowsCount(t, count)
    ensures OneLine(t)
  {
    var g := Grouped(count);
    GroupedUngrouped(count);
    CountLayout(g);
    g + "건\n"
  }

  /** A line-free lead before a single line keeps it a single line. */
  lemma Prefixed(lead: string, t: string)
    requires '\n' !in lead && OneLine(t)
    ensures OneLine(lead + t) && (lead + t)[..|lead|] == lead && (lead + t)[|lead|..] == t
  {
    assert (lead + t)[..|lead + t| - 1] == lead + t[..|t| - 1];
  }

  /** The layout of a host line from its rendered parts. */
  lemma HostLayout(w: string, host: string, t: string)
    requires Numeric(w) && OneLine(t) && |t| >= 3 && t[|t| - 3..] == "%)\n"
    ensures var r := "  " + w + ". " + host + ": " + t;
            && |r| == |w| + |host| + 6 + |t|
            && r[..2] == "  " && r[|r| - 3..] == "%)\n"
            && r[2..2 + |w|] == w && r[2 + |w|..4 + |w|] == ". " && r[4 + |w|..4 + |w| + |host|] == host
            && r[4 + |w| + |host|..6 + |w| + |host|] == ": " && r[6 + |w| + |host|..] == t
            && ('\n' !in host ==> OneLine(r))
  {
    var lead := "  " + w + ". " + host + ": ";
    var r := lead + t;
    assert r[|r| - 3..] == t[|t| - 3..];
    assert r == "  " + w + ". " + host + ": " + t;
    assert r[..|lead|] == lead;
    assert r[|lead|..] == t;
    if '\n' !in host {
      NoNewline(w);
      Prefixed(lead, t);
    }
  }

  /** After the host name at position 6, `r` shows ": ", then the count
      and its share. */
  predicate HostTail(r: string, host: string, count: nat, total: nat)
    requires total > 0
  {
    |r| > |host| + 8 && r[6 + |host|..8 + |host|] == ": " && ShowsCountShare(r[8 + |host|..], count, total)
  }

  /** The layout of a host line at a given rank. */
  lemma RankedHostLayout(rank: nat, host: string, t: string)
    requires OneLine(t) && |t| >= 3 && t[|t| - 3..] == "%)\n"
    ensures var r := "  " + Width2(rank) + ". " + host + ": " + t;
            && |r| > |host| + 6
            && r[..2] == "  " && r[|r| - 3..] == "%)\n"
            && (rank < 100 ==> r[2..4] == Width2(rank) && r[4..6] == ". " && r[6..6 + |host|] == host)
            && (rank < 100 ==> r[6 + |host|..8 + |host|] == ": " && r[8 + |host|..] == t)
            && ('\n' !in host ==> OneLine(r))
  {
    var w := Width2(rank);
    assert Numeric(w);
    HostLayout(w, host, t);
    if rank < 100 {
      NarrowHostLayout(w, host, t);
    }
  }

  /** The layout of a host line whose rank takes two characters. */
  lemma NarrowHostLayout(w: string, host: string, t: string)
    requires |w| == 2
    ensures var r := "  " + w + ". " + host + ": " + t;
            && r[2..4] == w && r[4..6] == ". " && r[6..6 + |host|] == host
            && r[6 + |host|..8 + |host|] == ": " && r[8 + |host|..] == t
  {
    var r := "  " + w + ". " + host + ": " + t;
    assert r == "  " + w + ". " + host + ": " + t;
  }

  /** One "Top 10 hosts" line: a single line (for a host name without a
      newline) that shows the rank right-aligned in two places, the host
      name verbatim from the seventh character on, then the host's count
      and share. */
  function HostLine(rank: nat, host: string, count: nat, total: nat): (r: string)
    requires total > 0
    ensures |r| > |host| + 6
    ensures r[..2] == "  " && r[|r| - 3..] == "%)\n"
    ensures rank < 100 ==> r[2..4] == Width2(rank) && r[4..6] == ". " && r[6..6 + |host|] == host
    ensures '\n' !in host ==> OneLine(r)
  {
    var t := CountShare(count, total);
    RankedHostLayout(rank, host, t);
    "  " + Width2(rank) + ". " + host + ": " + t
  }

  /** A host line below rank 100 shows, after the host name, ": " and
      then the host's count and share. */
  lemma HostLineShows(rank: nat, host: string, count: nat, total: nat)
    requires total > 0 && rank < 100
    ensures HostTail(HostLine(rank, host, count, total), host, count, total)
  {
    var t := CountShare(count, total);
    CountShareShows(count, total);
    RankedHostLayout(rank, host, t);
    var r := HostLine(rank, host, count, total);
    assert r == "  " + Width2(rank) + ". " + host + ": " + t;
    assert r[8 + |host|..] == t;
  }

  /** The layout of an hour line from its rendered parts. */
  lemma HourLayout(shown: string, t: string)
    requires Numeric(shown) && OneLine(t)
    ensures var r := "  - " + shown + "시: " + t;
            && |r| == 7 + |shown| + |t|
            && r[..4] == "  - " && r[4..4 + |shown|] == shown && r[4 + |shown|..7 + |shown|] == "시: "
            && r[4 + |shown|..6 + |shown|] == "시:" && r[7 + |shown|..] == t
            && OneLine(r)
  {
    NoNewline(shown);
    var lead := "  - " + shown + "시: ";
    var r := lead + t;
    assert r == "  - " + shown + "시: " + t;
    Prefixed(lead, t);
  }

  /** `f"{hour:02d}"`: two digits for an hour of the day, which `int()`
      reads back. */
  function HourText(hour: int): (t: string)
    ensures Numeric(t)
    ensures 0 <= hour < 100 ==> |t| == 2 && ParseInt(t) == Some(hour)
  {
    if hour >= 0 then ZeroPad2(hour) else IntToString(hour)
  }

  /** After a two-digit hour at position 4, `r` shows "시: ", then the
      count. */
  predicate HourTail(r: string, count: nat) {
    |r| > 9 && r[6..9] == "시: " && ShowsCount(r[9..], count)
  }

  lemma HourTailLayout(shown: string, t: string, count: nat)
    requires |shown| == 2 && Numeric(shown) && ShowsCount(t, count)
    ensures HourTail("  - " + shown + "시: " + t, count)
  {
    HourLayout(shown, t);
  }

  /** One hourly line: a single line that shows the hour with two digits,
      which `int()` reads back, then its count. */
  function HourLine(hour: int, count: nat): (r: string)
    ensures |r| >= 8
    ensures r[..4] == "  - "
    ensures 0 <= hour < 100 ==> ParseInt(r[4..6]) == Some(hour) && r[6..8] == "시:"
    ensures 0 <= hour < 100 ==> HourTail(r, count)
    ensures OneLine(r)
  {
    var t := CountOnly(count);
    HourLayout(HourText(hour), t);
    if 0 <= hour < 100 then
      HourTailLayout(HourText(hour), t, count);
      "  - " + HourText(hour) + "시: " + t
    else "  - " + HourText(hour) + "시: " + t
  }

  /** The first line of a top issue, `f"{i:2d}. {issue[:100]}..."`: the
      rank, then the shown description. */
  function IssueTitle(rank: nat, issue: string): (r: string)
    ensures |r| == |Width2(rank)| + 3 + |Display100(issue)|
    ensures r[..|Width2(rank)| + 2] == Width2(rank) + ". "
    ensures r[|Width2(rank)| + 2..|r| - 1] == Display100(issue) && r[|r| - 1] == '\n'
    ensures '\n' !in Display100(issue) ==> OneLine(r)
  {
    var w, shown := Width2(rank), Display100(issue);
    NoNewline(w);
    var r := w + ". " + shown + "\n";
    assert r[..|r| - 1] == w + ". " + shown;
    r
  }

  /** The second line of a top issue, `f"    - 발생 횟수: {count:,}건
      ({percentage:.1f}%)\n"`: a single line that shows the count and the
      share. */
  function IssueCount(count: nat, total: nat): (r: string)
    requires total > 0
    ensures |r| > 13 && r[..13] == "    - 발생 횟수: "
    ensures OneLine(r)
  {
    var lead, t := "    - 발생 횟수: ", CountShare(count, total);
    var r := lead + t;
    assert r[..|r| - 1] == lead + t[..|t| - 1];
    assert r[..13] == lead;
    r
  }

  /** After its 13-character lead the count line shows the count, which
      reads back, and the share. */
  lemma IssueCountShows(count: nat, total: nat)
    requires total > 0
    ensures ShowsCountShare(IssueCount(count, total)[13..], count, total)
  {
    var lead, t := "    - 발생 횟수: ", CountShare(count, total);
    CountShareShows(count, total);
    Prefixed(lead, t);
    assert IssueCount(count, total) == lead + t;
  }

  /** `r` shows `w` and ". ", then `shown` up to its first newline, a
      newline at `k`, then a count line; it is exactly two lines when
      `shown` has no newline. */
  predicate TwoLineLayout(r: string, w: string, shown: string) {
    var k := |w| + 2 + |shown|;
    && |r| > k + 1 && r[k] == '\n'
    && r[..|w| + 2] == w + ". " && r[|w| + 2..k] == shown
    && ('\n' !in shown ==> OneLine(r[..k + 1]) && OneLine(r[k + 1..]))
  }

  /** The two lines of a top issue: the rank and ". ", the shown
      description verbatim up to the first newline, then the count line;
      for a shown description without a newline, exactly two lines. */
  function IssueLines(rank: nat, issue: string, count: nat, total: nat): (r: string)
    requires total > 0
    ensures TwoLineLayout(r, Width2(rank), Display100(issue))
  {
    var w, shown := Width2(rank), Display100(issue);
    var title, tail := IssueTitle(rank, issue), IssueCount(count, total);
    TwoLines(w, shown, title, tail);
    title + tail
  }

  /** The second line of a top issue shows its count, which reads back,
      and its share. */
  lemma IssueLinesShow(rank: nat, issue: string, count: nat, total: nat)
    requires total > 0
    ensures IssueTail(IssueLines(rank, issue, count, total), |Width2(rank)| + 3 + |Display100(issue)|, count, total)
  {
    IssueLinesAfterTitle(rank, issue, count, total);
    assert |IssueTitle(rank, issue)| == |Width2(rank)| + 3 + |Display100(issue)|;
  }

  /** The count line of a top issue starts right after its title line. */
  lemma IssueLinesAfterTitle(rank: nat, issue: string, count: nat, total: nat)
    requires total > 0
    ensures IssueTail(IssueLines(rank, issue, count, total), |IssueTitle(rank, issue)|, count, total)
  {
    IssueLinesJoin(rank, issue, count, total);
    IssueCountShows(count, total);
    IssueTailLayout(IssueLines(rank, issue, count, total), IssueTitle(rank, issue), IssueCount(count, total), count, total);
  }

  /** The two lines of a top issue are its title line, then its count line. */
  lemma IssueLinesJoin(rank: nat, issue: string, count: nat, total: nat)
    requires total > 0
    ensures IssueLines(rank, issue, count, total) == IssueTitle(rank, issue) + IssueCount(count, total)
  {
  }

  /** From position `k` on, `r` shows the count line: its lead, then the
      count and its share. */
  predicate IssueTail(r: string, k: nat, count: nat, total: nat)
    requires total > 0
  {
    |r| > k + 13 && r[k..k + 13] == "    - 발생 횟수: " && ShowsCountShare(r[k + 13..], count, total)
  }

  /** Appending a count line to a title puts the count line at the
      title's length. */
  lemma IssueTailLayout(r: string, title: string, tail: string, count: nat, total: nat)
    requires total > 0 && r == title + tail
    requires |tail| > 13 && tail[..13] == "    - 발생 횟수: " && ShowsCountShare(tail[13..], count, total)
    ensures IssueTail(r, |title|, count, total)
  {
    assert r[|title|..|title| + 13] == tail[..13];
    assert r[|title| + 13..] == tail[13..];
  }

  lemma TwoLines(w: string, shown: string, title: string, tail: string)
    requires |title| == |w| + 3 + |shown| && OneLine(tail)
    requires title[..|w| + 2] == w + ". " && title[|w| + 2..|title| - 1] == shown && title[|title| - 1] == '\n'
    requires '\n' !in shown ==> OneLine(title)
    ensures TwoLineLayout(title + tail, w, shown)
    ensures (title + tail)[|title|..] == tail
  {
    var r, k := title + tail, |w| + 2 + |shown|;
    assert r[..k + 1] == title;
    assert r[k + 1..] == tail;
    assert r[..|w| + 2] == title[..|w| + 2];
    assert r[|w| + 2..k] == title[|w| + 2..k];
  }

  lemma ShownNoNewline(issue: string)
    ensures '\n' !in issue ==> '\n' !in Display100(issue)
  {
    if '\n' !in issue && |issue| > 100 {
      var shown := Display100(issue);
      assert shown == issue[..100] + "...";
    }
  }

  /** The host lines of `top`, ranked from 1. */
  function HostSection(top: seq<(string, nat)>, total: nat): string
    requires top != [] ==> total > 0
  {
    if top == [] then ""
    else HostSection(top[..|top| - 1], total) + HostLine(|top|, top[|top| - 1].0, top[|top| - 1].1, total)
  }

  function HourSection(peaks: seq<(int, nat)>): string {
    if peaks == [] then ""
    else HourSection(peaks[..|peaks| - 1]) + HourLine(peaks[|peaks| - 1].0, peaks[|peaks| - 1].1)
  }

  function IssueSection(top: seq<(string, nat)>, total: nat): string
    requires top != [] ==> total > 0
  {
    if top == [] then ""
    else IssueSection(top[..|top| - 1], total) + IssueLines(|top|, top[|top| - 1].0, top[|top| - 1].1, total)
  }

  /** A single line holds exactly one newline. */
  lemma OneLineNewlines(s: string)
    requires OneLine(s)
    ensures Occurrences(s, '\n') == 1
  {
    assert Occurrences(s[..|s| - 1], '\n') == 0;
  }

  /** The "Top 10 hosts" section has one line per host listed, when no
      host name holds a newline. */
  lemma {:induction false} HostSectionLines(top: seq<(string, nat)>, total: nat)
    requires top != [] ==> total > 0
    requires forall i :: 0 <= i < |top| ==> '\n' !in top[i].0
    ensures Occurrences(HostSection(top, total), '\n') == |top|
  {
    if top != [] {
      var n := |top| - 1;
      HostSectionLines(top[..n], total);
      var line := HostLine(|top|, top[n].0, top[n].1, total);
      OneLineNewlines(line);
      OccurrencesAppend(HostSection(top[..n], total), line, '\n');
    }
  }

  /** The hourly section has one line per hour listed. */
  lemma {:induction false} HourSectionLines(peaks: seq<(int, nat)>)
    ensures Occurrences(HourSection(peaks), '\n') == |peaks|
  {
    if peaks != [] {
      var n := |peaks| - 1;
      HourSectionLines(peaks[..n]);
      var line := HourLine(peaks[n].0, peaks[n].1);
      OneLineNewlines(line);
      OccurrencesAppend(HourSection(peaks[..n]), line, '\n');
    }
  }

  /** The two lines of a top issue whose shown description has no newline. */
  lemma IssueLinesNewlines(rank: nat, issue: string, count: nat, total: nat)
    requires total > 0 && '\n' !in Display100(issue)
    ensures Occurrences(IssueLines(rank, issue, count, total), '\n') == 2
  {
    var r := IssueLines(rank, issue, count, total);
    var k := |Width2(rank)| + 2 + |Display100(issue)|;
    OneLineNewlines(r[..k + 1]);
    OneLineNewlines(r[k + 1..]);
    assert r == r[..k + 1] + r[k + 1..];
    OccurrencesAppend(r[..k + 1], r[k + 1..], '\n');
  }

  /** The "Top 15 issues" section has two lines per issue listed, when no
      shown description holds a newline. */
  lemma {:induction false} IssueSectionLines(top: seq<(string, nat)>, total: nat)
    requires top != [] ==> total > 0
    requires forall i :: 0 <= i < |top| ==> '\n' !in Display100(top[i].0)
    ensures Occurrences(IssueSection(top, total), '\n') == 2 * |top|
  {
    if top != [] {
      var n := |top| - 1;
      IssueSectionLines(top[..n], total);
      IssueLinesNewlines(|top|, top[n].0, top[n].1, total);
      OccurrencesAppend(IssueSection(top[..n], total), IssueLines(|top|, top[n].0, top[n].1, total), '\n');
    }
  }

  lemma HostSectionStep(top: seq<(string, nat)>, total: nat, i: nat)
    requires i < |top| && total > 0
    ensures HostSection(top[..i + 1], total) == HostSection(top[..i], total) + HostLine(i + 1, top[i].0, top[i].1, total)
  {
    assert top[..i + 1][..i] == top[..i];
  }

  lemma HourSectionStep(peaks: seq<(int, nat)>, i: nat)
    requires i < |peaks|
    ensures HourSection(peaks[..i + 1]) == HourSection(peaks[..i]) + HourLine(peaks[i].0, peaks[i].1)
  {
    assert peaks[..i + 1][..i] == peaks[..i];
  }

  lemma IssueSectionStep(top: seq<(string, nat)>, total: nat, i: nat)
    requires i < |top| && total > 0
    ensures IssueSection(top[..i + 1], total) == IssueSection(top[..i], total) + IssueLines(i + 1, top[i].0, top[i].1, total)
  {
    assert top[..i + 1][..i] == top[..i];
  }

  // ---------------------------------------------------------------------
  // The columns the listings read
  // ---------------------------------------------------------------------

  /** A non-empty top-N listing comes from a non-empty column. */
  lemma TopNNonEmpty<T(!new)>(c: seq<Option<T>>, n: nat)
    requires TopN(c, n) != []
    ensures |c| > 0
  {
    assert Some(TopN(c, n)[0].0) in c;
  }

  /** `df['Description'].value_counts().head(15)`, empty without a
      Description column: `min(15, nunique)` descriptions, most frequent
      first, each with its number of events, and no description left out
      that occurs more often than the last one listed. */
  function TopIssues(f: Frame): (r: seq<(string, nat)>)
    ensures "Description" !in f.columns ==> r == []
    ensures "Description" in f.columns ==> |r| == Min(15, Unique(Column(f, "Description")))
    ensures NonIncreasing(r)
    ensures NoDuplicates(Keys(r))
    ensures forall i :: 0 <= i < |r| ==> r[i].1 >= 1 && r[i].1 == Occurrences(Present(Column(f, "Description")), r[i].0)
    ensures "Description" in f.columns ==>
              forall x :: Some(x) in Column(f, "Description") && x !in Keys(r) ==>
                |r| == 15 && Occurrences(Present(Column(f, "Description")), x) <= r[14].1
  {
    if "Description" in f.columns then TopN(Column(f, "Description"), 15) else []
  }

  // ---------------------------------------------------------------------
  // The loops
  // ---------------------------------------------------------------------

  lemma Associative(a: string, b: string, c: string)
    ensures (a + b) + c == a + (b + c)
  {
  }

  /** The top-hosts loop: one line per host of the top 10. */
  method AppendTopHosts(report: string, f: Frame) returns (out: string)
    ensures TopHosts(f, 10) != [] ==> |f.rows| > 0
    ensures out == report + HostSection(TopHosts(f, 10), |f.rows|)
  {
    var top := TopHosts(f, 10);
    if top != [] {
      TopNNonEmpty(Column(f, "Host"), 10);
    }
    out := AppendHostLines(report, top, |f.rows|);
  }

  method AppendHostLines(report: string, top: seq<(string, nat)>, total: nat) returns (out: string)
    requires top != [] ==> total > 0
    ensures out == report + HostSection(top, total)
  {
    out := report;
    for i := 0 to |top|
      invariant out == report + HostSection(top[..i], total)
    {
      var line := HostLine(i + 1, top[i].0, top[i].1, total);
      HostSectionStep(top, total, i);
      Associative(report, HostSection(top[..i], total), line);
      out := out + line;
    }
    assert top[..|top|] == top;
  }

  /** Where the report's time section raises on a Time column: with no
      timestamp at all (no rows, or every cell NaT) `min()` is NaT and its
      `strftime` fails; with a NaT beside a timestamp `.dt.hour` is a float
      series, and formatting a float hour with `02d` fails. */
  predicate TimeSectionRaises(ts: Times) {
    !AnyTime(ts) || exists i :: 0 <= i < |ts| && ts[i].None?
  }

  /** The busiest hours of the report, `hourly_dist.nlargest(5)`: none
      without a Time column, `None` where the time section raises, and
      otherwise at most five hours of the day, busiest first, each with its
      number of events: the five busiest hours, or every hour with events
      when fewer have any. */
  function ReportPeakHours(times: Option<Times>): (r: Option<seq<(int, nat)>>)
    ensures r.None? <==> times.Some? && TimeSectionRaises(times.value)
    ensures times.None? ==> r == Some([])
    ensures r.Some? ==> |r.value| <= 5 && NonIncreasing(r.value)
    ensures r.Some? && times.Some? ==>
              forall i :: 0 <= i < |r.value| ==> 0 <= r.value[i].0 < 24 && r.value[i].1 == HourCount(times.value, r.value[i].0)
    ensures r.Some? && times.Some? ==> BusiestHours(times.value, 5, r.value)
  {
    match times
    case None => Some([])
    case Some(ts) =>
      if TimeSectionRaises(ts) then None
      else Some(PeakHours(ts, 5))
  }

  /** The hourly loop: one line per hour of the five busiest; `None` where
      the report raises before or inside it. */
  method AppendPeakHours(report: string, times: Option<Times>) returns (out: Option<string>)
    ensures out.None? <==> ReportPeakHours(times).None?
    ensures out.Some? ==> out.value == report + HourSection(ReportPeakHours(times).value)
  {
    var peaks := ReportPeakHours(times);
    if peaks.None? {
      return None;
    }
    var text := AppendHourLines(report, peaks.value);
    return Some(text);
  }

  method AppendHourLines(report: string, peaks: seq<(int, nat)>) returns (out: string)
    ensures out == report + HourSection(peaks)
  {
    out := report;
    for i := 0 to |peaks|
      invariant out == report + HourSection(peaks[..i])
    {
      var line := HourLine(peaks[i].0, peaks[i].1);
      HourSectionStep(peaks, i);
      Associative(report, HourSection(peaks[..i]), line);
      out := out + line;
    }
    assert peaks[..|peaks|] == peaks;
  }

  /** The top-issues loop: two lines per description of the top 15. */
  method AppendTopIssues(report: string, f: Frame) returns (out: string)
    ensures TopIssues(f) != [] ==> |f.rows| > 0
    ensures out == report + IssueSection(TopIssues(f), |f.rows|)
  {
    var top := TopIssues(f);
    if top != [] {
      TopNNonEmpty(Column(f, "Description"), 15);
    }
    out := AppendIssueLines(report, top, |f.rows|);
  }

  method AppendIssueLines(report: string, top: seq<(string, nat)>, total: nat) returns (out: string)
    requires top != [] ==> total > 0
    ensures out == report + IssueSection(top, total)
  {
    out := report;
    for i := 0 to |top|
      invariant out == report + IssueSection(top[..i], total)
    {
      var lines := IssueLines(i + 1, top[i].0, top[i].1, total);
      IssueSectionStep(top, total, i);
      Associative(report, IssueSection(top[..i], total), lines);
      out := out + lines;
    }
    assert top[..|top|] == top;
  }


}
