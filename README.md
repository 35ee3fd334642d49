# ITO event dashboard: verified model of the duration codec and event aggregation

This project models in Dafny the computational core of `app.py`. That file is a Streamlit
dashboard that loads Zabbix-style event exports (CSV) and summarises them. Two parts are
modelled.

- **The duration codec.** `parse_duration_to_seconds` reads free text such as `"1h 30m"` as
  seconds. `format_seconds_to_duration` renders seconds with the two largest Korean units
  (초, 분, 시간, 일). `calculate_average_duration` averages a column of durations.
- **The event aggregation rules** of `generate_report`, of the AI summary
  (`perform_simple_ai_analysis`) and of the charts:
  - the severity column, picked from an ordered list of aliases, and its case-insensitive
    bands;
  - the PROBLEM/OK status counts;
  - distinct hosts, top-N listings (`value_counts().head(n)`, `nlargest(n)`) and events per
    host;
  - the last 24 hours compared with the 24 hours before, with its change rate and trend;
  - the peak hour, the 24-bucket hourly histogram and the heatmap's hour columns;
  - the report's listing loops, which append lines to the report text, including the
    truncation of issue descriptions to 100 characters.

An event table is a `Frames.Frame`: a list of column names and one row per event. A row maps
column names to `Option<string>` cells, where `None` is NaN. A `Time` column is given as
`seq<Option<int>>` of timestamps in seconds, where `None` is NaT.

Modules follow the program's structure:

| file | module | what |
|---|---|---|
| `wrappers.dfy` | `Wrappers` | `Option`, `Min` |
| `text.dfy` | `Text` | Python's `str.split()`, `int()`, `str(int)`, the `{:2d}`, `{:02d}` and `{:,}` formats, ASCII `lower()` |
| `duration.dfy` | `Duration` | the duration parser, formatter and averages |
| `frames.dfy` | `Frames` | tables, columns, alias resolution, cell counting |
| `severity.dfy` | `Severity` | severity bands, the live metric, status counts |
| `ranking.dfy` | `Ranking` | occurrences, `nunique`, `value_counts`, `nlargest`, `idxmax` |
| `hosts.dfy` | `Hosts` | host statistics |
| `timeline.dfy` | `Timeline` | windows, hour of day, peak hour, histogram |
| `heatmap.dfy` | `Heatmap` | the date-by-hour table and its in-place hour fill |
| `report.dfy` | `Report` | percentages, issue truncation, the report's listing loops |

The imperative parts of the source are imperative methods here, each proved equal to a
specification function:
- the token loop of the parser;
- the accumulating loop of the average;
- the `+=` loops of the report;
- the update of the 24-bucket series;
- the loop that adds missing hour columns to the heatmap table, which is an object with
  fields.

The filter and count expressions are functions.

### Behaviour of the code worth noting

The model follows the code:
- The parser (`app.py:116-138`) accepts signed integers: `"-5m"` is -300 seconds, so a parsed
  duration can be negative.
- A unit-bearing token that `int()` rejects, such as `"5ms"` or `"1dh"`, does not get dropped
  alone. The `try` covers the whole loop, so the whole string parses to 0. Only tokens without
  any of the letters d, h, m, s are skipped.
- The formatter's Korean text (`app.py:140-153`) is not read back by the parser:
  `parse(format(n)) == 0` for every `n` (`Duration.ParseOfFormatIsZero`). What the model proves
  instead is that the text determines its bucket and components (`Duration.ReadRender`,
  `Duration.FormatSeconds`), and that these bound `n` (`Duration.Classify`).
- The report's info band (`app.py:471`) is the fixed label set `information, info, low, not
  classified`, not "every other recognised severity". Labels in no band stay unclassified.
- `generate_report` does not guard its division by the number of hosts (`app.py:544`; see
  Findings). The AI summary does guard it (`app.py:215`).
- The report's time section raises on a Time column with no timestamp, because `min()` is NaT
  and NaT has no `strftime` (`app.py:485`). It also raises when NaT stands beside timestamps,
  because `.dt.hour` is then a float series and `{hour:02d}` rejects a float (`app.py:566`).
  `Report.ReportPeakHours` and `Report.AppendPeakHours` return `None` in both cases.

## Model

| member | source | states |
|---|---|---|
| Text.Split | app.py:120 | `str.split()` yields non-empty tokens that contain no whitespace |
| Text.SplitJoinSpaced | app.py:120 | splitting words joined by single spaces gives back exactly those words |
| Text.ParseInt | app.py:124 | `int()` fails unless the text ends in a digit; a negative result has a leading minus; a letter or punctuation anywhere, or a sign after the first character, is the `ValueError` |
| Text.ParseIntOfIntToString | app.py:124 | `int()` reads back the decimal text of every integer, sign included |
| Text.Without | app.py:124 | `replace(c, '')` leaves no `c` and never lengthens the token |
| Text.Width2 | app.py:551 | `{i:2d}` is two characters below 100, digits and spaces only, the digits right-aligned |
| Text.ZeroPad2 | app.py:566 | `{hour:02d}` is two digits below 100, and `int()` reads the hour back |
| Text.Grouped | app.py:551 | `{count:,}` is a group of one to three digits, then groups of a comma and three digits, so a comma stands every fourth character from the end; nothing but digits and commas |
| Text.GroupedUngrouped | app.py:551 | removing the commas from `{n:,}` gives the plain digits of `n`, which `int()` reads back as `n` |
| Text.Lower | app.py:469-471 | `lower()` keeps the length, lowers each ASCII capital and leaves no capital |
| Duration.UnitOf | app.py:123-134 | the unit is the first of d, h, m, s that the token contains (each case an if and only if); there is none exactly when it contains none of them |
| Duration.TokenSeconds | app.py:123-134 | a token without a unit letter adds 0; a parsed token adds a multiple of its unit's multiplier |
| Duration.Seconds | app.py:116-138 | a missing value parses to 0, and a non-zero result needs one of d, h, m, s in the text |
| Duration.ParseDurationToSeconds | app.py:116-138 | the token loop, with its early return of 0, computes `Seconds`: the sum over tokens, or 0 on any failure or a non-string value |
| Duration.TokensSecondsAppend | app.py:122-136 | the total of concatenated token lists is the sum of their totals, and a failure anywhere fails the whole |
| Duration.FailingTokenZeroes | app.py:117-138 | one unit-bearing token that `int()` rejects makes the whole string parse to 0 |
| Duration.TokenWithoutUnitIgnored | app.py:122-134 | a token without d, h, m or s contributes nothing, wherever it stands |
| Duration.NoUnitLetterTokens | app.py:119-136 | a string without any of d, h, m, s parses to 0 |
| Duration.TermSeconds | app.py:123-134 | a token made of an integer and one unit letter parses to the integer times 86400, 3600, 60 or 1 |
| Duration.TermsRoundTrip | app.py:116-136 | a space-separated list of such tokens parses to the sum of amount times multiplier |
| Duration.ExampleHourMinutes | app.py:103 | "1h 30m" parses to 5400 |
| Duration.ExampleMinutes | app.py:103 | "45m" parses to 2700 |
| Duration.ExampleDaysHours | app.py:103 | "2d 3h" parses to 183600 |
| Duration.ExampleNegative | app.py:124-131 | "-5m" parses to -300 |
| Duration.ExampleNoUnits | app.py:119-136 | "" and "garbage" parse to 0 |
| Duration.ExampleFailClosed | app.py:129-138 | "1h 5ms" parses to 0, because "5s" is not an integer |
| Duration.ExampleTwoLetters | app.py:123-125 | "1dh" parses to 0, because it is read in days and "1h" is not an integer |
| Duration.Classify | app.py:140-153 | the bucket is chosen by the thresholds 60, 3600 and 86400 (each if and only if); minutes are below 60 and hours below 24; the shown value is at most `n` and less than one unit of its smallest component below it |
| Duration.ReadRender | app.py:140-153 | the rendered text can be read back into exactly the bucket and components it shows |
| Duration.FormatSeconds | app.py:140-153 | the text of `format(n)` reads back to exactly the bucket and components `Classify` gives for `n`, and holds none of d, h, m, s |
| Duration.ParseOfFormatIsZero | app.py:116-153 | the parser reads any formatted duration as 0 |
| Duration.Counted | app.py:100-106 | the counted durations are positive and never more than the entries |
| Duration.Mean | app.py:109 | `total_seconds / count` as the floor of the exact quotient: mean × count ≤ total < (mean + 1) × count |
| Duration.CalculateAverageDuration | app.py:95-114 | "N/A" when no entry is present, non-empty and positive; otherwise the formatted integer mean of exactly those entries |
| Duration.SumBounds | app.py:103-110 | the sum of the counted values lies between count × minimum and count × maximum |
| Duration.MeanWithinRange | app.py:108-110 | the average lies between the smallest and the largest counted duration |
| Duration.AverageExample | app.py:95-114 | "1h", "30m", "" and "2h 15m" count 3600, 1800 and 8100, and average to "1시간 15분" |
| Duration.MaxOf | app.py:510 | the maximum is one of the values and bounds all of them |
| Duration.ReportFilterAgrees | app.py:507-510 | the report's filter (parsed seconds > 0) keeps exactly the entries the average helper counts |
| Duration.ReportDurations | app.py:507-512 | the report's average and maximum are "N/A" exactly when no entry counts; otherwise the formatted mean, the same text `calculate_average_duration` gives, and the formatted maximum of the counted entries |
| Frames.FirstPresent | app.py:462-466 | the first alias that is a column, or none exactly when no alias is a column |
| Frames.ResolveColumn | app.py:462-466 | the alias loop with `break` returns `FirstPresent` |
| Frames.SeverityFirst | app.py:463 | a column named exactly "Severity" is always the one used |
| Frames.LevelFallback | app.py:463 | "Level" is used when the four aliases before it are absent |
| Frames.Count | app.py:469-478 | `len(df[mask])` is at most the number of rows |
| Frames.CountIsCardinality | app.py:469-478 | the count is the number of rows whose cell satisfies the mask |
| Frames.CountDisjoint | app.py:469-471 | masks that exclude each other count at most one per row |
| Severity.ReportBands | app.py:468-476 | all bands are 0 without an alias column; the count raises exactly when the resolved column has rows but no text |
| Severity.BandsWithinTotal | app.py:469-471 | critical + warning + info never exceeds the number of events |
| Severity.BandsCountRows | app.py:469-471 | each band counts exactly the rows whose lower-cased severity is one of its labels |
| Severity.LabelsDisjoint | app.py:469-471 | no label belongs to two bands |
| Severity.AnalysisBands | app.py:174-180 | the AI summary's counts are 0 without an alias column, and critical + warning never exceeds the number of events |
| Severity.AnalysisAgreesWithReport | app.py:174-180 | the AI summary's `astype(str)` variant gives the report's critical and warning counts, and 0 where the report raises |
| Severity.LiveCritical | app.py:944 | the live metric is the number of rows whose "Severity" cell is exactly "Disaster" or "High" |
| Severity.LiveWithinReport | app.py:944 | the live metric never exceeds the report's critical count |
| Severity.BandsExample | app.py:468-471 | Disaster, Warning, Warning and Information give 1 critical, 2 warning and 1 info |
| Severity.StatusCount | app.py:477-478 | the status count is the number of rows whose "Status" cell is exactly the given value |
| Severity.StatusWithinTotal | app.py:477-478 | PROBLEM + OK never exceeds the number of events |
| Ranking.Occurrences | app.py:481 | a value occurs at least once exactly when it is in the list |
| Ranking.Present | app.py:480 | `dropna` keeps exactly the values of the non-NaN cells |
| Ranking.PresentOccurrences | app.py:480-481 | `dropna` keeps every occurrence: a value occurs as often as the column holds it |
| Ranking.Distinct | app.py:480 | the distinct values contain exactly the list's values, once each |
| Ranking.Unique | app.py:480 | `nunique()` is the number of distinct non-NaN values, at most the number of cells, and positive exactly when some cell is not NaN |
| Ranking.SortDescending | app.py:481 | the sorted tally is a permutation with non-increasing counts |
| Ranking.Largest | app.py:564 | `nlargest(n)` keeps `min(n, |es|)` entries of the series, largest first, and leaves out nothing larger than its last entry |
| Ranking.TallyEntries | app.py:481 | the tally holds one entry per distinct value, with its number of occurrences |
| Ranking.TopN | app.py:481 | `value_counts().head(n)`: `min(n, nunique)` entries, distinct keys from the column, each with its count (at least 1), non-increasing, and no omitted value more frequent than the last one listed |
| Ranking.MaxIndex | app.py:487 | `idxmax` picks the first entry with the largest count |
| Ranking.IdxMax | app.py:487 | `idxmax` raises exactly on an empty series; otherwise it gives the key of an entry that no entry outnumbers and every earlier entry trails |
| Hosts.UniqueHosts | app.py:480 | the number of distinct host names; at most the number of events, and positive exactly when there is a Host column and some event names a host |
| Hosts.TopHosts | app.py:481 | `min(n, nunique)` hosts, none without a Host column, busiest first, listed once each, each with its number of events, and no host left out that has more events than the last one listed (which happens only when the listing is full) |
| Hosts.ProblemHosts | app.py:218-221 | `min(5, nunique)` of the hosts of PROBLEM events, none without a Status column, busiest first, listed once each, each with its PROBLEM count, which never exceeds its event count, and no PROBLEM host left out that has more PROBLEM events than the fifth |
| Hosts.AvgEventsPerHost | app.py:215 | 0 when there is no host, otherwise average × hosts = events |
| Hosts.AnalyseHosts | app.py:211-225 | host analysis exists exactly when there is a Host column |
| Hosts.ReportAvgPerHost | app.py:544 | the report's unguarded division fails exactly when there is no host |
| Hosts.ReportAvgWithoutHosts | app.py:544 | the report divides by zero exactly when there is no Host column or no event names a host, where the AI summary reports 0 |
| Hosts.ReportAvgAgrees | app.py:215 | with at least one host, the report's and the AI summary's averages agree |
| Timeline.Latest | app.py:197 | the latest timestamp is one of them and bounds all of them; NaT exactly when there is none |
| Timeline.CompareWindows | app.py:196-200 | both windows are 0 when there is no timestamp |
| Timeline.WindowsDisjoint | app.py:198-200 | recent + previous never exceeds the number of events |
| Timeline.RecentHoldsLatest | app.py:198 | with any timestamp, the recent window holds at least the latest event |
| Timeline.WindowsCountRows | app.py:198 | the recent window is the set of events at most 24 hours older than the latest |
| Timeline.PreviousCountRows | app.py:199-200 | the previous window is the set of events more than 24 and at most 48 hours older than the latest |
| Timeline.ChangeRate | app.py:207 | 0 with an empty previous window, else rate × previous = (recent − previous) × 100 |
| Timeline.Trend | app.py:206-207 | "증가" or "감소"; with a non-empty previous window it rises exactly when the change rate is positive, with an empty one exactly when the recent window has an event |
| Timeline.AnalyseTimes | app.py:189-208 | the peak hours are the three busiest hours of the day: `min(3, hours with events)` distinct hours, busiest first, each with its count, and no hour left out that has more events than the third; the trend rises exactly when recent > previous; the windows fit in the events |
| Timeline.HourOf | app.py:192 | the hour of day is in 0..23 |
| Timeline.SizesBelow | app.py:1084 | the hourly series lists hours in increasing order, each with its positive count |
| Timeline.SizesBelowComplete | app.py:1084 | every hour with events is in the hourly series |
| Timeline.HourSizes | app.py:193 | `groupby('Hour').size()` lists hours of the day in increasing order, each with its positive number of events, and every hour that has events |
| Timeline.PeakHours | app.py:194 | `nlargest(n)` of the hourly sizes: `min(n, hours with events)` distinct hours, busiest first, each with its count, and no hour left out that has more events than the last one listed |
| Timeline.PeakHour | app.py:487 | the peak hour is an hour of the day that no hour outnumbers and every earlier hour trails; there is none exactly when there is no timestamp |
| Timeline.HourlyHistogram | app.py:1084-1088 | 24 buckets, bucket h holding the number of events at hour h (0 where there are none) |
| Timeline.HistogramTotal | app.py:1084-1088 | the 24 buckets add up to the number of timestamped events |
| Heatmap.ZeroColumnInvisible | app.py:1144-1147 | a zero column added where a row had none leaves the reindexed row unchanged |
| Heatmap.HourTable.AddMissingHours | app.py:1144-1146 | afterwards every hour 0..23 is a column; old columns and cells stay unchanged and come first, new hour columns are 0 and in increasing order, and the reindexed table is the same |
| Heatmap.HourTable.Reindexed | app.py:1147 | `reindex(columns=range(24), fill_value=0)` gives each date a row of 24 counts: the cell under hour h where the table has a column h, and 0 where it has none |
| Report.RoundHalfEven | app.py:550 | the nearest integer to a/b, ties to even |
| Report.Pct | app.py:550-551 | `{percentage:.1f}` reads back as whole.tenth within half a tenth of the exact share, a tie going to the even tenth; a part of the total never shows above 100.0 |
| Report.TenthsAtMostThousand | app.py:550 | a part of the total never shows above 100.0 percent |
| Report.PctExamples | app.py:550 | 1 of 4 shows as 25.0 and 2 of 4 as 50.0 |
| Report.Display100 | app.py:573 | a description of at most 100 characters is shown whole; a longer one as its first 100 characters and "..." |
| Report.DisplayBounds | app.py:573 | the shown text has at most 103 characters and begins with the description |
| Report.HostLine | app.py:551 | a host line is a single line for a host name without a newline; below rank 100 it shows the rank in two places and the host name verbatim from the seventh character |
| Report.CountShareShows | app.py:551 | the count-and-share text is `{count:,}`, "건 (", `{percentage:.1f}` and "%)" on one line; its count part without commas reads back as the count, and its share part is the rounded percentage |
| Report.HostLineShows | app.py:551 | below rank 100 a host line shows, after the host name, ": " and then the count, which reads back, and the share |
| Report.HourLine | app.py:566 | an hour line is a single line whose two-digit hour `int()` reads back, followed by "시: ", the count with its commas, which reads back as the count, and "건" |
| Report.CountOnly | app.py:566 | the count text is `{count:,}` and "건" on one line, and its count part without commas reads back as the count |
| Report.IssueTitle | app.py:573 | the first issue line is the rank, ". ", the shown description and a newline |
| Report.IssueCount | app.py:574 | the second issue line is a single line that begins with its fixed 13-character lead |
| Report.IssueCountShows | app.py:574 | after its lead the second issue line shows the count, which reads back, and the share |
| Report.IssueLines | app.py:573-574 | the rank and ". ", the shown description verbatim up to the first newline, then the count line; exactly two lines when the shown text has no newline |
| Report.IssueLinesShow | app.py:573-574 | right after the first line of a top issue come the count line's lead, the count, which reads back, and the share |
| Report.AppendTopHosts | app.py:546-551 | the loop appends one ranked line per host of the top 10, and a non-empty listing implies events |
| Report.AppendHostLines | app.py:549-551 | appends the host lines, in rank order |
| Report.ReportPeakHours | app.py:484-566 | `None` exactly when the Time column has no timestamp or has a NaT; otherwise the five busiest hours of the day: `min(5, hours with events)` distinct hours, busiest first, each with its count, and no hour left out that has more events than the fifth; none without a Time column |
| Report.AppendPeakHours | app.py:562-566 | `None` exactly where the report raises; otherwise one line per hour of `nlargest(5)` appended, or none without a Time column |
| Report.AppendHourLines | app.py:565-566 | appends the hour lines, in order |
| Report.TopIssues | app.py:518 | `value_counts().head(15)` of the descriptions, empty without a Description column: `min(15, nunique)` distinct descriptions, most frequent first, each with its count, and none left out that occurs more often than the fifteenth |
| Report.AppendTopIssues | app.py:569-574 | the loop appends two lines per description of the top 15, and a non-empty listing implies events |
| Report.AppendIssueLines | app.py:571-574 | appends the issue lines, in rank order |
| Report.HostSectionLines | app.py:549-551 | the host section has one line per host listed, when no host name holds a newline |
| Report.HourSectionLines | app.py:565-566 | the hourly section has one line per hour listed |
| Report.IssueSectionLines | app.py:571-574 | the issue section has two lines per description listed, when no shown description holds a newline |
| Report.TopNNonEmpty | app.py:550 | a non-empty listing comes from a non-empty column, so the report's percentages are defined |

## Left out

- Streamlit UI, session state, widgets and metrics are not modelled; they are presentation.
  Only the live critical count (`app.py:944`) is modelled, as a number.
- Plotly charts, Azure Blob backup, search-index setup (`create_index.py`), OpenAI client
  setup, prompts and API calls are not modelled. They are foreign network or rendering
  calls. The AI summary's `OPENAI_VERSION` guard and its `try` belong to them.
- CSV decoding and `pd.to_datetime` are not modelled. Cells are given as text or NaN, and
  timestamps as whole seconds. A column that pandas reads as numbers is outside the model. An
  unparseable timestamp raises in the source and is not represented.
- Timeline.HourOf: the hour of day is `(t mod 86400) / 3600` of a naive timestamp. Time zones
  are not modelled.
- Calendar-date grouping (`app.py:490`, the heatmap's dates, day of week) is not modelled,
  because it needs calendar arithmetic. The heatmap table is taken as given: one row per date,
  one column per hour with events.
- The report header, the time range, the daily mean, maximum and minimum, `datetime.now()` and
  the summary lines with their percentages (`app.py:520-546`) are not modelled. Among these,
  only the division by the number of hosts is kept, as the Finding below.
- Report.Pct: the percentage is rounded from the exact rational count × 100 / total, ties to
  even. Python rounds the binary float value instead, so the two can differ in the last digit
  near a tie.
- Duration.Mean: the float quotient `total_seconds / count` (`app.py:109`) is represented by
  the floor of the exact quotient. The formatter truncates every component, so the shown text
  agrees as long as float rounding does not carry the average across a unit boundary. That
  needs totals near 2^53 seconds or a count with more than about 14 digits; such inputs are not
  covered. A total so large that the quotient exceeds the float range makes the division raise
  `OverflowError`, which the bare `except` (`app.py:113-114`) turns into "N/A"; the model
  formats the floor instead.
- Ranking.SortDescending: ties keep the order of first appearance. That is what
  `nlargest(keep='first')` does. `value_counts` does not document its order for ties, so the
  model fixes this one. The model does not prove a separate lemma about tie order.
- Duration.ParseDurationToSeconds: `int()` also accepts decimal digits of other scripts, so
  Python reads `"１h"` (a fullwidth one) as 3600 seconds; the model reads it as 0, because its
  `int()` takes ASCII digits only. From Python 3.11 on, `int()` also raises `ValueError` on a
  token of more than 4300 digits (the default limit on converting text to an integer), so
  such a string parses to 0 in the source (`app.py:124-138`); the model has no such limit and
  reads the number.
- Text.ParseInt: only ASCII digits, an optional sign and single underscores are accepted.
  Python's `int()` accepts any Unicode decimal digit and surrounding whitespace; the tokens it
  receives here never hold whitespace.
- Text.Lower: `lower()` is modelled on ASCII letters only. This gives the same band
  membership, because no band label holds a letter that a non-ASCII character lowers to.
- The merge and sort of several uploaded files (`app.py:791-796`) and `pd.concat` are not
  modelled. The model starts from one table.

## Findings

| source | as written | input that shows it | evidently intended | confidence | as-written member | corrected member |
|---|---|---|---|---|---|---|
| app.py:544 | `total_events/unique_hosts` with no guard | a table without a Host column (or with no host names): `unique_hosts` is 0 and the report generation raises ZeroDivisionError | the per-host average is 0 when there are no hosts, as the AI summary computes it at app.py:215 | medium, not executed | Hosts.ReportAvgPerHost, Hosts.ReportAvgWithoutHosts | Hosts.AvgEventsPerHost, Hosts.ReportAvgAgrees |
