/** The duration codec of `app.py`: `parse_duration_to_seconds` reads a
    free-text duration such as "1h 30m" as a number of seconds,
    `format_seconds_to_duration` renders seconds with the two largest
    Korean units (초 seconds, 분 minutes, 시간 hours, 일 days), and
    `calculate_average_duration` averages the durations of a column. */
module Duration {

  import opened Wrappers
  import opened Text

  // ---------------------------------------------------------------------
  // Parsing
  // ---------------------------------------------------------------------

  datatype Unit = Day | Hour | Minute | Second

  function Letter(u: Unit): char {
    match u
    case Day => 'd'
    case Hour => 'h'
    case Minute => 'm'
    case Second => 's'
  }

  function Multiplier(u: Unit): nat {
    match u
    case Day => 86400
    case Hour => 3600
    case Minute => 60
    case Second => 1
  }

  /** The unit a token is read in: the first of d, h, m, s, in that order,
      that occurs anywhere in the token; `None` when none does. */
  function UnitOf(token: string): (u: Option<Unit>)
    ensures u.Some? ==> Letter(u.value) in token
    ensures u == Some(Day) <==> 'd' in token
    ensures u == Some(Hour) <==> 'd' !in token && 'h' in token
    ensures u == Some(Minute) <==> 'd' !in token && 'h' !in token && 'm' in token
    ensures u == Some(Second) <==> 'd' !in token && 'h' !in token && 'm' !in token && 's' in token
    ensures u.None? <==> 'd' !in token && 'h' !in token && 'm' !in token && 's' !in token
  {
    if 'd' in token then Some(Day)
    else if 'h' in token then Some(Hour)
    else if 'm' in token then Some(Minute)
    else if 's' in token then Some(Second)
    else None
  }

  /** What one token adds to the total: `Some(0)` for a token without a
      unit letter, `None` when `int()` rejects what is left once the unit
      letter is removed (the `ValueError` of the source). */
  function TokenSeconds(token: string): (r: Option<int>)
    ensures UnitOf(token).None? ==> r == Some(0)
    ensures r.Some? && UnitOf(token).Some? ==> r.value % Multiplier(UnitOf(token).value) == 0
  {
    match UnitOf(token)
    case None => Some(0)
    case Some(u) =>
      match ParseInt(Without(token, Letter(u)))
      case None => None
      case Some(n) =>
        MultipleOfUnit(n, u);
        Some(n * Multiplier(u))
  }

  lemma MultipleOfUnit(n: int, u: Unit)
    ensures (n * Multiplier(u)) % Multiplier(u) == 0
  {
    var m := Multiplier(u);
    assert n * m == m * n + 0;
  }

  /** The sum over the tokens, or `None` as soon as one token fails. */
  function TokensSeconds(tokens: seq<string>): Option<int> {
    if tokens == [] then Some(0)
    else
      match TokensSeconds(tokens[..|tokens| - 1])
      case None => None
      case Some(t) =>
        match TokenSeconds(tokens[|tokens| - 1])
        case None => None
        case Some(x) => Some(t + x)
  }

  /** `parse_duration_to_seconds(v)`: `None` is a value that is not a string
      (pandas' NaN), on which `.strip()` raises; that and any failing token
      make the whole result 0, because the `try` covers the whole loop. */
  function Seconds(v: Option<string>): (r: int)
    ensures v.None? ==> r == 0
    ensures r != 0 ==> v.Some? && !NoUnitLetter(v.value)
  {
    match v
    case None => 0
    case Some(s) =>
      NoUnitLetterTokens(s);
      TokensSeconds(Split(s)).GetOr(0)
  }

  /** The parser as the source writes it: a loop over the tokens that
      accumulates `total_seconds`, returning 0 from the first failure. */
  method ParseDurationToSeconds(v: Option<string>) returns (total: int)
    ensures total == Seconds(v)
  {
    if v.None? {
      return 0;
    }
    var parts := Split(v.value);
    total := 0;
    var i := 0;
    while i < |parts|
      invariant 0 <= i <= |parts|
      invariant TokensSeconds(parts[..i]) == Some(total)
    {
      var part := parts[i];
      ghost var before := total;
      var unit := UnitOf(part);
      if unit.Some? {
        var n := ParseInt(Without(part, Letter(unit.value)));
        if n.None? {
          TokensStepFails(parts, i);
          TokensSecondsFailurePersists(parts[..i + 1], parts[i + 1..]);
          assert parts[..i + 1] + parts[i + 1..] == parts;
          return 0;
        }
        total := total + n.value * Multiplier(unit.value);
      }
      TokensStep(parts, i, before, total - before);
      i := i + 1;
    }
    assert parts[..i] == parts;
  }

  lemma TokensStep(ts: seq<string>, i: nat, total: int, add: int)
    requires i < |ts| && TokensSeconds(ts[..i]) == Some(total) && TokenSeconds(ts[i]) == Some(add)
    ensures TokensSeconds(ts[..i + 1]) == Some(total + add)
  {
    assert ts[..i + 1][..i] == ts[..i];
  }

  lemma TokensStepFails(ts: seq<string>, i: nat)
    requires i < |ts| && TokenSeconds(ts[i]) == None
    ensures TokensSeconds(ts[..i + 1]) == None
  {
    assert ts[..i + 1][..i] == ts[..i];
  }

  /** Concatenating token lists adds their totals; a failure anywhere fails
      the whole. */
  lemma {:induction false} TokensSecondsAppend(a: seq<string>, b: seq<string>)
    ensures TokensSeconds(a + b) ==
      if TokensSeconds(a).Some? && TokensSeconds(b).Some?
      then Some(TokensSeconds(a).value + TokensSeconds(b).value)
      else None
  {
    if b == [] {
      assert a + b == a;
    } else {
      var b' := b[..|b| - 1];
      assert (a + b)[..|a + b| - 1] == a + b';
      assert (a + b)[|a + b| - 1] == b[|b| - 1];
      TokensSecondsAppend(a, b');
    }
  }

  lemma TokensSecondsFailurePersists(a: seq<string>, b: seq<string>)
    requires TokensSeconds(a) == None
    ensures TokensSeconds(a + b) == None
  {
    TokensSecondsAppend(a, b);
  }

  /** Fail-closed parsing: one token whose unit letter is followed by
      something `int()` rejects ("5ms", "1dh", "h") makes the result 0 for
      the whole string, whatever the other tokens hold. */
  lemma FailingTokenZeroes(s: string, k: nat)
    requires k < |Split(s)| && TokenSeconds(Split(s)[k]) == None
    ensures Seconds(Some(s)) == 0
  {
    var ts := Split(s);
    assert ts == ts[..k] + [ts[k]] + ts[k + 1..];
    TokensSecondsAppend(ts[..k], [ts[k]]);
    assert [ts[k]][..0] == [];
    TokensSecondsAppend(ts[..k] + [ts[k]], ts[k + 1..]);
  }

  /** A token holding none of the letters d, h, m, s is skipped: removing it
      changes nothing. */
  lemma TokenWithoutUnitIgnored(a: seq<string>, t: string, b: seq<string>)
    requires 'd' !in t && 'h' !in t && 'm' !in t && 's' !in t
    ensures TokensSeconds(a + [t] + b) == TokensSeconds(a + b)
  {
    TokensSecondsAppend(a, [t]);
    assert [t][..0] == [];
    TokensSecondsAppend(a + [t], b);
    TokensSecondsAppend(a, b);
  }

  /** A well-formed duration term: an integer immediately followed by the
      unit letter, like "30m" or "-5m". */
  datatype Term = Term(amount: int, unit: Unit)

  function ShowTerm(t: Term): string {
    IntToString(t.amount) + [Letter(t.unit)]
  }

  function ShowTerms(ts: seq<Term>): (ws: seq<string>)
    ensures |ws| == |ts|
    ensures forall i :: 0 <= i < |ts| ==> ws[i] == ShowTerm(ts[i])
  {
    if ts == [] then [] else ShowTerms(ts[..|ts| - 1]) + [ShowTerm(ts[|ts| - 1])]
  }

  /** The seconds a term denotes: its amount times its unit's multiplier. */
  function TermValue(t: Term): int {
    t.amount * Multiplier(t.unit)
  }

  /** The seconds each term denotes. */
  function TermValues(ts: seq<Term>): (vs: seq<int>)
    ensures |vs| == |ts|
    ensures forall i :: 0 <= i < |ts| ==> vs[i] == TermValue(ts[i])
  {
    if ts == [] then [] else TermValues(ts[..|ts| - 1]) + [TermValue(ts[|ts| - 1])]
  }

  lemma WithoutLast(s: string, c: char)
    requires c !in s
    ensures Without(s + [c], c) == s
  {
    if s == [] {
      assert ([c])[1..] == [];
    } else {
      var t := s + [c];
      assert t[0] == s[0] != c;
      assert t[1..] == s[1..] + [c];
      WithoutLast(s[1..], c);
      assert Without(t, c) == [s[0]] + Without(t[1..], c);
      assert s == [s[0]] + s[1..];
    }
  }

  lemma TermSeconds(t: Term)
    ensures TokenSeconds(ShowTerm(t)) == Some(TermValue(t))
  {
    var digits := IntToString(t.amount);
    var w := ShowTerm(t);
    var L := Letter(t.unit);
    assert forall c :: c in digits ==> IsDigit(c) || c == '-';
    assert forall c :: c in w ==> c in digits || c == L;
    assert L in w by { assert w[|w| - 1] == L; }
    assert UnitOf(w) == Some(t.unit);
    WithoutLast(digits, L);
    ParseIntOfIntToString(t.amount);
  }

  /** Tokens that each parse on their own add up. */
  lemma {:induction false} TokensSecondsOfValues(tokens: seq<string>, values: seq<int>)
    requires |tokens| == |values|
    requires forall i :: 0 <= i < |tokens| ==> TokenSeconds(tokens[i]) == Some(values[i])
    ensures TokensSeconds(tokens) == Some(Sum(values))
  {
    if tokens != [] {
      var n := |tokens| - 1;
      TokensSecondsOfValues(tokens[..n], values[..n]);
    }
  }

  /** The parser reads a spaced list of terms as the sum of amount times
      multiplier (d = 86400, h = 3600, m = 60, s = 1). */
  lemma TermsRoundTrip(ts: seq<Term>)
    ensures Seconds(Some(JoinSpaced(ShowTerms(ts)))) == Sum(TermValues(ts))
  {
    var ws := ShowTerms(ts);
    forall i | 0 <= i < |ws| ensures ws[i] != [] && NoSpace(ws[i]) {
      var digits := IntToString(ts[i].amount);
      assert ws[i] == digits + [Letter(ts[i].unit)];
      assert forall j :: 0 <= j < |digits| ==> !IsSpace(digits[j]);
    }
    SplitJoinSpaced(ws);
    forall i | 0 <= i < |ws| ensures TokenSeconds(ws[i]) == Some(TermValues(ts)[i]) {
      TermSeconds(ts[i]);
    }
    TokensSecondsOfValues(ws, TermValues(ts));
  }

  lemma OneTerm(a: Term)
    ensures Seconds(Some(ShowTerm(a))) == TermValue(a)
  {
    TermsRoundTrip([a]);
    assert ShowTerms([a]) == [ShowTerm(a)];
    assert TermValues([a]) == [TermValue(a)];
  }

  lemma TwoTerms(a: Term, b: Term)
    ensures Seconds(Some(ShowTerm(a) + " " + ShowTerm(b))) == TermValue(a) + TermValue(b)
  {
    var ts := [a, b];
    assert ts[..1] == [a];
    TermsRoundTrip(ts);
    var ws := ShowTerms(ts);
    assert ws == [ShowTerm(a), ShowTerm(b)];
    assert JoinSpaced(ws) == ShowTerm(a) + " " + ShowTerm(b) by {
      assert ws[1..] == [ShowTerm(b)];
    }
    var vs := TermValues(ts);
    assert vs == [TermValue(a), TermValue(b)];
    SumTwo(TermValue(a), TermValue(b));
  }

  lemma SumTwo(x: int, y: int)
    ensures Sum([x, y]) == x + y
  {
    assert [x, y][..1] == [x];
    assert [x][..0] == [];
    assert Sum([x]) == x;
  }

  /** The examples of the source's comment: "1h 30m" is 5400 seconds. */
  lemma ExampleHourMinutes()
    ensures Seconds(Some("1h 30m")) == 5400
  {
    var a, b := Term(1, Hour), Term(30, Minute);
    assert ShowTerm(a) == "1h";
    assert ShowTerm(b) == "30m";
    assert ShowTerm(a) + " " + ShowTerm(b) == "1h 30m";
    TwoTerms(a, b);
  }

  /** "45m" is 2700 seconds. */
  lemma ExampleMinutes()
    ensures Seconds(Some("45m")) == 2700
  {
    assert ShowTerm(Term(45, Minute)) == "45m";
    OneTerm(Term(45, Minute));
  }

  /** "2d 3h" is 183600 seconds. */
  lemma ExampleDaysHours()
    ensures Seconds(Some("2d 3h")) == 183600
  {
    var a, b := Term(2, Day), Term(3, Hour);
    assert ShowTerm(a) == "2d";
    assert ShowTerm(b) == "3h";
    assert ShowTerm(a) + " " + ShowTerm(b) == "2d 3h";
    TwoTerms(a, b);
  }

  /** `int()` accepts a sign, so "-5m" is -300 seconds: the parser can
      return a negative number. */
  lemma ExampleNegative()
    ensures Seconds(Some("-5m")) == -300
  {
    assert ShowTerm(Term(-5, Minute)) == "-5m";
    OneTerm(Term(-5, Minute));
  }

  /** The empty string and a string without unit letters parse to 0. */
  lemma ExampleNoUnits()
    ensures Seconds(Some("")) == 0
    ensures Seconds(Some("garbage")) == 0
  {
    assert NoUnitLetter("garbage") by {
      var g := "garbage";
      assert g == ['g', 'a', 'r', 'b', 'a', 'g', 'e'];
    }
  }

  /** "5ms" is read in minutes, and "5s" is no integer, so "1h 5ms" parses
      to 0 as a whole although "1h" alone is 3600 seconds. */
  lemma ExampleFailClosed()
    ensures Seconds(Some("1h 5ms")) == 0
  {
    assert JoinSpaced(["1h", "5ms"]) == "1h 5ms";
    SplitJoinSpaced(["1h", "5ms"]);
    MinutesOfSeconds();
    FailingTokenZeroes("1h 5ms", 1);
  }

  lemma MinutesOfSeconds()
    ensures TokenSeconds("5ms") == None
  {
    var t := "5ms";
    assert t[0] == '5' && t[1] == 'm' && t[2] == 's';
    assert UnitOf(t) == Some(Minute);
    assert t[1..] == "ms" && t[1..][1..] == "s" && t[1..][1..][1..] == "";
    assert Without(t, 'm') == "5s";
    assert !IsDigit("5s"[1]);
  }

  /** "1dh" is read in days, and "1h" is no integer. */
  lemma ExampleTwoLetters()
    ensures Seconds(Some("1dh")) == 0
  {
    DaysOfHours();
    SplitJoinSpaced(["1dh"]);
    FailingTokenZeroes("1dh", 0);
  }

  lemma DaysOfHours()
    ensures TokenSeconds("1dh") == None
  {
    var t := "1dh";
    assert t[0] == '1' && t[1] == 'd' && t[2] == 'h';
    assert UnitOf(t) == Some(Day);
    assert t[1..] == "dh" && t[1..][1..] == "h" && t[1..][1..][1..] == "";
    assert Without(t, 'd') == "1h";
    assert !IsDigit("1h"[1]);
  }

  // ---------------------------------------------------------------------
  // Formatting
  // ---------------------------------------------------------------------

  /** The two largest units shown by `format_seconds_to_duration`. */
  datatype Shown =
    | Secs(s: int)
    | Mins(m: int)
    | HoursMins(h: int, m: int)
    | DaysHours(d: int, h: int)

  /** The number of seconds a shown value stands for, rounded down. */
  function Floor(r: Shown): int {
    match r
    case Secs(s) => s
    case Mins(m) => m * 60
    case HoursMins(h, m) => h * 3600 + m * 60
    case DaysHours(d, h) => d * 86400 + h * 3600
  }

  /** The resolution of a shown value: what truncation may have dropped. */
  function Granularity(r: Shown): nat {
    match r
    case Secs(_) => 1
    case Mins(_) => 60
    case HoursMins(_, _) => 60
    case DaysHours(_, _) => 3600
  }

  /** Which bucket `format_seconds_to_duration(n)` chooses and the
      components it shows; every component is truncated, never rounded. */
  function Classify(n: int): (r: Shown)
    ensures n < 60 <==> r.Secs?
    ensures 60 <= n < 3600 <==> r.Mins?
    ensures 3600 <= n < 86400 <==> r.HoursMins?
    ensures 86400 <= n <==> r.DaysHours?
    ensures r.Mins? ==> 1 <= r.m < 60
    ensures r.HoursMins? ==> 1 <= r.h < 24 && 0 <= r.m < 60
    ensures r.DaysHours? ==> 1 <= r.d && 0 <= r.h < 24
    ensures Floor(r) <= n < Floor(r) + Granularity(r)
  {
    if n < 60 then Secs(n)
    else if n < 3600 then Mins(n / 60)
    else if n < 86400 then HoursMins(n / 3600, (n % 3600) / 60)
    else DaysHours(n / 86400, (n % 86400) / 3600)
  }

  function Render(r: Shown): string {
    match r
    case Secs(s) => IntToString(s) + "초"
    case Mins(m) => IntToString(m) + "분"
    case HoursMins(h, m) => IntToString(h) + "시간 " + IntToString(m) + "분"
    case DaysHours(d, h) => IntToString(d) + "일 " + IntToString(h) + "시간"
  }

  /** `format_seconds_to_duration(n)`. */
  function FormatSeconds(n: int): (r: string)
    ensures ReadShown(r) == Some(Classify(n))
    ensures NoUnitLetter(r)
  {
    ReadRender(Classify(n));
    RenderHasNoUnitLetter(Classify(n));
    Render(Classify(n))
  }

  /** The index of the first space in `s`, or `|s|` when there is none. */
  function SpaceAt(s: string): (k: nat)
    ensures k <= |s|
    ensures forall i :: 0 <= i < k ==> s[i] != ' '
    ensures k < |s| ==> s[k] == ' '
  {
    if s == [] || s[0] == ' ' then 0 else 1 + SpaceAt(s[1..])
  }

  /** `int()` of `s` with the word `unit` removed from its end. */
  function ReadAmount(s: string, unit: string): Option<int> {
    if |unit| <= |s| && s[|s| - |unit|..] == unit then ParseInt(s[..|s| - |unit|]) else None
  }

  /** Reads back what `Render` writes. */
  function ReadShown(s: string): Option<Shown> {
    var k := SpaceAt(s);
    if k == |s| then ReadSingle(s) else ReadPair(s[..k], s[k + 1..])
  }

  /** Reads a text with one component: seconds or minutes. */
  function ReadSingle(s: string): Option<Shown> {
    var secs, mins := ReadAmount(s, "초"), ReadAmount(s, "분");
    if secs.Some? then Some(Secs(secs.value))
    else if mins.Some? then Some(Mins(mins.value))
    else None
  }

  /** Reads a text with two components: hours and minutes, or days and hours. */
  function ReadPair(left: string, right: string): Option<Shown> {
    var hours, mins := ReadAmount(left, "시간"), ReadAmount(right, "분");
    var days, dayHours := ReadAmount(left, "일"), ReadAmount(right, "시간");
    if hours.Some? && mins.Some? then Some(HoursMins(hours.value, mins.value))
    else if days.Some? && dayHours.Some? then Some(DaysHours(days.value, dayHours.value))
    else None
  }

  lemma SpaceAtNumber(a: string, rest: string)
    requires forall i :: 0 <= i < |a| ==> IsDigit(a[i]) || a[i] == '-'
    ensures SpaceAt(a + rest) == |a| + SpaceAt(rest)
  {
    if a != [] {
      assert (a + rest)[0] == a[0] != ' ';
      assert (a + rest)[1..] == a[1..] + rest;
      assert forall i :: 0 <= i < |a| - 1 ==> a[1..][i] == a[i + 1];
      SpaceAtNumber(a[1..], rest);
    } else {
      assert a + rest == rest;
    }
  }

  lemma ReadAmountOf(n: int, unit: string)
    ensures ReadAmount(IntToString(n) + unit, unit) == Some(n)
  {
    var s := IntToString(n) + unit;
    assert s[|s| - |unit|..] == unit;
    assert s[..|s| - |unit|] == IntToString(n);
    ParseIntOfIntToString(n);
  }

  lemma NoReadAmount(n: int, unit: string, other: string)
    requires |unit| == 1 && |other| >= 1 && unit[0] != other[|other| - 1]
    ensures ReadAmount(IntToString(n) + other, unit) == None
  {
    var s := IntToString(n) + other;
    assert s[|s| - 1] == other[|other| - 1];
    assert s[|s| - 1..][0] == s[|s| - 1];
  }

  lemma ReadSecs(v: int)
    ensures ReadShown(Render(Secs(v))) == Some(Secs(v))
  {
    SpaceAtNumber(IntToString(v), "초");
    ReadAmountOf(v, "초");
  }

  lemma ReadMins(v: int)
    ensures ReadShown(Render(Mins(v))) == Some(Mins(v))
  {
    SpaceAtNumber(IntToString(v), "분");
    NoReadAmount(v, "초", "분");
    ReadAmountOf(v, "분");
  }

  lemma ReadHoursMins(h: int, m: int)
    ensures ReadShown(Render(HoursMins(h, m))) == Some(HoursMins(h, m))
  {
    var a := IntToString(h);
    var w := a + "시간";
    var b := IntToString(m) + "분";
    var s := w + (" " + b);
    assert Render(HoursMins(h, m)) == s;
    NumberThenUnit(a, "시간");
    SpaceAtWord(w, " " + b);
    assert s[..|w|] == w;
    assert s[|w| + 1..] == b;
    ReadAmountOf(h, "시간");
    ReadAmountOf(m, "분");
  }

  lemma ReadDaysHours(d: int, h: int)
    ensures ReadShown(Render(DaysHours(d, h))) == Some(DaysHours(d, h))
  {
    var a := IntToString(d);
    var w := a + "일";
    var b := IntToString(h) + "시간";
    var s := w + (" " + b);
    assert Render(DaysHours(d, h)) == s;
    NumberThenUnit(a, "일");
    SpaceAtWord(w, " " + b);
    assert s[..|w|] == w;
    assert s[|w| + 1..] == b;
    ReadAmountOf(d, "일");
    ReadAmountOf(h, "시간");
    NoHoursSuffix(d);
  }

  /** A number followed by a unit word holds no space. */
  lemma NumberThenUnit(a: string, unit: string)
    requires forall i :: 0 <= i < |a| ==> IsDigit(a[i]) || a[i] == '-'
    requires ' ' !in unit
    ensures forall i :: 0 <= i < |a + unit| ==> (a + unit)[i] != ' '
  {
    forall i | 0 <= i < |a + unit|
      ensures (a + unit)[i] != ' '
    {
      if i >= |a| {
        assert (a + unit)[i] == unit[i - |a|];
      }
    }
  }

  /** The first space after a word without spaces is the one that follows it. */
  lemma {:induction false} SpaceAtWord(w: string, rest: string)
    requires forall i :: 0 <= i < |w| ==> w[i] != ' '
    requires rest != [] && rest[0] == ' '
    ensures SpaceAt(w + rest) == |w|
  {
    if w == [] {
      assert w + rest == rest;
    } else {
      assert (w + rest)[0] == w[0];
      assert (w + rest)[1..] == w[1..] + rest;
      SpaceAtWord(w[1..], rest);
    }
  }

  /** A number followed by 일 does not end in 시간. */
  lemma NoHoursSuffix(d: int)
    ensures ReadAmount(IntToString(d) + "일", "시간") == None
  {
    var s := IntToString(d) + "일";
    if 2 <= |s| {
      assert s[|s| - 2..][1] == '일' != "시간"[1];
    }
  }

  /** The rendering loses nothing beyond the truncation `Classify` does:
      reading the text back gives the shown components. */
  lemma ReadRender(r: Shown)
    ensures ReadShown(Render(r)) == Some(r)
  {
    match r
    case Secs(v) => ReadSecs(v);
    case Mins(v) => ReadMins(v);
    case HoursMins(h, m) => ReadHoursMins(h, m);
    case DaysHours(d, h) => ReadDaysHours(d, h);
  }

  /** Korean unit words are not understood by the parser: every token of a
      formatted duration lacks d, h, m and s, so parsing it gives 0. */
  lemma ParseOfFormatIsZero(n: int)
    ensures Seconds(Some(FormatSeconds(n))) == 0
  {
  }

  /** The Korean unit words hold none of d, h, m, s, and neither do numbers. */
  lemma RenderHasNoUnitLetter(r: Shown)
    ensures NoUnitLetter(Render(r))
  {
    match r {
      case Secs(v) => NumberHasNoUnitLetter(v);
      case Mins(v) => NumberHasNoUnitLetter(v);
      case HoursMins(h, m) => NumberHasNoUnitLetter(h); NumberHasNoUnitLetter(m);
      case DaysHours(d, h) => NumberHasNoUnitLetter(d); NumberHasNoUnitLetter(h);
    }
  }

  /** No unit letter occurs in `s`. */
  predicate NoUnitLetter(s: string) {
    'd' !in s && 'h' !in s && 'm' !in s && 's' !in s
  }

  lemma NumberHasNoUnitLetter(v: int)
    ensures NoUnitLetter(IntToString(v))
  {
    var r := IntToString(v);
    assert forall i :: 0 <= i < |r| ==> IsDigit(r[i]) || r[i] == '-';
  }

  /** The tokens of a string without any of the letters d, h, m, s add up
      to 0. */
  lemma NoUnitLetterTokens(s: string)
    ensures NoUnitLetter(s) ==> TokensSeconds(Split(s)) == Some(0)
  {
    if NoUnitLetter(s) {
      SplitChars(s, 'd');
      SplitChars(s, 'h');
      SplitChars(s, 'm');
      SplitChars(s, 's');
      NoUnitLettersParsesToZero(Split(s));
    }
  }

  lemma {:induction false} NoUnitLettersParsesToZero(ts: seq<string>)
    requires forall i :: 0 <= i < |ts| ==> 'd' !in ts[i] && 'h' !in ts[i] && 'm' !in ts[i] && 's' !in ts[i]
    ensures TokensSeconds(ts) == Some(0)
  {
    if ts != [] {
      NoUnitLettersParsesToZero(ts[..|ts| - 1]);
    }
  }

  // ---------------------------------------------------------------------
  // Averaging
  // ---------------------------------------------------------------------

  /** Whether `calculate_average_duration` counts an entry: present, not
      the empty string, and parsing to a positive number of seconds. */
  predicate Counts(d: Option<string>) {
    d.Some? && d.value != "" && Seconds(d) > 0
  }

  /** The parsed values of the counted entries, in column order. */
  function Counted(ds: seq<Option<string>>): (c: seq<int>)
    ensures |c| <= |ds|
    ensures forall i :: 0 <= i < |c| ==> c[i] > 0
  {
    if ds == [] then []
    else
      var last := ds[|ds| - 1];
      Counted(ds[..|ds| - 1]) + (if Counts(last) then [Seconds(last)] else [])
  }

  function Sum(xs: seq<int>): int {
    if xs == [] then 0 else Sum(xs[..|xs| - 1]) + xs[|xs| - 1]
  }

  function MinOf(xs: seq<int>): (m: int)
    requires xs != []
    ensures m in xs
    ensures forall i :: 0 <= i < |xs| ==> m <= xs[i]
  {
    if |xs| == 1 then xs[0]
    else
      var p := MinOf(xs[..|xs| - 1]);
      var m := if p <= xs[|xs| - 1] then p else xs[|xs| - 1];
      assert forall i :: 0 <= i < |xs| - 1 ==> xs[i] == xs[..|xs| - 1][i];
      m
  }

  function MaxOf(xs: seq<int>): (m: int)
    requires xs != []
    ensures m in xs
    ensures forall i :: 0 <= i < |xs| ==> xs[i] <= m
  {
    if |xs| == 1 then xs[0]
    else
      var p := MaxOf(xs[..|xs| - 1]);
      var m := if p >= xs[|xs| - 1] then p else xs[|xs| - 1];
      assert forall i :: 0 <= i < |xs| - 1 ==> xs[i] == xs[..|xs| - 1][i];
      m
  }

  /** `total / count` as the source computes it before formatting; the
      formatter truncates every component, so the floor of the float
      quotient gives the same text. */
  function Mean(xs: seq<int>): (m: int)
    requires xs != []
    ensures m * |xs| <= Sum(xs) < (m + 1) * |xs|
  {
    Sum(xs) / |xs|
  }

  /** `calculate_average_duration`: "N/A" when no entry counts, otherwise
      the average of the counted entries, formatted. */
  method CalculateAverageDuration(ds: seq<Option<string>>) returns (r: string)
    ensures Counted(ds) == [] ==> r == "N/A"
    ensures Counted(ds) != [] ==> r == FormatSeconds(Mean(Counted(ds)))
  {
    var totalSeconds := 0;
    var count := 0;
    for i := 0 to |ds|
      invariant Sum(Counted(ds[..i])) == totalSeconds
      invariant |Counted(ds[..i])| == count
    {
      var duration := ds[i];
      CountedPrefixStep(ds, i);
      if duration.Some? && duration.value != "" {
        var seconds := ParseDurationToSeconds(duration);
        if seconds > 0 {
          SumAppend(Counted(ds[..i]), seconds);
          totalSeconds := totalSeconds + seconds;
          count := count + 1;
        }
      }
    }
    assert ds[..|ds|] == ds;
    if count > 0 {
      return FormatSeconds(totalSeconds / count);
    }
    return "N/A";
  }

  lemma CountedPrefixStep(ds: seq<Option<string>>, i: nat)
    requires i < |ds|
    ensures Counts(ds[i]) ==> Counted(ds[..i + 1]) == Counted(ds[..i]) + [Seconds(ds[i])]
    ensures !Counts(ds[i]) ==> Counted(ds[..i + 1]) == Counted(ds[..i])
  {
    assert ds[..i + 1][..i] == ds[..i];
    assert Counted(ds[..i]) + [] == Counted(ds[..i]);
  }

  lemma SumAppend(c: seq<int>, x: int)
    ensures Sum(c + [x]) == Sum(c) + x
  {
    assert (c + [x])[..|c|] == c;
  }

  lemma {:induction false} SumBounds(xs: seq<int>)
    requires xs != []
    ensures |xs| * MinOf(xs) <= Sum(xs) <= |xs| * MaxOf(xs)
  {
    if |xs| > 1 {
      var p, x := xs[..|xs| - 1], xs[|xs| - 1];
      var lo, hi := MinOf(xs), MaxOf(xs);
      SumBounds(p);
      assert MinOf(p) >= lo && MaxOf(p) <= hi;
      MulMonotone(|p|, MaxOf(p), hi);
      MulMonotone(|p|, lo, MinOf(p));
      MulSucc(|p|, hi);
      MulSucc(|p|, lo);
    }
  }

  lemma MulMonotone(k: nat, a: int, b: int)
    requires a <= b
    ensures k * a <= k * b
  {
  }

  lemma MulSucc(k: nat, a: int)
    ensures (k + 1) * a == k * a + a
  {
  }

  /** The average lies between the smallest and the largest counted
      duration, so it is at least one second. */
  lemma MeanWithinRange(xs: seq<int>)
    requires xs != []
    ensures MinOf(xs) <= Mean(xs) <= MaxOf(xs)
  {
    SumBounds(xs);
    var k := |xs|;
    DivBounds(Sum(xs), k, MinOf(xs), MaxOf(xs));
  }

  lemma DivBounds(s: int, k: int, lo: int, hi: int)
    requires k > 0 && k * lo <= s <= k * hi
    ensures lo <= s / k <= hi
  {
    var q := s / k;
    assert k * q <= s < k * q + k;
    MulLe(k, q + 1, lo);
    MulLe(k, hi + 1, q);
    MulAddOne(k, q);
    MulAddOne(k, hi);
  }

  lemma MulLe(k: nat, a: int, b: int)
    ensures a <= b ==> k * a <= k * b
  {
  }

  lemma MulAddOne(k: nat, a: int)
    ensures k * (a + 1) == k * a + k
  {
  }

  /** A worked example in the forms the comment at app.py:102 names: "1h",
      "30m", "" and "2h 15m" average (3600 + 1800 + 8100) / 3 = 4500
      seconds, shown as 1 hour 15 minutes; the empty entry counts in neither
      the sum nor the divisor. */
  lemma AverageExample()
    ensures Counted([Some("1h"), Some("30m"), Some(""), Some("2h 15m")]) == [3600, 1800, 8100]
    ensures FormatSeconds(Mean([3600, 1800, 8100])) == "1시간 15분"
  {
    ExampleAverageEntries();
    CountedOfFour(Some("1h"), Some("30m"), Some(""), Some("2h 15m"));
    MeanExample();
  }

  /** Four entries of which the third is empty count the other three. */
  lemma CountedOfFour(d1: Option<string>, d2: Option<string>, d3: Option<string>, d4: Option<string>)
    requires Counts(d1) && Counts(d2) && d3 == Some("") && Counts(d4)
    ensures Counted([d1, d2, d3, d4]) == [Seconds(d1), Seconds(d2), Seconds(d4)]
  {
    assert [d1][..0] == [];
    assert Counted([d1]) == [Seconds(d1)];
    assert [d1, d2][..1] == [d1];
    assert Counted([d1, d2]) == [Seconds(d1), Seconds(d2)];
    assert [d1, d2, d3][..2] == [d1, d2];
    assert Counted([d1, d2, d3]) == [Seconds(d1), Seconds(d2)];
    assert [d1, d2, d3, d4][..3] == [d1, d2, d3];
  }

  lemma ExampleAverageEntries()
    ensures Seconds(Some("1h")) == 3600
    ensures Seconds(Some("30m")) == 1800
    ensures Seconds(Some("2h 15m")) == 8100
    ensures Seconds(Some("")) == 0
  {
    ExampleOneHour();
    ExampleHalfHour();
    ExampleTwoHoursQuarter();
  }

  lemma ExampleOneHour()
    ensures Seconds(Some("1h")) == 3600
  {
    assert ShowTerm(Term(1, Hour)) == "1h";
    OneTerm(Term(1, Hour));
  }

  lemma ExampleHalfHour()
    ensures Seconds(Some("30m")) == 1800
  {
    assert ShowTerm(Term(30, Minute)) == "30m";
    OneTerm(Term(30, Minute));
  }

  lemma ExampleTwoHoursQuarter()
    ensures Seconds(Some("2h 15m")) == 8100
  {
    var c, d := Term(2, Hour), Term(15, Minute);
    assert ShowTerm(c) + " " + ShowTerm(d) == "2h 15m";
    TwoTerms(c, d);
  }

  lemma MeanExample()
    ensures FormatSeconds(Mean([3600, 1800, 8100])) == "1시간 15분"
  {
    var xs := [3600, 1800, 8100];
    assert xs[..2] == [3600, 1800];
    SumTwo(3600, 1800);
    assert Mean(xs) == 4500;
    assert Classify(4500) == HoursMins(1, 15);
    assert IntToString(1) == "1";
    assert IntToString(15) == "15";
  }

  // ---------------------------------------------------------------------
  // The duration block of `generate_report`
  // ---------------------------------------------------------------------

  /** The column `df['Duration'].apply(parse_duration_to_seconds)` with its
      non-positive values dropped. */
  function PositiveSeconds(ds: seq<Option<string>>): seq<int> {
    if ds == [] then []
    else
      var last := ds[|ds| - 1];
      PositiveSeconds(ds[..|ds| - 1]) + (if Seconds(last) > 0 then [Seconds(last)] else [])
  }

  /** The report's average and maximum duration, "N/A" when no row has a
      positive duration. The average is the text `calculate_average_duration`
      gives for the same column. */
  function ReportDurations(ds: seq<Option<string>>): (r: (string, string))
    ensures r.0 == (if Counted(ds) == [] then "N/A" else FormatSeconds(Mean(Counted(ds))))
    ensures r.1 == (if Counted(ds) == [] then "N/A" else FormatSeconds(MaxOf(Counted(ds))))
  {
    ReportFilterAgrees(ds);
    var xs := PositiveSeconds(ds);
    if xs == [] then ("N/A", "N/A") else (FormatSeconds(Mean(xs)), FormatSeconds(MaxOf(xs)))
  }

  /** The report's filter (positive seconds only) keeps exactly the entries
      `calculate_average_duration` counts: a missing value and the empty
      string both parse to 0. */
  lemma {:induction false} ReportFilterAgrees(ds: seq<Option<string>>)
    ensures PositiveSeconds(ds) == Counted(ds)
  {
    if ds != [] {
      ReportFilterAgrees(ds[..|ds| - 1]);
      assert Split("") == [];
    }
  }
}
