/** The pieces of Python's string machinery that the dashboard relies on:
    `str.split()` with no argument, `int(str)`, `str.lower()`, `str(int)`
    and the format specifications `{:,}`, `{:2d}` and `{:02d}`. */
module Text {

  import opened Wrappers

  // ---------------------------------------------------------------------
  // Whitespace and `str.split()`
  // ---------------------------------------------------------------------

  /** The characters for which Python's `str.isspace()` holds; `str.split()`
      and `str.strip()` with no argument use exactly this set. */
  predicate IsSpace(c: char) {
    var n := c as int;
    (9 <= n <= 13) || (28 <= n <= 32) || n == 0x85 || n == 0xA0 || n == 0x1680
    || (0x2000 <= n <= 0x200A) || n == 0x2028 || n == 0x2029 || n == 0x202F
    || n == 0x205F || n == 0x3000
  }

  /** No character of `s` is whitespace. */
  predicate NoSpace(s: string) {
    forall i :: 0 <= i < |s| ==> !IsSpace(s[i])
  }

  /** Length of the maximal run of non-whitespace characters that starts `s`. */
  function WordLength(s: string): (k: nat)
    ensures k <= |s|
    ensures NoSpace(s[..k])
    ensures k < |s| ==> IsSpace(s[k])
  {
    if s == [] || IsSpace(s[0]) then 0
    else
      var k := 1 + WordLength(s[1..]);
      assert s[..k] == [s[0]] + s[1..][..k - 1];
      k
  }

  /** Python's `s.split()`: the maximal runs of non-whitespace characters,
      in order. Leading and trailing whitespace produce no token, so the
      `strip()` the source applies first changes nothing. */
  function Split(s: string): (r: seq<string>)
    ensures forall i :: 0 <= i < |r| ==> r[i] != [] && NoSpace(r[i])
    decreases |s|
  {
    if s == [] then []
    else if IsSpace(s[0]) then Split(s[1..])
    else
      var k := WordLength(s);
      [s[..k]] + Split(s[k..])
  }

  /** Every character of a token is a character of the string split. */
  lemma {:induction false} SplitChars(s: string, c: char)
    requires c !in s
    ensures forall i :: 0 <= i < |Split(s)| ==> c !in Split(s)[i]
    decreases |s|
  {
    if s != [] {
      if IsSpace(s[0]) {
        SplitChars(s[1..], c);
      } else {
        var k := WordLength(s);
        assert c !in s[..k] && c !in s[k..] by {
          assert forall j :: 0 <= j < k ==> s[..k][j] == s[j];
          assert forall j :: 0 <= j < |s| - k ==> s[k..][j] == s[k + j];
        }
        SplitChars(s[k..], c);
      }
    }
  }

  /** `ws` joined with single spaces, as `" ".join(ws)` would. */
  function JoinSpaced(ws: seq<string>): string {
    if ws == [] then []
    else if |ws| == 1 then ws[0]
    else ws[0] + " " + JoinSpaced(ws[1..])
  }

  lemma WordLengthOfWordThenSpace(w: string, rest: string)
    requires w != [] && NoSpace(w)
    ensures WordLength(w + " " + rest) == |w|
  {
    var s := w + " " + rest;
    if |w| > 1 {
      assert s[1..] == w[1..] + " " + rest;
      WordLengthOfWordThenSpace(w[1..], rest);
    } else {
      assert s[1..] == " " + rest;
    }
  }

  lemma WordLengthOfWord(w: string)
    requires NoSpace(w)
    ensures WordLength(w) == |w|
  {
    if w != [] {
      assert NoSpace(w[1..]);
      WordLengthOfWord(w[1..]);
    }
  }

  /** Splitting words that were joined with single spaces gives the words
      back: `" ".join(ws).split() == ws` when no word is empty or holds
      whitespace. */
  lemma {:induction false} SplitJoinSpaced(ws: seq<string>)
    requires forall i :: 0 <= i < |ws| ==> ws[i] != [] && NoSpace(ws[i])
    ensures Split(JoinSpaced(ws)) == ws
  {
    if ws == [] {
    } else if |ws| == 1 {
      var w := ws[0];
      WordLengthOfWord(w);
      assert w[..|w|] == w;
      assert w[|w|..] == [];
    } else {
      var w := ws[0];
      var rest := JoinSpaced(ws[1..]);
      var s := w + " " + rest;
      WordLengthOfWordThenSpace(w, rest);
      assert s[..|w|] == w;
      assert s[|w|..] == " " + rest;
      assert Split(s[|w|..]) == Split(rest) by {
        assert (" " + rest)[1..] == rest;
      }
      SplitJoinSpaced(ws[1..]);
    }
  }

  // ---------------------------------------------------------------------
  // Decimal rendering: `str(n)` and `f"{n}"`
  // ---------------------------------------------------------------------

  predicate IsDigit(c: char) {
    '0' <= c <= '9'
  }

  function DigitChar(d: nat): (c: char)
    requires d < 10
    ensures IsDigit(c) && DigitValue(c) == d
  {
    (('0' as int) + d) as char
  }

  function DigitValue(c: char): nat
    requires IsDigit(c)
  {
    (c as int) - ('0' as int)
  }

  /** Decimal digits of `n` without leading zeros. */
  function NatToString(n: nat): (r: string)
    ensures r != []
    ensures forall i :: 0 <= i < |r| ==> IsDigit(r[i])
  {
    if n < 10 then [DigitChar(n)] else NatToString(n / 10) + [DigitChar(n % 10)]
  }

  /** Python's `str(n)` for an integer: a minus sign, then the digits. */
  function IntToString(n: int): (r: string)
    ensures r != []
    ensures forall i :: 0 <= i < |r| ==> IsDigit(r[i]) || r[i] == '-'
  {
    if n < 0 then "-" + NatToString(-n) else NatToString(n)
  }

  // ---------------------------------------------------------------------
  // `str.replace(c, '')`
  // ---------------------------------------------------------------------

  /** `s.replace(c, '')`: every occurrence of `c` removed. */
  function Without(s: string, c: char): (r: string)
    ensures c !in r
    ensures |r| <= |s|
  {
    if s == [] then []
    else (if s[0] == c then [] else [s[0]]) + Without(s[1..], c)
  }

  lemma WithoutAbsent(s: string, c: char)
    requires c !in s
    ensures Without(s, c) == s
  {
    if s != [] {
      assert s == [s[0]] + s[1..];
      WithoutAbsent(s[1..], c);
    }
  }

  lemma {:induction false} WithoutAppend(a: string, b: string, c: char)
    ensures Without(a + b, c) == Without(a, c) + Without(b, c)
  {
    if a == [] {
      assert a + b == b;
    } else {
      var h := if a[0] == c then [] else [a[0]];
      assert (a + b)[0] == a[0];
      assert (a + b)[1..] == a[1..] + b;
      WithoutAppend(a[1..], b, c);
      assert Without(a + b, c) == h + (Without(a[1..], c) + Without(b, c));
      assert Without(a, c) == h + Without(a[1..], c);
    }
  }

  // ---------------------------------------------------------------------
  // Python's `int(str)` for base 10
  // ---------------------------------------------------------------------

  /** The digit body `int()` accepts: ASCII digits, with single underscores
      allowed between two digits (`"1_000"`). */
  predicate DigitBody(s: string) {
    && s != []
    && IsDigit(s[0]) && IsDigit(s[|s| - 1])
    && (forall i :: 0 <= i < |s| ==> IsDigit(s[i]) || s[i] == '_')
    && (forall i :: 0 <= i < |s| - 1 && s[i] == '_' ==> s[i + 1] != '_')
  }

  /** The value of a run of digits and underscores, underscores skipped. */
  function DigitsValue(s: string): nat
    requires forall i :: 0 <= i < |s| ==> IsDigit(s[i]) || s[i] == '_'
  {
    if s == [] then 0
    else
      var last := s[|s| - 1];
      var v := DigitsValue(s[..|s| - 1]);
      if last == '_' then v else v * 10 + DigitValue(last)
  }

  /** Python's `int(s)` on a string without surrounding whitespace: an
      optional sign, then a body of ASCII digits. `None` is the `ValueError`
      Python raises for the empty string, a lone sign, letters and
      punctuation. Decimal digits of other scripts, which Python also
      accepts, are outside this model and give `None` here. */
  function ParseInt(s: string): (r: Option<int>)
    ensures r.Some? ==> s != [] && IsDigit(s[|s| - 1])
    ensures r.Some? && r.value < 0 ==> s[0] == '-'
    ensures (exists i :: 0 <= i < |s| && !IsDigit(s[i]) && s[i] != '_' && s[i] != '+' && s[i] != '-') ==> r.None?
    ensures (exists i :: 1 <= i < |s| && (s[i] == '+' || s[i] == '-')) ==> r.None?
  {
    if s != [] && (s[0] == '+' || s[0] == '-') then
      var body := s[1..];
      if DigitBody(body) then
        Some(if s[0] == '-' then -(DigitsValue(body) as int) else DigitsValue(body))
      else None
    else if DigitBody(s) then Some(DigitsValue(s))
    else None
  }

  lemma {:induction false} DigitsValueOfNatToString(n: nat)
    ensures DigitsValue(NatToString(n)) == n
  {
    if n >= 10 {
      var r := NatToString(n);
      assert r[..|r| - 1] == NatToString(n / 10);
      DigitsValueOfNatToString(n / 10);
    }
  }

  /** `int(str(n)) == n`. */
  lemma ParseIntOfIntToString(n: int)
    ensures ParseInt(IntToString(n)) == Some(n)
  {
    var t := NatToString(if n < 0 then -n else n);
    NatStringIsBody(t);
    DigitsValueOfNatToString(if n < 0 then -n else n);
    if n < 0 {
      var r := IntToString(n);
      assert r == "-" + t;
      assert r[0] == '-' && r[1..] == t;
    } else {
      assert IntToString(n) == t && IsDigit(t[0]);
    }
  }

  lemma NatStringIsBody(t: string)
    requires t != [] && forall i :: 0 <= i < |t| ==> IsDigit(t[i])
    ensures DigitBody(t)
  {
  }

  // ---------------------------------------------------------------------
  // Format specifications
  // ---------------------------------------------------------------------

  /** `s` right-aligned in a field of `width`, padded on the left with `fill`. */
  function PadLeft(s: string, width: nat, fill: char): (r: string)
    ensures |r| == if |s| >= width then |s| else width
    ensures r[|r| - |s|..] == s
    ensures forall i :: 0 <= i < |r| - |s| ==> r[i] == fill
  {
    if |s| >= width then s else seq(width - |s|, _ => fill) + s
  }

  /** `f"{n:2d}"` for a non-negative `n`: two characters below 100, the
      digits right-aligned. */
  function Width2(n: nat): (r: string)
    ensures n < 100 ==> |r| == 2
    ensures forall i :: 0 <= i < |r| ==> IsDigit(r[i]) || r[i] == ' '
    ensures |r| >= |NatToString(n)| && r[|r| - |NatToString(n)|..] == NatToString(n)
  {
    DigitCount(n);
    PadLeft(NatToString(n), 2, ' ')
  }

  /** `f"{n:02d}"` for a non-negative `n`: two digits below 100, and
      `int()` reads back `n`. */
  function ZeroPad2(n: nat): (r: string)
    ensures n < 100 ==> |r| == 2
    ensures forall i :: 0 <= i < |r| ==> IsDigit(r[i])
    ensures ParseInt(r) == Some(n)
  {
    DigitCount(n);
    ParseIntOfZeroPadded(n);
    PadLeft(NatToString(n), 2, '0')
  }

  lemma DigitCount(n: nat)
    ensures n < 10 ==> |NatToString(n)| == 1
    ensures 10 <= n < 100 ==> |NatToString(n)| == 2
    ensures 10 <= n ==> |NatToString(n)| >= 2
    ensures n < 1000 ==> |NatToString(n)| <= 3
  {
    if 100 <= n < 1000 {
      assert |NatToString(n / 10)| == 2;
    }
  }

  lemma ParseIntOfZeroPadded(n: nat)
    ensures ParseInt(PadLeft(NatToString(n), 2, '0')) == Some(n)
  {
    if n < 10 {
      var z := PadLeft(NatToString(n), 2, '0');
      assert z == ['0', DigitChar(n)];
      assert z[..1] == ['0'] && z[..1][..0] == [];
      assert DigitsValue(z[..1]) == 0;
      assert DigitsValue(z) == n;
      assert DigitBody(z);
    } else {
      ParseIntOfIntToString(n);
      assert PadLeft(NatToString(n), 2, '0') == IntToString(n);
    }
  }

  /** The shape of `{:,}` text: a first group of one to three digits,
      then groups of a comma and three digits. */
  predicate ThousandsShape(r: string)
    decreases |r|
  {
    if |r| <= 3 then r != [] && forall i :: 0 <= i < |r| ==> IsDigit(r[i])
    else
      && r[|r| - 4] == ','
      && IsDigit(r[|r| - 3]) && IsDigit(r[|r| - 2]) && IsDigit(r[|r| - 1])
      && ThousandsShape(r[..|r| - 4])
  }

  /** `f"{n:,}"` for a non-negative `n`: digits in groups of three,
      separated by commas. */
  function Grouped(n: nat): (r: string)
    ensures r != []
    ensures forall i :: 0 <= i < |r| ==> IsDigit(r[i]) || r[i] == ','
    ensures ThousandsShape(r)
  {
    if n < 1000 then
      DigitCount(n);
      NatToString(n)
    else
      var g, p := Grouped(n / 1000), PadLeft(NatToString(n % 1000), 3, '0');
      ThreeDigits(n % 1000);
      ShapeJoin(g, p);
      g + "," + p
  }

  /** A comma and a group of three digits after `{:,}` text keep its
      shape, and its characters stay digits and commas. */
  lemma ShapeJoin(g: string, p: string)
    requires ThousandsShape(g)
    requires forall i :: 0 <= i < |g| ==> IsDigit(g[i]) || g[i] == ','
    requires |p| == 3 && IsDigit(p[0]) && IsDigit(p[1]) && IsDigit(p[2])
    ensures var r := g + "," + p;
            && ThousandsShape(r)
            && forall i :: 0 <= i < |r| ==> IsDigit(r[i]) || r[i] == ','
  {
    var r := g + "," + p;
    assert r[..|r| - 4] == g;
    forall i | 0 <= i < |r|
      ensures IsDigit(r[i]) || r[i] == ','
    {
      if i < |g| {
        assert r[i] == g[i];
      }
    }
  }

  /** Removing the commas from `Grouped(n)` gives the plain digits of `n`:
      the grouping adds separators and nothing else, and `int()` reads `n`
      back from what remains. */
  lemma {:induction false} GroupedUngrouped(n: nat)
    ensures Without(Grouped(n), ',') == NatToString(n)
    ensures ParseInt(Without(Grouped(n), ',')) == Some(n)
  {
    ParseIntOfIntToString(n);
    assert IntToString(n) == NatToString(n);
    if n < 1000 {
      WithoutAbsent(NatToString(n), ',');
    } else {
      var g, p := Grouped(n / 1000), PadLeft(NatToString(n % 1000), 3, '0');
      GroupedUngrouped(n / 1000);
      PaddedDigits(n % 1000);
      WithoutCommaJoin(g, p);
      NatToStringThousands(n);
    }
  }

  lemma WithoutCommaJoin(g: string, p: string)
    requires ',' !in p
    ensures Without(g + "," + p, ',') == Without(g, ',') + p
  {
    var comma: string := [','];
    assert comma[0] == ',' && comma[1..] == [];
    assert Without(comma, ',') == [];
    WithoutAbsent(p, ',');
    WithoutAppend(g + comma, p, ',');
    WithoutAppend(g, comma, ',');
  }

  /** The last three digits of `n >= 1000`, zero-padded, follow the digits of
      `n / 1000`. */
  lemma NatToStringThousands(n: nat)
    requires n >= 1000
    ensures NatToString(n) == NatToString(n / 1000) + PadLeft(NatToString(n % 1000), 3, '0')
  {
    var q, r := n / 1000, n % 1000;
    var r1 := r / 10;
    var a, b, c := r1 / 10, r1 % 10, r % 10;
    var m1, m2 := 100 * q + r1, 10 * q + a;
    DivTen(n, m1, c);
    DivTen(m1, m2, b);
    DivTen(m2, q, a);
    assert NatToString(n) == NatToString(m1) + [DigitChar(c)];
    assert NatToString(m1) == NatToString(m2) + [DigitChar(b)];
    assert NatToString(m2) == NatToString(q) + [DigitChar(a)];
    ThreeDigits(r);
  }

  lemma DivTen(n: nat, q: nat, r: nat)
    requires r < 10 && n == 10 * q + r
    ensures n / 10 == q && n % 10 == r
  {
  }

  /** A number below 1000, zero-padded to three places. */
  lemma ThreeDigits(r: nat)
    requires r < 1000
    ensures PadLeft(NatToString(r), 3, '0') == [DigitChar(r / 10 / 10), DigitChar((r / 10) % 10), DigitChar(r % 10)]
  {
    if r < 10 {
      OneDigit(r);
    } else if r < 100 {
      TwoDigits(r);
    } else {
      HundredsDigits(r);
    }
  }

  lemma OneDigit(r: nat)
    requires r < 10
    ensures PadLeft(NatToString(r), 3, '0') == [DigitChar(0), DigitChar(0), DigitChar(r)]
  {
    assert NatToString(r) == [DigitChar(r)];
    assert seq(2, _ => '0') == ['0', '0'];
  }

  lemma TwoDigits(r: nat)
    requires 10 <= r < 100
    ensures PadLeft(NatToString(r), 3, '0') == [DigitChar(0), DigitChar(r / 10), DigitChar(r % 10)]
  {
    assert NatToString(r / 10) == [DigitChar(r / 10)];
    assert NatToString(r) == [DigitChar(r / 10), DigitChar(r % 10)];
    assert seq(1, _ => '0') == ['0'];
  }

  lemma HundredsDigits(r: nat)
    requires 100 <= r < 1000
    ensures PadLeft(NatToString(r), 3, '0') == [DigitChar(r / 10 / 10), DigitChar((r / 10) % 10), DigitChar(r % 10)]
  {
    var r1 := r / 10;
    assert 10 <= r1 < 100;
    assert NatToString(r1 / 10) == [DigitChar(r1 / 10)];
    assert NatToString(r1) == [DigitChar(r1 / 10), DigitChar(r1 % 10)];
    assert NatToString(r) == NatToString(r1) + [DigitChar(r % 10)];
  }

  /** A zero-padded number holds no comma. */
  lemma PaddedDigits(r: nat)
    ensures ',' !in PadLeft(NatToString(r), 3, '0')
  {
    var d := NatToString(r);
    var p := PadLeft(d, 3, '0');
    forall i | 0 <= i < |p|
      ensures p[i] != ','
    {
      if i >= |p| - |d| {
        assert p[i] == p[|p| - |d|..][i - (|p| - |d|)];
      }
    }
  }

  // ---------------------------------------------------------------------
  // Case folding
  // ---------------------------------------------------------------------

  function LowerChar(c: char): char {
    if 'A' <= c <= 'Z' then ((c as int) + 32) as char else c
  }

  /** `s.lower()` restricted to ASCII letters. */
  function Lower(s: string): (r: string)
    ensures |r| == |s|
    ensures forall i :: 0 <= i < |s| ==> r[i] == LowerChar(s[i])
    ensures forall i :: 0 <= i < |r| ==> !('A' <= r[i] <= 'Z')
  {
    seq(|s|, i requires 0 <= i < |s| => LowerChar(s[i]))
  }
}
