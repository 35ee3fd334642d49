/** Frequency rankings: `value_counts().head(n)` on a column, and
    `nlargest(n)` on an already counted series. Ties keep their earlier
    order: a value seen first is listed first among values of equal count. */
module Ranking {

  import opened Wrappers
  import opened Frames

  /** How often `x` occurs in `xs`. */
  function Occurrences<T(==,!new)>(xs: seq<T>, x: T): (n: nat)
    ensures n <= |xs|
    ensures n > 0 <==> x in xs
  {
    if xs == [] then 0
    else Occurrences(xs[..|xs| - 1], x) + (if xs[|xs| - 1] == x then 1 else 0)
  }

  /** The cells that are not NaN, in order (`dropna`). */
  function Present<T(==,!new)>(c: seq<Option<T>>): (r: seq<T>)
    ensures |r| <= |c|
    ensures forall x :: x in r <==> Some(x) in c
  {
    if c == [] then []
    else
      var r := Present(c[..|c| - 1]);
      assert forall x :: Some(x) in c <==> Some(x) in c[..|c| - 1] || c[|c| - 1] == Some(x) by {
        assert c == c[..|c| - 1] + [c[|c| - 1]];
      }
      if c[|c| - 1].Some? then r + [c[|c| - 1].value] else r
  }

  lemma {:induction false} OccurrencesAppend<T(!new)>(xs: seq<T>, ys: seq<T>, x: T)
    ensures Occurrences(xs + ys, x) == Occurrences(xs, x) + Occurrences(ys, x)
  {
    if ys != [] {
      assert (xs + ys)[..|xs + ys| - 1] == xs + ys[..|ys| - 1];
      OccurrencesAppend(xs, ys[..|ys| - 1], x);
    } else {
      assert xs + ys == xs;
    }
  }

  lemma PresentAppend<T(!new)>(c: seq<Option<T>>, cell: Option<T>)
    ensures Present(c + [cell]) == Present(c) + (if cell.Some? then [cell.value] else [])
  {
    assert (c + [cell])[..|c|] == c;
  }

  /** `dropna` keeps every occurrence of a value: `x` occurs in the present
      cells as often as the column holds `Some(x)`. */
  lemma {:induction false} PresentOccurrences<T(!new)>(c: seq<Option<T>>, x: T)
    ensures Occurrences(Present(c), x) == Count(c, cell => cell == Some(x))
  {
    if c != [] {
      var init, last := c[..|c| - 1], c[|c| - 1];
      PresentOccurrences(init, x);
      assert c == init + [last];
      PresentAppend(init, last);
      OccurrencesAppend(Present(init), if last.Some? then [last.value] else [], x);
      if last.Some? {
        assert Occurrences([last.value], x) == (if last.value == x then 1 else 0) by {
          assert [last.value][..0] == [];
        }
      }
    }
  }

  predicate NoDuplicates<T(==,!new)>(xs: seq<T>) {
    forall i, j :: 0 <= i < j < |xs| ==> xs[i] != xs[j]
  }

  /** The distinct values of `xs`, in order of first appearance. */
  function Distinct<T(==,!new)>(xs: seq<T>): (r: seq<T>)
    ensures forall x :: x in r <==> x in xs
    ensures NoDuplicates(r)
    ensures |r| <= |xs|
  {
    if xs == [] then []
    else
      var d := Distinct(xs[..|xs| - 1]);
      assert forall x :: x in xs <==> x in xs[..|xs| - 1] || x == xs[|xs| - 1] by {
        assert xs == xs[..|xs| - 1] + [xs[|xs| - 1]];
      }
      if xs[|xs| - 1] in d then d else d + [xs[|xs| - 1]]
  }

  /** `nunique()`: the number of distinct values that are not NaN. */
  function Unique<T(==,!new)>(c: seq<Option<T>>): (n: nat)
    ensures n == |set x | x in Present(c)|
    ensures n <= |c|
    ensures n > 0 <==> exists i :: 0 <= i < |c| && c[i].Some?
  {
    DistinctCardinality(Present(c));
    PresentNonEmpty(c);
    |Distinct(Present(c))|
  }

  lemma PresentNonEmpty<T(!new)>(c: seq<Option<T>>)
    ensures Distinct(Present(c)) != [] <==> exists i :: 0 <= i < |c| && c[i].Some?
  {
    var d := Distinct(Present(c));
    if exists i :: 0 <= i < |c| && c[i].Some? {
      var i :| 0 <= i < |c| && c[i].Some?;
      assert c[i].value in Present(c);
      assert c[i].value in d;
    }
    if d != [] {
      assert Some(d[0]) in c;
    }
  }

  /** A list without repeats of the values of `xs` is as long as the set
      of those values. */
  lemma {:induction false} DistinctCardinality<T(!new)>(xs: seq<T>)
    ensures |Distinct(xs)| == |set x | x in xs|
  {
    if xs != [] {
      var init, last := xs[..|xs| - 1], xs[|xs| - 1];
      DistinctCardinality(init);
      var values := set x | x in init;
      var all := set x | x in xs;
      assert all == values + {last} by {
        assert xs == init + [last];
      }
      if last in init {
        assert last in values;
        assert all == values;
        assert Distinct(xs) == Distinct(init);
      } else {
        assert last !in values;
        assert |all| == |values| + 1;
        assert Distinct(xs) == Distinct(init) + [last];
      }
    }
  }

  /** Each key with its number of occurrences in `xs`. */
  function WithCounts<T(==,!new)>(keys: seq<T>, xs: seq<T>): (r: seq<(T, nat)>)
    ensures |r| == |keys|
    ensures forall i :: 0 <= i < |r| ==> r[i] == (keys[i], Occurrences(xs, keys[i]))
  {
    if keys == [] then []
    else WithCounts(keys[..|keys| - 1], xs) + [(keys[|keys| - 1], Occurrences(xs, keys[|keys| - 1]))]
  }

  /** Every distinct value of `xs` with its count, in order of first
      appearance. */
  function Tally<T(==,!new)>(xs: seq<T>): seq<(T, nat)> {
    WithCounts(Distinct(xs), xs)
  }

  predicate NonIncreasing<T>(es: seq<(T, nat)>) {
    forall i, j :: 0 <= i < j < |es| ==> es[i].1 >= es[j].1
  }

  /** `e` placed into a non-increasing `s` after every entry whose count
      is at least its own. */
  function Insert<T(==,!new)>(s: seq<(T, nat)>, e: (T, nat)): (r: seq<(T, nat)>)
    ensures |r| == |s| + 1
    ensures multiset(r) == multiset(s) + multiset{e}
  {
    if s == [] || s[|s| - 1].1 >= e.1 then s + [e]
    else
      assert s == s[..|s| - 1] + [s[|s| - 1]];
      Insert(s[..|s| - 1], e) + [s[|s| - 1]]
  }

  lemma {:induction false} InsertKeepsOrder<T(!new)>(s: seq<(T, nat)>, e: (T, nat))
    requires NonIncreasing(s)
    ensures NonIncreasing(Insert(s, e))
  {
    if s != [] && s[|s| - 1].1 < e.1 {
      var last, init := s[|s| - 1], s[..|s| - 1];
      InsertKeepsOrder(init, e);
      var r := Insert(init, e);
      forall x | x in r
        ensures x.1 >= last.1
      {
        InsertMember(init, e, x);
      }
      AppendKeepsOrder(r, last);
    }
  }

  lemma InsertMember<T(!new)>(s: seq<(T, nat)>, e: (T, nat), x: (T, nat))
    requires x in Insert(s, e)
    ensures x in s || x == e
  {
    assert x in multiset(Insert(s, e));
  }

  lemma AppendKeepsOrder<T(!new)>(r: seq<(T, nat)>, x: (T, nat))
    requires NonIncreasing(r)
    requires forall y :: y in r ==> y.1 >= x.1
    ensures NonIncreasing(r + [x])
  {
    forall i, j | 0 <= i < j < |r| + 1
      ensures (r + [x])[i].1 >= (r + [x])[j].1
    {
      if j == |r| {
        assert r[i] in r;
      }
    }
  }

  /** A stable sort by count, largest first. */
  function SortDescending<T(==,!new)>(es: seq<(T, nat)>): (r: seq<(T, nat)>)
    ensures |r| == |es|
    ensures multiset(r) == multiset(es)
    ensures NonIncreasing(r)
  {
    if es == [] then []
    else
      assert es == es[..|es| - 1] + [es[|es| - 1]];
      InsertKeepsOrder(SortDescending(es[..|es| - 1]), es[|es| - 1]);
      Insert(SortDescending(es[..|es| - 1]), es[|es| - 1])
  }

  /** `s.head(n)`. */
  function Head<U>(s: seq<U>, n: nat): (r: seq<U>)
    ensures |r| == Min(n, |s|)
  {
    if n < |s| then s[..n] else s
  }

  /** `nlargest(n)` (keep='first') of a counted series: `min(n, |es|)`
      entries of `es`, largest first, and nothing left out that is larger
      than the last one listed. */
  function Largest<T(==,!new)>(es: seq<(T, nat)>, n: nat): (r: seq<(T, nat)>)
    ensures |r| == Min(n, |es|)
    ensures NonIncreasing(r)
    ensures multiset(r) <= multiset(es)
    ensures forall e :: e in es && e !in r ==> |r| == n && (n > 0 ==> e.1 <= r[n - 1].1)
  {
    HeadOfSorted(SortDescending(es), es, n);
    Head(SortDescending(es), n)
  }

  /** `value_counts().head(n)` of a column: at most `n` entries, as many as
      the column has distinct values if that is fewer; each key a value of
      the column, listed once, with its number of occurrences; counts
      non-increasing; and every value left out occurs no more often than
      the last one listed, which happens only when the listing is full. */
  function TopN<T(==,!new)>(c: seq<Option<T>>, n: nat): (r: seq<(T, nat)>)
    ensures |r| == Min(n, Unique(c))
    ensures forall i :: 0 <= i < |r| ==> Some(r[i].0) in c && r[i].1 == Occurrences(Present(c), r[i].0)
    ensures forall i :: 0 <= i < |r| ==> r[i].1 >= 1
    ensures NoDuplicates(Keys(r))
    ensures NonIncreasing(r)
    ensures forall x :: Some(x) in c && x !in Keys(r) ==>
              |r| == n && (n > 0 ==> Occurrences(Present(c), x) <= r[n - 1].1)
  {
    TopOfColumn(c, n);
    Largest(Tally(Present(c)), n)
  }

  lemma TopOfColumn<T(!new)>(c: seq<Option<T>>, n: nat)
    ensures var r := Largest(Tally(Present(c)), n);
            && |r| == Min(n, |Distinct(Present(c))|)
            && (forall i :: 0 <= i < |r| ==> Some(r[i].0) in c && r[i].1 == Occurrences(Present(c), r[i].0) && r[i].1 >= 1)
            && NoDuplicates(Keys(r))
            && NonIncreasing(r)
            && (forall x :: Some(x) in c && x !in Keys(r) ==>
                  |r| == n && (n > 0 ==> Occurrences(Present(c), x) <= r[n - 1].1))
  {
    var xs := Present(c);
    var r := Largest(Tally(xs), n);
    LargestOfTally(xs, n);
    forall i | 0 <= i < |r|
      ensures Some(r[i].0) in c && r[i].1 == Occurrences(xs, r[i].0) && r[i].1 >= 1
    {
      var e := r[i];
      assert e.0 in xs && e.1 == Occurrences(xs, e.0) && e.1 >= 1;
      PresentMember(c, e.0);
    }
    forall x | Some(x) in c && x !in Keys(r)
      ensures |r| == n && (n > 0 ==> Occurrences(xs, x) <= r[n - 1].1)
    {
      PresentMember(c, x);
    }
  }

  lemma PresentMember<T(!new)>(c: seq<Option<T>>, x: T)
    ensures x in Present(c) <==> Some(x) in c
  {
  }

  /** The position of the first largest count of a non-empty series. */
  function MaxIndex<T>(es: seq<(T, nat)>): (k: nat)
    requires es != []
    ensures k < |es|
    ensures forall j :: 0 <= j < |es| ==> es[j].1 <= es[k].1
    ensures forall j :: 0 <= j < k ==> es[j].1 < es[k].1
  {
    if |es| == 1 then 0
    else
      var k := MaxIndex(es[..|es| - 1]);
      assert forall j :: 0 <= j < |es| - 1 ==> es[..|es| - 1][j] == es[j];
      if es[|es| - 1].1 > es[k].1 then |es| - 1 else k
  }

  /** `idxmax()`: the key of the first largest count; pandas raises on an
      empty series. */
  function IdxMax<T>(es: seq<(T, nat)>): (r: Option<T>)
    ensures r.None? <==> es == []
    ensures r.Some? ==> exists k :: 0 <= k < |es| && es[k].0 == r.value
                          && (forall j :: 0 <= j < |es| ==> es[j].1 <= es[k].1)
                          && (forall j :: 0 <= j < k ==> es[j].1 < es[k].1)
  {
    if es == [] then None
    else
      var k := MaxIndex(es);
      Some(es[k].0)
  }

  function Keys<T>(es: seq<(T, nat)>): (r: seq<T>)
    ensures |r| == |es|
    ensures forall i :: 0 <= i < |es| ==> r[i] == es[i].0
  {
    seq(|es|, i requires 0 <= i < |es| => es[i].0)
  }

  // ---------------------------------------------------------------------
  // What a ranking promises
  // ---------------------------------------------------------------------

  /** The first `k` entries of a sorted copy of `es`: non-increasing,
      drawn from `es`, and nothing left out larger than the last of them. */
  lemma HeadOfSorted<T(!new)>(s: seq<(T, nat)>, es: seq<(T, nat)>, k: nat)
    requires NonIncreasing(s) && multiset(s) == multiset(es)
    ensures NonIncreasing(Head(s, k))
    ensures multiset(Head(s, k)) <= multiset(es)
    ensures forall e :: e in es && e !in Head(s, k) ==>
              |Head(s, k)| == k && (k > 0 ==> e.1 <= Head(s, k)[k - 1].1)
  {
    var r := Head(s, k);
    assert r == s[..|r|] by {
      assert s[..|s|] == s;
    }
    Prefix(s, |r|);
    forall e | e in es && e !in r
      ensures |r| == k && (k > 0 ==> e.1 <= r[k - 1].1)
    {
      assert e in multiset(es);
      assert e in multiset(s);
      LeftOut(s, |r|, e);
    }
  }

  lemma Prefix<T(!new)>(s: seq<(T, nat)>, k: nat)
    requires NonIncreasing(s) && k <= |s|
    ensures NonIncreasing(s[..k])
    ensures multiset(s[..k]) <= multiset(s)
  {
    assert s == s[..k] + s[k..];
  }

  /** An entry of a non-increasing list that is not among its first `k`
      sits after them. */
  lemma LeftOut<T(!new)>(s: seq<(T, nat)>, k: nat, e: (T, nat))
    requires NonIncreasing(s) && k <= |s|
    requires e in s && e !in s[..k]
    ensures k < |s| && (k > 0 ==> e.1 <= s[k - 1].1)
  {
    var j :| 0 <= j < |s| && s[j] == e;
    assert forall i :: 0 <= i < k ==> s[..k][i] == s[i];
    assert j >= k;
  }

  lemma SingleOccurrence<T(!new)>(s: seq<T>, x: T)
    requires NoDuplicates(s)
    ensures multiset(s)[x] <= 1
  {
    if s != [] {
      var init := s[..|s| - 1];
      assert s == init + [s[|s| - 1]];
      SingleOccurrence(init, x);
      if s[|s| - 1] == x {
        assert x !in init;
      }
    }
  }

  lemma RepeatedOccurrence<T(!new)>(s: seq<T>, i: nat, j: nat)
    requires i < j < |s| && s[i] == s[j]
    ensures multiset(s)[s[i]] >= 2
  {
    assert s == s[..j] + s[j..];
    assert s[i] in s[..j];
    assert s[j] in s[j..];
  }

  /** A sub-multiset of a list without repeats has no repeats. */
  lemma NoDuplicatesOfSub<T(!new)>(r: seq<T>, s: seq<T>)
    requires NoDuplicates(s) && multiset(r) <= multiset(s)
    ensures NoDuplicates(r)
  {
    forall i, j | 0 <= i < j < |r|
      ensures r[i] != r[j]
    {
      if r[i] == r[j] {
        RepeatedOccurrence(r, i, j);
        SingleOccurrence(s, r[i]);
        assert false;
      }
    }
  }

  /** The tally's entries are its distinct values with their counts; there
      is one entry for each value. */
  lemma TallyEntries<T(!new)>(xs: seq<T>)
    ensures |Tally(xs)| == |Distinct(xs)|
    ensures NoDuplicates(Tally(xs))
    ensures forall e :: e in Tally(xs) ==> e.0 in xs && e.1 == Occurrences(xs, e.0)
    ensures forall x :: x in xs ==> (x, Occurrences(xs, x)) in Tally(xs)
  {
    var d := Distinct(xs);
    var t := Tally(xs);
    forall x | x in xs
      ensures (x, Occurrences(xs, x)) in t
    {
      var k :| 0 <= k < |d| && d[k] == x;
      assert t[k] == (x, Occurrences(xs, x));
    }
  }

  lemma SubMembers<U>(r: seq<U>, s: seq<U>)
    requires multiset(r) <= multiset(s)
    ensures forall e :: e in r ==> e in s
  {
    forall e | e in r
      ensures e in s
    {
      assert e in multiset(r);
    }
  }

  /** The top `n` of a tally: `min(n, distinct values)` entries of the
      tally, with distinct keys, and nothing left out that occurs more
      often than the last entry. */
  lemma LargestOfTally<T(!new)>(xs: seq<T>, n: nat)
    ensures |Largest(Tally(xs), n)| == Min(n, |Distinct(xs)|)
    ensures forall i :: 0 <= i < |Largest(Tally(xs), n)| ==>
              var e := Largest(Tally(xs), n)[i]; e.0 in xs && e.1 == Occurrences(xs, e.0) && e.1 >= 1
    ensures NoDuplicates(Keys(Largest(Tally(xs), n)))
    ensures forall x :: x in xs && x !in Keys(Largest(Tally(xs), n)) ==>
              |Largest(Tally(xs), n)| == n && (n > 0 ==> Occurrences(xs, x) <= Largest(Tally(xs), n)[n - 1].1)
  {
    var t := Tally(xs);
    var top := Largest(t, n);
    TallyEntries(xs);
    SubMembers(top, t);
    forall i | 0 <= i < |top|
      ensures top[i].0 in xs && top[i].1 == Occurrences(xs, top[i].0) && top[i].1 >= 1
    {
      assert top[i] in top;
    }
    var ks := Keys(top);
    forall i, j | 0 <= i < j < |ks|
      ensures ks[i] != ks[j]
    {
      assert top[i] in top && top[j] in top;
      NoDuplicatesOfSub(top, t);
    }
    forall x | x in xs && x !in ks
      ensures |top| == n && (n > 0 ==> Occurrences(xs, x) <= top[n - 1].1)
    {
      var e := (x, Occurrences(xs, x));
      forall k | 0 <= k < |top|
        ensures top[k] != e
      {
        assert ks[k] == top[k].0;
      }
    }
  }
}
