/** The `value_entropy_url` feature (app.py lines 42-44).

    `Counter(url)` is modelled as a table of (character, count) entries in
    first-appearance order, built one character at a time as Python builds
    it. The probabilities are `count / len(url)`, one per table entry, and
    the entropy is `-sum(p * log2(p))`. Arithmetic is exact (`real`), and
    `log2` is a parameter: floating-point rounding and the library logarithm
    are not modelled. An empty URL gives an empty table, so no division
    happens and the sum over no terms is 0.
 */
module Entropy {
  import opened Text

  /** A character-frequency table: Python's `Counter` in insertion order. */
  type Table = seq<(char, nat)>

  /** No character has two entries. */
  predicate DistinctKeys(t: Table) {
    forall i, j :: 0 <= i < j < |t| ==> t[i].0 != t[j].0
  }

  /** Every entry records at least one occurrence. */
  predicate Positive(t: Table) {
    forall i :: 0 <= i < |t| ==> t[i].1 >= 1
  }

  /** The characters that have an entry. */
  function Keys(t: Table): set<char> {
    set i | 0 <= i < |t| :: t[i].0
  }

  lemma KeysCons(e: (char, nat), t: Table)
    ensures Keys([e] + t) == {e.0} + Keys(t)
  {
    var u := [e] + t;
    forall x | x in Keys(u) ensures x in {e.0} + Keys(t) {
      var i :| 0 <= i < |u| && u[i].0 == x;
      if i > 0 {
        assert t[i - 1].0 == x;
      }
    }
    forall x | x in Keys(t) ensures x in Keys(u) {
      var i :| 0 <= i < |t| && t[i].0 == x;
      assert u[i + 1].0 == x;
    }
    assert u[0].0 == e.0;
  }

  /** The count recorded for `c`, 0 when it has no entry (Counter's lookup). */
  function CountOf(t: Table, c: char): nat {
    if |t| == 0 then 0 else if t[0].0 == c then t[0].1 else CountOf(t[1..], c)
  }

  /** The sum of all recorded counts. */
  function TotalCount(t: Table): nat {
    if |t| == 0 then 0 else t[0].1 + TotalCount(t[1..])
  }

  /** One step of `Counter`'s construction: increment the entry of `c`, or
      append a new entry `(c, 1)` after all existing ones. Existing entries
      keep their places, so the table stays in first-appearance order. */
  function Bump(t: Table, c: char): (r: Table)
    ensures |r| == |t| || |r| == |t| + 1
    ensures forall i :: 0 <= i < |t| ==> r[i].0 == t[i].0
    ensures |r| == |t| + 1 ==> r[|t|] == (c, 1)
  {
    if |t| == 0 then [(c, 1)]
    else if t[0].0 == c then [(c, t[0].1 + 1)] + t[1..]
    else [t[0]] + Bump(t[1..], c)
  }

  /** Bumping `c` adds one to the count of `c` and leaves every other count. */
  lemma {:induction false} BumpCounts(t: Table, c: char)
    ensures forall x :: CountOf(Bump(t, c), x) == CountOf(t, x) + (if x == c then 1 else 0)
    ensures TotalCount(Bump(t, c)) == TotalCount(t) + 1
  {
    if |t| > 0 && t[0].0 != c {
      BumpCounts(t[1..], c);
      assert Bump(t, c)[1..] == Bump(t[1..], c);
    }
  }

  /** A table headed by `e` has distinct keys when its tail does and does
      not hold `e`'s character. */
  lemma DistinctCons(e: (char, nat), t: Table)
    requires DistinctKeys(t) && e.0 !in Keys(t)
    ensures DistinctKeys([e] + t)
  {
    var u := [e] + t;
    forall i, j | 0 <= i < j < |u| ensures u[i].0 != u[j].0 {
      if i == 0 {
        assert u[j].0 == t[j - 1].0;
        assert t[j - 1].0 in Keys(t);
      } else {
        assert u[i] == t[i - 1] && u[j] == t[j - 1];
      }
    }
  }

  /** Bumping adds `c` to the keys and keeps keys distinct and counts positive. */
  lemma {:induction false} BumpShape(t: Table, c: char)
    requires DistinctKeys(t) && Positive(t)
    ensures Keys(Bump(t, c)) == Keys(t) + {c}
    ensures DistinctKeys(Bump(t, c)) && Positive(Bump(t, c))
  {
    var r := Bump(t, c);
    if |t| == 0 {
      assert r == [(c, 1)];
      KeysCons((c, 1), []);
    } else {
      assert t == [t[0]] + t[1..];
      assert DistinctKeys(t[1..]) && Positive(t[1..]);
      assert t[0].0 !in Keys(t[1..]);
      KeysCons(t[0], t[1..]);
      if t[0].0 == c {
        KeysCons(r[0], t[1..]);
        assert r == [r[0]] + t[1..];
        DistinctCons(r[0], t[1..]);
      } else {
        var rest := Bump(t[1..], c);
        BumpShape(t[1..], c);
        KeysCons(t[0], rest);
        assert r == [t[0]] + rest;
        DistinctCons(t[0], rest);
      }
    }
  }

  /** `Counter(s)`: one entry per distinct character, in order of first
      appearance, holding that character's number of occurrences. */
  function Tally(s: string): (t: Table)
    ensures DistinctKeys(t) && Positive(t)
    ensures forall x :: CountOf(t, x) == multiset(s)[x]
    ensures TotalCount(t) == |s|
  {
    if |s| == 0 then []
    else
      var n := |s| - 1;
      assert s == s[..n] + [s[n]];
      var t := Tally(s[..n]);
      BumpCounts(t, s[n]);
      BumpShape(t, s[n]);
      Bump(t, s[n])
  }

  /** No entry exceeds the total. */
  lemma {:induction false} EntryBelowTotal(t: Table, i: nat)
    requires i < |t|
    ensures t[i].1 <= TotalCount(t)
  {
    if i > 0 {
      EntryBelowTotal(t[1..], i - 1);
    }
  }

  /** One probability `count / n` per table entry, in table order. */
  function ProbsOf(t: Table, n: nat): (r: seq<real>)
    requires |t| == 0 || n > 0
    ensures |r| == |t|
    ensures forall i :: 0 <= i < |t| ==> r[i] == t[i].1 as real / n as real
  {
    if |t| == 0 then [] else [t[0].1 as real / n as real] + ProbsOf(t[1..], n)
  }

  /** Python's `sum(f(x) for x in xs)`, left to right. */
  function SumOf(xs: seq<real>, f: real -> real): real {
    if |xs| == 0 then 0.0 else f(xs[0]) + SumOf(xs[1..], f)
  }

  function Id(x: real): real {
    x
  }

  /** Dividing every count by `n` divides their total by `n`. */
  lemma {:induction false} SumProbsOf(t: Table, n: nat)
    requires n > 0
    ensures SumOf(ProbsOf(t, n), Id) == TotalCount(t) as real / n as real
  {
    if |t| > 0 {
      SumProbsOf(t[1..], n);
      assert ProbsOf(t, n)[1..] == ProbsOf(t[1..], n);
      DivAdd(t[0].1 as real, TotalCount(t[1..]) as real, n as real);
    }
  }

  lemma DivAdd(a: real, b: real, d: real)
    requires d > 0.0
    ensures a / d + b / d == (a + b) / d
  {
  }

  /** A count between 1 and the total gives a probability in (0, 1]. */
  lemma RatioInUnit(k: nat, n: nat)
    requires 1 <= k <= n
    ensures 0.0 < k as real / n as real <= 1.0
  {
    var x, y := k as real, n as real;
    assert x / y * y == x;
  }

  /** Every probability of a table of positive counts lies in (0, 1]. */
  lemma ProbsInUnit(t: Table, n: nat)
    requires Positive(t) && TotalCount(t) <= n
    requires |t| == 0 || n > 0
    ensures forall i :: 0 <= i < |t| ==> 0.0 < ProbsOf(t, n)[i] <= 1.0
  {
    forall i | 0 <= i < |t| ensures 0.0 < ProbsOf(t, n)[i] <= 1.0 {
      EntryBelowTotal(t, i);
      RatioInUnit(t[i].1, n);
    }
  }

  /** Dividing a table of positive counts by their total gives one
      probability per entry, each in (0, 1], summing to 1. */
  lemma ProbsOfTotal(t: Table, n: nat)
    requires Positive(t) && TotalCount(t) == n
    ensures |t| == 0 <==> n == 0
    ensures forall i :: 0 <= i < |t| ==> 0.0 < ProbsOf(t, n)[i] <= 1.0
    ensures n > 0 ==> SumOf(ProbsOf(t, n), Id) == 1.0
  {
    assert |t| > 0 ==> n >= t[0].1 >= 1;
    ProbsInUnit(t, n);
    if n > 0 {
      SumProbsOf(t, n);
    }
  }

  /** The list `prob` of `value_entropy_url`: one probability per distinct
      character, each in (0, 1], summing to 1; empty for the empty URL. */
  function Probabilities(url: string): (r: seq<real>)
    ensures |r| == |Tally(url)|
    ensures |r| == 0 <==> |url| == 0
    ensures forall i :: 0 <= i < |r| ==> 0.0 < r[i] <= 1.0
    ensures |url| > 0 ==> SumOf(r, Id) == 1.0
    ensures forall i :: 0 <= i < |r| ==>
              r[i] == multiset(url)[Tally(url)[i].0] as real / |url| as real
  {
    var t := Tally(url);
    ProbsOfTotal(t, |url|);
    forall i | 0 <= i < |t| ensures t[i].1 == multiset(url)[t[i].0] {
      CountOfEntry(t, i);
    }
    ProbsOf(t, |url|)
  }

  /** The entropy term `p * log2(p)` of one probability. */
  function PLogP(log2: real -> real): real -> real {
    p => p * log2(p)
  }

  /** `value_entropy_url`: the Shannon entropy of the URL's characters. It is
      0 for the empty URL whatever `log2` is, and non-negative whenever
      `log2` is non-positive on (0, 1], as the logarithm is. */
  function EntropyOf(url: string, log2: real -> real): (r: real)
    ensures |url| == 0 ==> r == 0.0
    ensures (forall p :: 0.0 < p <= 1.0 ==> log2(p) <= 0.0) ==> r >= 0.0
  {
    var ps := Probabilities(url);
    PLogPSumNonPositive(ps, log2);
    -SumOf(ps, PLogP(log2))
  }

  // ---------------------------------------------------------------------------
  // Properties
  // ---------------------------------------------------------------------------

  /** The empty URL has entropy 0 whatever `log2` is: nothing is divided. */
  lemma EmptyEntropy(log2: real -> real)
    ensures Probabilities("") == []
    ensures EntropyOf("", log2) == 0.0
  {
  }

  /** For probabilities in (0, 1], the sum of the terms `p * log2(p)` is
      non-positive whenever `log2` is non-positive on (0, 1]. */
  lemma PLogPSumNonPositive(ps: seq<real>, log2: real -> real)
    requires forall i :: 0 <= i < |ps| ==> 0.0 < ps[i] <= 1.0
    ensures (forall p :: 0.0 < p <= 1.0 ==> log2(p) <= 0.0) ==> SumOf(ps, PLogP(log2)) <= 0.0
  {
    if forall p :: 0.0 < p <= 1.0 ==> log2(p) <= 0.0 {
      TermsNonPositive(ps, log2);
      SumOfNonPositive(ps, PLogP(log2));
    }
  }

  /** Each term `p * log2(p)` of a probability in (0, 1] is non-positive. */
  lemma TermsNonPositive(ps: seq<real>, log2: real -> real)
    requires forall i :: 0 <= i < |ps| ==> 0.0 < ps[i] <= 1.0
    requires forall p :: 0.0 < p <= 1.0 ==> log2(p) <= 0.0
    ensures forall i :: 0 <= i < |ps| ==> PLogP(log2)(ps[i]) <= 0.0
  {
    forall i | 0 <= i < |ps| ensures PLogP(log2)(ps[i]) <= 0.0 {
      MulNonPositive(ps[i], log2(ps[i]));
    }
  }

  lemma MulNonPositive(p: real, l: real)
    requires p > 0.0 && l <= 0.0
    ensures p * l <= 0.0
  {
  }

  /** A sum of non-positive terms is non-positive. */
  lemma {:induction false} SumOfNonPositive(xs: seq<real>, f: real -> real)
    requires forall i :: 0 <= i < |xs| ==> f(xs[i]) <= 0.0
    ensures SumOf(xs, f) <= 0.0
  {
    if |xs| > 0 {
      assert forall i :: 0 <= i < |xs| - 1 ==> xs[1..][i] == xs[i + 1];
      SumOfNonPositive(xs[1..], f);
    }
  }

  /** The table of a URL made of one repeated character has one entry. */
  lemma RepeatedCharTally(url: string)
    requires |url| > 0
    requires forall i :: 0 <= i < |url| ==> url[i] == url[0]
    ensures Tally(url) == [(url[0], |url|)]
  {
    var t := Tally(url);
    var c := url[0];
    OneCharMultiset(url, c);
    forall i | 0 <= i < |t| ensures t[i].0 == c {
      CountOfEntry(t, i);
    }
    assert |t| < 2;
    assert |t| != 0;
    CountOfEntry(t, 0);
  }

  /** A URL made of one repeated character has entropy 0 (given log2(1) = 0). */
  lemma EntropyOfRepeatedChar(url: string, log2: real -> real)
    requires |url| > 0
    requires forall i :: 0 <= i < |url| ==> url[i] == url[0]
    requires log2(1.0) == 0.0
    ensures EntropyOf(url, log2) == 0.0
  {
    var ps := Probabilities(url);
    assert ps == [1.0] by {
      RepeatedCharTally(url);
      assert |ps| == 1;
      OneCharMultiset(url, url[0]);
      assert ps[0] == |url| as real / |url| as real == 1.0;
    }
    SumOfSingleton(1.0, PLogP(log2));
  }

  /** A one-term sum is that term. */
  lemma SumOfSingleton(x: real, f: real -> real)
    ensures SumOf([x], f) == f(x)
  {
    assert [x][1..] == [];
  }

  /** A string of copies of `c` has `c` as its only element, `|s|` times. */
  lemma {:induction false} OneCharMultiset(s: string, c: char)
    requires forall i :: 0 <= i < |s| ==> s[i] == c
    ensures multiset(s) == multiset{}[c := |s|]
  {
    if |s| > 0 {
      OneCharMultiset(s[..|s| - 1], c);
      assert s == s[..|s| - 1] + [c];
    }
  }

  /** An entry's count is what a lookup of its character returns. */
  lemma {:induction false} CountOfEntry(t: Table, i: nat)
    requires DistinctKeys(t) && i < |t|
    ensures CountOf(t, t[i].0) == t[i].1
  {
    if i > 0 {
      assert DistinctKeys(t[1..]);
      CountOfEntry(t[1..], i - 1);
    }
  }

  // ---------------------------------------------------------------------------
  // Independence from character order
  // ---------------------------------------------------------------------------

  /** With distinct keys and positive counts, an entry is present exactly
      when a lookup of its character returns its count. */
  lemma {:induction false} EntryIff(t: Table, e: (char, nat))
    requires DistinctKeys(t) && Positive(t)
    ensures e in t <==> e.1 >= 1 && CountOf(t, e.0) == e.1
  {
    if |t| > 0 {
      assert DistinctKeys(t[1..]) && Positive(t[1..]);
      EntryIff(t[1..], e);
      if e.0 != t[0].0 {
        assert e in t <==> e in t[1..];
      } else {
        assert CountOf(t[1..], e.0) == 0 by {
          CountOfAbsent(t[1..], e.0);
        }
      }
    }
  }

  /** A character without an entry looks up as 0. */
  lemma {:induction false} CountOfAbsent(t: Table, c: char)
    requires forall i :: 0 <= i < |t| ==> t[i].0 != c
    ensures CountOf(t, c) == 0
  {
    if |t| > 0 {
      CountOfAbsent(t[1..], c);
    }
  }

  /** A table with distinct keys holds each entry once. */
  lemma {:induction false} DistinctMultiplicity(t: Table, e: (char, nat))
    requires DistinctKeys(t)
    ensures multiset(t)[e] == if e in t then 1 else 0
  {
    if |t| > 0 {
      assert DistinctKeys(t[1..]);
      DistinctMultiplicity(t[1..], e);
      assert t == [t[0]] + t[1..];
      assert multiset(t) == multiset{t[0]} + multiset(t[1..]);
      assert t[0] !in t[1..];
    }
  }

  /** `Counter` depends only on the multiset of characters: rearranging the
      URL can only reorder the table's entries. */
  lemma TallyDependsOnMultiset(a: string, b: string)
    requires multiset(a) == multiset(b)
    ensures multiset(Tally(a)) == multiset(Tally(b))
  {
    var ta, tb := Tally(a), Tally(b);
    forall e: (char, nat) ensures multiset(ta)[e] == multiset(tb)[e] {
      DistinctMultiplicity(ta, e);
      DistinctMultiplicity(tb, e);
      EntryIff(ta, e);
      EntryIff(tb, e);
    }
  }

  lemma {:induction false} ProbsOfAppend(a: Table, b: Table, n: nat)
    requires n > 0
    ensures ProbsOf(a + b, n) == ProbsOf(a, n) + ProbsOf(b, n)
  {
    if |a| > 0 {
      assert (a + b)[1..] == a[1..] + b;
      ProbsOfAppend(a[1..], b, n);
    } else {
      assert a + b == b;
    }
  }

  /** The probabilities of a table with one entry taken out, plus that
      entry's probability, are the probabilities of the whole table. */
  lemma ProbsOfRemove(u: Table, i: nat, n: nat)
    requires n > 0 && i < |u|
    ensures multiset(ProbsOf(u, n)) == multiset{u[i].1 as real / n as real} + multiset(ProbsOf(u[..i] + u[i + 1..], n))
  {
    var e := u[i];
    assert u == u[..i] + [e] + u[i + 1..];
    ProbsOfAppend(u[..i] + [e], u[i + 1..], n);
    ProbsOfAppend(u[..i], [e], n);
    ProbsOfAppend(u[..i], u[i + 1..], n);
    assert ProbsOf([e], n) == [e.1 as real / n as real];
  }

  /** Reordering the table reorders the probabilities the same way. */
  lemma {:induction false} ProbsOfPermutation(t: Table, u: Table, n: nat)
    requires multiset(t) == multiset(u)
    requires n > 0
    ensures multiset(ProbsOf(t, n)) == multiset(ProbsOf(u, n))
    decreases |t|
  {
    if |t| == 0 {
      assert |u| == |multiset(u)| == 0;
    } else {
      assert t[0] in multiset(u);
      var i :| 0 <= i < |u| && u[i] == t[0];
      MultisetRemove(t, u, i);
      ProbsOfPermutation(t[1..], u[..i] + u[i + 1..], n);
      ProbsOfRemove(u, i, n);
      assert ProbsOf(t, n) == [t[0].1 as real / n as real] + ProbsOf(t[1..], n);
    }
  }

  lemma {:induction false} SumOfAppend(a: seq<real>, b: seq<real>, f: real -> real)
    ensures SumOf(a + b, f) == SumOf(a, f) + SumOf(b, f)
  {
    if |a| > 0 {
      assert (a + b)[1..] == a[1..] + b;
      SumOfAppend(a[1..], b, f);
    } else {
      assert a + b == b;
    }
  }

  /** Summing with one term taken out, then adding it back. */
  lemma SumOfRemove(ys: seq<real>, i: nat, f: real -> real)
    requires i < |ys|
    ensures SumOf(ys, f) == f(ys[i]) + SumOf(ys[..i] + ys[i + 1..], f)
  {
    var y := ys[i];
    assert ys == ys[..i] + [y] + ys[i + 1..];
    SumOfAppend(ys[..i] + [y], ys[i + 1..], f);
    SumOfAppend(ys[..i], [y], f);
    SumOfAppend(ys[..i], ys[i + 1..], f);
    assert SumOf([y], f) == f(y) + SumOf([], f);
  }

  /** In exact arithmetic the order of summation does not matter. */
  lemma {:induction false} SumOfPermutation(xs: seq<real>, ys: seq<real>, f: real -> real)
    requires multiset(xs) == multiset(ys)
    ensures SumOf(xs, f) == SumOf(ys, f)
    decreases |xs|
  {
    if |xs| == 0 {
      assert |ys| == |multiset(ys)| == 0;
    } else {
      assert xs[0] in multiset(ys);
      var i :| 0 <= i < |ys| && ys[i] == xs[0];
      MultisetRemove(xs, ys, i);
      SumOfPermutation(xs[1..], ys[..i] + ys[i + 1..], f);
      SumOfRemove(ys, i, f);
    }
  }

  /** The entropy is invariant under any rearrangement of the URL's
      characters (for example "abc" and "cab"). */
  lemma EntropyPermutationInvariant(a: string, b: string, log2: real -> real)
    requires multiset(a) == multiset(b)
    ensures EntropyOf(a, log2) == EntropyOf(b, log2)
  {
    assert |a| == |multiset(a)| == |multiset(b)| == |b|;
    if |a| > 0 {
      TallyDependsOnMultiset(a, b);
      ProbsOfPermutation(Tally(a), Tally(b), |a|);
      SumOfPermutation(Probabilities(a), Probabilities(b), PLogP(log2));
    }
  }
}
