/** String primitives the feature extractor is built from: counting the
    characters that satisfy a predicate, ASCII lower-casing, and substring
    search (Python's `needle in haystack`).

    Character classes are ASCII only: `str.isalnum` and `str.lower` are
    Unicode-aware in `app.py`, and the model restricts both to ASCII.
 */
module Text {

  /** True when no element of `s` occurs twice. */
  predicate NoDup<T(==)>(s: seq<T>) {
    forall i, j :: 0 <= i < j < |s| ==> s[i] != s[j]
  }

  // ---------------------------------------------------------------------------
  // Character classes (ASCII)
  // ---------------------------------------------------------------------------

  predicate IsUpper(c: char) {
    'A' <= c <= 'Z'
  }

  /** ASCII reading of Python's `str.isalnum` on one character: the letters
      of both cases and the decimal digits, nothing outside ASCII. */
  function IsAlnum(c: char): (r: bool)
    ensures r ==> c as int < 128
    ensures IsUpper(c) ==> r
    ensures ('a' <= c <= 'z' || '0' <= c <= '9') ==> r
    ensures c in "!@#$%^&*()_+-=./:" ==> !r
  {
    'a' <= c <= 'z' || 'A' <= c <= 'Z' || '0' <= c <= '9'
  }

  /** ASCII lower-casing of one character. */
  function LowerChar(c: char): (r: char)
    ensures !IsUpper(r)
    ensures !IsUpper(c) ==> r == c
    ensures IsUpper(c) ==> 'a' <= r <= 'z' && r as int - 'a' as int == c as int - 'A' as int
    ensures IsAlnum(r) <==> IsAlnum(c)
  {
    if IsUpper(c) then (c as int + 32) as char else c
  }

  /** ASCII reading of Python's `str.lower`: the same length, each character
      lower-cased in place. */
  function Lower(s: string): (r: string)
    ensures |r| == |s|
    ensures forall i :: 0 <= i < |s| ==> r[i] == LowerChar(s[i])
  {
    if |s| == 0 then [] else [LowerChar(s[0])] + Lower(s[1..])
  }

  /** Lower-casing commutes with concatenation. */
  lemma LowerAppend(a: string, b: string)
    ensures Lower(a + b) == Lower(a) + Lower(b)
  {
  }

  /** Lower-casing twice is lower-casing once. */
  lemma LowerIdempotent(s: string)
    ensures Lower(Lower(s)) == Lower(s)
  {
  }

  // ---------------------------------------------------------------------------
  // Counting
  // ---------------------------------------------------------------------------

  /** The number of characters of `s` satisfying `p`: Python's
      `sum(1 for c in s if p(c))`. */
  function CountIf(s: string, p: char -> bool): (r: nat)
    ensures r <= |s|
  {
    if |s| == 0 then 0 else (if p(s[0]) then 1 else 0) + CountIf(s[1..], p)
  }

  /** Counting is additive over concatenation. */
  lemma {:induction false} CountIfAppend(a: string, b: string, p: char -> bool)
    ensures CountIf(a + b, p) == CountIf(a, p) + CountIf(b, p)
  {
    if |a| > 0 {
      assert (a + b)[1..] == a[1..] + b;
      CountIfAppend(a[1..], b, p);
    } else {
      assert a + b == b;
    }
  }

  /** Every character is counted exactly when every character satisfies `p`. */
  lemma {:induction false} CountIfAll(s: string, p: char -> bool)
    ensures CountIf(s, p) == |s| <==> forall i :: 0 <= i < |s| ==> p(s[i])
  {
    if |s| > 0 {
      CountIfAll(s[1..], p);
      if forall i :: 0 <= i < |s| ==> p(s[i]) {
        assert forall i :: 0 <= i < |s| - 1 ==> p(s[1..][i]) by {
          forall i | 0 <= i < |s| - 1 ensures p(s[1..][i]) {
            assert s[1..][i] == s[i + 1];
          }
        }
      }
      if CountIf(s, p) == |s| {
        assert p(s[0]);
        forall i | 0 <= i < |s| ensures p(s[i]) {
          if i > 0 {
            assert s[i] == s[1..][i - 1];
          }
        }
      }
    }
  }

  /** Taking the head off `xs` and a matching element off `ys` keeps the
      two sequences permutations of each other. */
  lemma MultisetRemove<T>(xs: seq<T>, ys: seq<T>, i: nat)
    requires multiset(xs) == multiset(ys)
    requires 0 < |xs| && i < |ys| && ys[i] == xs[0]
    ensures multiset(xs[1..]) == multiset(ys[..i] + ys[i + 1..])
  {
    var x := xs[0];
    assert ys == ys[..i] + [x] + ys[i + 1..];
    assert xs == [x] + xs[1..];
    assert multiset(ys) == multiset(ys[..i]) + multiset{x} + multiset(ys[i + 1..]);
    assert multiset(ys[..i] + ys[i + 1..]) == multiset(ys[..i]) + multiset(ys[i + 1..]);
    assert multiset(xs) == multiset{x} + multiset(xs[1..]);
    assert multiset(ys[..i] + ys[i + 1..]) == multiset(ys) - multiset{x};
    assert multiset(xs[1..]) == multiset(xs) - multiset{x};
  }

  /** Counting over `b` is counting `b[j]` plus counting the rest. */
  lemma CountIfRemove(b: string, j: nat, p: char -> bool)
    requires j < |b|
    ensures CountIf(b, p) == CountIf([b[j]], p) + CountIf(b[..j] + b[j + 1..], p)
  {
    assert b == b[..j] + ([b[j]] + b[j + 1..]);
    CountIfAppend(b[..j], [b[j]] + b[j + 1..], p);
    CountIfAppend([b[j]], b[j + 1..], p);
    CountIfAppend(b[..j], b[j + 1..], p);
  }

  /** Counting depends only on the multiset of characters, not on their order. */
  lemma {:induction false} CountIfPermutation(a: string, b: string, p: char -> bool)
    requires multiset(a) == multiset(b)
    ensures CountIf(a, p) == CountIf(b, p)
    decreases |a|
  {
    if |a| == 0 {
      assert |b| == |multiset(b)| == 0;
    } else {
      assert a[0] in multiset(b);
      var j :| 0 <= j < |b| && b[j] == a[0];
      MultisetRemove(a, b, j);
      CountIfPermutation(a[1..], b[..j] + b[j + 1..], p);
      CountIfRemove(b, j, p);
      CountIfRemove(a, 0, p);
      assert a[..0] + a[1..] == a[1..];
    }
  }

  /** Occurrences in `m` of the characters listed in `cs`, each counted once. */
  function Occurrences(m: multiset<char>, cs: seq<char>): nat {
    if |cs| == 0 then 0 else m[cs[0]] + Occurrences(m, cs[1..])
  }

  /** Nothing occurs in the empty multiset. */
  lemma {:induction false} OccurrencesEmpty(cs: seq<char>)
    ensures Occurrences(multiset{}, cs) == 0
  {
    if |cs| > 0 {
      OccurrencesEmpty(cs[1..]);
    }
  }

  /** Adding one character to the multiset raises the total by one exactly
      when that character is listed. */
  lemma {:induction false} OccurrencesAdd(m: multiset<char>, c: char, cs: seq<char>)
    requires NoDup(cs)
    ensures Occurrences(m + multiset{c}, cs) == Occurrences(m, cs) + (if c in cs then 1 else 0)
  {
    if |cs| > 0 {
      assert NoDup(cs[1..]);
      OccurrencesAdd(m, c, cs[1..]);
      assert c in cs <==> c == cs[0] || c in cs[1..];
      assert cs[0] !in cs[1..];
    }
  }

  /** When `p` holds exactly on the characters of the list `cs`, counting with
      `p` equals summing the multiplicity of each listed character. */
  lemma {:induction false} CountIfMultiset(s: string, p: char -> bool, cs: seq<char>)
    requires NoDup(cs)
    requires forall x :: p(x) <==> x in cs
    ensures CountIf(s, p) == Occurrences(multiset(s), cs)
  {
    if |s| > 0 {
      CountIfMultiset(s[1..], p, cs);
      assert s == [s[0]] + s[1..];
      assert multiset(s) == multiset(s[1..]) + multiset{s[0]};
      OccurrencesAdd(multiset(s[1..]), s[0], cs);
    } else {
      OccurrencesEmpty(cs);
    }
  }

  // ---------------------------------------------------------------------------
  // Substring search
  // ---------------------------------------------------------------------------

  /** `needle` sits in `hay` starting at index `i`. */
  predicate OccursAt(needle: string, hay: string, i: int) {
    0 <= i && i + |needle| <= |hay| && hay[i..i + |needle|] == needle
  }

  /** Python's `needle in hay` for strings, by a left-to-right scan. */
  function Occurs(needle: string, hay: string): bool
    decreases |hay|
  {
    if |hay| < |needle| then false
    else hay[..|needle|] == needle || Occurs(needle, hay[1..])
  }

  /** The scan finds `needle` exactly when it sits somewhere in `hay`. */
  lemma {:induction false} OccursIff(needle: string, hay: string)
    ensures Occurs(needle, hay) <==> exists i :: OccursAt(needle, hay, i)
    decreases |hay|
  {
    if |hay| >= |needle| {
      if hay[..|needle|] == needle {
        assert OccursAt(needle, hay, 0);
      } else {
        OccursIff(needle, hay[1..]);
        if Occurs(needle, hay[1..]) {
          var i :| OccursAt(needle, hay[1..], i);
          assert hay[1..][i..i + |needle|] == hay[i + 1..i + 1 + |needle|];
          assert OccursAt(needle, hay, i + 1);
        }
        if exists i :: OccursAt(needle, hay, i) {
          var i :| OccursAt(needle, hay, i);
          assert i != 0;
          assert hay[1..][i - 1..i - 1 + |needle|] == hay[i..i + |needle|];
          assert OccursAt(needle, hay[1..], i - 1);
        }
      }
    }
  }

  /** An occurrence survives any text written before and after. */
  lemma OccursInContext(needle: string, pre: string, hay: string, post: string)
    requires Occurs(needle, hay)
    ensures Occurs(needle, pre + hay + post)
  {
    OccursIff(needle, hay);
    var i :| OccursAt(needle, hay, i);
    var whole := pre + hay + post;
    assert whole[|pre| + i..|pre| + i + |needle|] == hay[i..i + |needle|];
    assert OccursAt(needle, whole, |pre| + i);
    OccursIff(needle, whole);
  }
}
