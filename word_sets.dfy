/**
 * Value-level vocabulary for the prefix index: the prefixes of a word, of a
 * set of words, the words of a set that start with a given prefix, and
 * duplicate-free result lists. Words are plain character sequences; any case
 * folding or trimming happens before they reach the index.
 */
module WordSets {

  /** The prefixes of `w` of length at most `n`, one per length. */
  function PrefixesUpTo(w: string, n: nat): set<string>
    requires n <= |w|
  {
    if n == 0 then {[]} else PrefixesUpTo(w, n - 1) + {w[..n]}
  }

  /** `PrefixesUpTo(w, n)` holds exactly the prefixes of `w` no longer than `n`. */
  lemma {:induction false} PrefixesUpToMembers(w: string, n: nat)
    requires n <= |w|
    ensures forall p :: p in PrefixesUpTo(w, n) <==> p <= w && |p| <= n
  {
    if n > 0 {
      PrefixesUpToMembers(w, n - 1);
      forall p | p <= w && |p| <= n ensures p in PrefixesUpTo(w, n) {
        if |p| == n {
          assert p == w[..n];
        }
      }
    }
  }

  /** The prefix of `w` one character longer than `w[..i]`. */
  lemma PrefixStep(w: string, i: nat)
    requires i < |w|
    ensures w[..i] + [w[i]] == w[..i + 1]
    ensures w[..i] <= w[..i + 1]
  {
    assert w[..i + 1] == w[..i] + [w[i]];
  }

  /**
   * `p + [ch]` is a prefix of `s` exactly when `p` is, and `s` continues
   * past `p` with `ch`.
   */
  lemma ExtendPrefix(p: string, ch: char, s: string)
    ensures p + [ch] <= s <==> p <= s && |p| < |s| && s[|p|] == ch
  {
    if p <= s && |p| < |s| && s[|p|] == ch {
      assert s[..|p| + 1] == p + [ch];
    }
    if p + [ch] <= s {
      assert (p + [ch])[|p|] == ch;
      assert s[..|p|] == (p + [ch])[..|p|];
    }
  }

  /** Every prefix of `w`, from the empty word up to `w` itself. */
  function PrefixesOf(w: string): (P: set<string>)
    ensures forall p :: p in P <==> p <= w
    ensures w in P && [] in P
  {
    PrefixesUpToMembers(w, |w|);
    PrefixesUpTo(w, |w|)
  }

  /** Every prefix of some word of `W`. */
  function Prefixes(W: set<string>): (P: set<string>)
    ensures forall w, p :: w in W && p <= w ==> p in P
    ensures forall p :: p in P ==> exists w :: w in W && p <= w
  {
    var P := set w, i | w in W && 0 <= i <= |w| :: w[..i];
    assert forall w, p :: w in W && p <= w ==> p == w[..|p|];
    P
  }

  /** The words of `W` that have `p` as a literal character prefix. */
  function WithPrefix(W: set<string>, p: string): (R: set<string>)
    ensures R <= W
    ensures forall w :: w in R <==> w in W && p <= w
  {
    set w | w in W && p <= w
  }

  /** No word occurs twice in `xs`. */
  predicate Distinct(xs: seq<string>)
  {
    forall i, j :: 0 <= i < j < |xs| ==> xs[i] != xs[j]
  }

  /**
   * Appending `found` to `before` keeps the first `n` entries and extends
   * the entries from `n` on by `found`.
   */
  lemma AppendSlices(before: seq<string>, found: seq<string>, n: nat)
    requires n <= |before|
    ensures (before + found)[..n] == before[..n]
    ensures (before + found)[n..] == before[n..] + found
  {
  }

  /** A duplicate-free list has as many entries as it has distinct words. */
  lemma {:induction false} DistinctCount(xs: seq<string>)
    requires Distinct(xs)
    ensures |(set x | x in xs)| == |xs|
  {
    if xs != [] {
      var t := xs[1..];
      assert Distinct(t) by {
        forall i, j | 0 <= i < j < |t| ensures t[i] != t[j] {
          assert t[i] == xs[i + 1] && t[j] == xs[j + 1];
        }
      }
      DistinctCount(t);
      assert xs[0] !in t by {
        forall j | 0 <= j < |t| ensures t[j] != xs[0] {
          assert t[j] == xs[j + 1];
        }
      }
      assert (set x | x in xs) == (set x | x in t) + {xs[0]} by {
        assert xs == [xs[0]] + t;
      }
    }
  }

  /**
   * Two duplicate-free lists with no word in common concatenate to a
   * duplicate-free list.
   */
  lemma DistinctConcat(a: seq<string>, b: seq<string>)
    requires Distinct(a) && Distinct(b)
    requires forall x :: x in a ==> x !in b
    ensures Distinct(a + b)
  {
    forall i, j | 0 <= i < j < |a + b| ensures (a + b)[i] != (a + b)[j] {
      if j < |a| {
      } else if i >= |a| {
        assert (a + b)[i] == b[i - |a|] && (a + b)[j] == b[j - |a|];
      } else {
        assert (a + b)[i] == a[i] && (a + b)[j] == b[j - |a|];
        assert (a + b)[j] in b;
      }
    }
  }
}
