/**
 * The Mastermind scorer: `get_feedback` of codebreaker.py.
 *
 * A code is a string of symbols. Scoring a guess against a secret gives a
 * pair (black, white): black counts the positions where the two codes agree,
 * and white counts the remaining symbol matches that ignore position, i.e.
 * the size of the multiset intersection of the two codes minus black.
 *
 * The source pairs positions with `zip`, which stops at the shorter code,
 * and sums `min` of the two symbol counts over the distinct symbols of the
 * secret. Both are modelled as written, so the scorer is total on codes of
 * any lengths.
 */
module Scorer {

  type Code = seq<char>

  /** The (black, white) pair the source returns as a tuple. */
  datatype Feedback = Feedback(black: int, white: int)

  function Min(a: int, b: int): int
  {
    if a <= b then a else b
  }

  // ---------------------------------------------------------------------------
  // Black pegs: positional agreement over the zipped prefix
  // ---------------------------------------------------------------------------

  /** Number of positions, among the first min(|secret|, |guess|), where the
      two codes hold the same symbol. Peels the last zipped pair. */
  function Black(secret: Code, guess: Code): (r: nat)
    ensures r <= Min(|secret|, |guess|)
    decreases |secret|
  {
    var n := Min(|secret|, |guess|);
    if n == 0 then 0
    else Black(secret[..n - 1], guess[..n - 1]) + (if secret[n - 1] == guess[n - 1] then 1 else 0)
  }

  /** The positions a black peg is scored for. */
  ghost function Hits(secret: Code, guess: Code): set<nat>
  {
    set i: nat | i < |secret| && i < |guess| && secret[i] == guess[i]
  }

  /** Black counts exactly the agreeing positions. */
  lemma {:induction false} BlackCountsHits(secret: Code, guess: Code)
    ensures Black(secret, guess) == |Hits(secret, guess)|
    decreases |secret|
  {
    var n := Min(|secret|, |guess|);
    if n == 0 {
      assert Hits(secret, guess) == {};
    } else {
      var s', g' := secret[..n - 1], guess[..n - 1];
      BlackCountsHits(s', g');
      if secret[n - 1] == guess[n - 1] {
        assert Hits(secret, guess) == Hits(s', g') + {n - 1};
      } else {
        assert Hits(secret, guess) == Hits(s', g');
      }
    }
  }

  // ---------------------------------------------------------------------------
  // Total matches: the Counter sum, and the multiset intersection it computes
  // ---------------------------------------------------------------------------

  ghost predicate NoDuplicates(ds: seq<char>)
  {
    forall i, j :: 0 <= i < j < |ds| ==> ds[i] != ds[j]
  }

  /** The distinct symbols of a code in order of first occurrence: the keys of
      `Counter(secret)`, in the order the source iterates them. */
  function Keys(s: Code): (ds: seq<char>)
    ensures NoDuplicates(ds)
    ensures forall x :: x in ds <==> x in s
  {
    if s == [] then []
    else
      var ks := Keys(s[..|s| - 1]);
      assert s == s[..|s| - 1] + [s[|s| - 1]];
      if s[|s| - 1] in ks then ks else ks + [s[|s| - 1]]
  }

  /** Sum over the symbols `ds` of the smaller of their counts in `a` and `b`. */
  function SumMin(ds: seq<char>, a: multiset<char>, b: multiset<char>): nat
  {
    if ds == [] then 0 else Min(a[ds[0]], b[ds[0]]) + SumMin(ds[1..], a, b)
  }

  /** Total matches ignoring position, computed as the source does. */
  function TotalMatches(secret: Code, guess: Code): nat
  {
    SumMin(Keys(secret), multiset(secret), multiset(guess))
  }

  /** Scores `guess` against `secret`. */
  function GetFeedback(secret: Code, guess: Code): (r: Feedback)
    ensures r.black == |Hits(secret, guess)|
    ensures r.black + r.white == |multiset(secret) * multiset(guess)|
    ensures 0 <= r.black && 0 <= r.white
    ensures r.black + r.white <= |secret| && r.black + r.white <= |guess|
  {
    var black := Black(secret, guess);
    var total := TotalMatches(secret, guess);
    BlackCountsHits(secret, guess);
    TotalMatchesIsIntersection(secret, guess);
    BlackWithinTotal(secret, guess);
    IntersectionWithin(secret, guess);
    Feedback(black, total - black)
  }

  // ---------------------------------------------------------------------------
  // Multiset facts
  // ---------------------------------------------------------------------------

  /** A multiset holding `k` copies of `x` and nothing else has `k` elements. */
  lemma {:induction false} SingletonCard<T>(x: T, k: nat)
    ensures |multiset{}[x := k]| == k
  {
    if k > 0 {
      SingletonCard(x, k - 1);
      assert multiset{}[x := k] == multiset{}[x := k - 1] + multiset{x};
    }
  }

  /** A sub-multiset is no larger. */
  lemma SubCard<T>(a: multiset<T>, b: multiset<T>)
    requires a <= b
    ensures |a| <= |b|
  {
    assert b == a + (b - a);
  }

  /** Changing counts outside `ds` does not change the sum over `ds`. */
  lemma {:induction false} SumMinAgree(ds: seq<char>, a: multiset<char>, a': multiset<char>, b: multiset<char>)
    requires forall x :: x in ds ==> a[x] == a'[x]
    ensures SumMin(ds, a, b) == SumMin(ds, a', b)
  {
    if ds != [] {
      SumMinAgree(ds[1..], a, a', b);
    }
  }

  /** Summing `min` over a duplicate-free list that covers every symbol of `a`
      gives the size of the multiset intersection. */
  lemma {:induction false} SumMinIsIntersection(ds: seq<char>, a: multiset<char>, b: multiset<char>)
    requires NoDuplicates(ds)
    requires forall x :: x in a ==> x in ds
    ensures SumMin(ds, a, b) == |a * b|
  {
    if ds == [] {
      assert a * b == multiset{};
    } else {
      var d, rest := ds[0], ds[1..];
      var a' := a[d := 0];
      forall x | x in a' ensures x in rest {
        assert x != d && x in a;
        var i :| 0 <= i < |ds| && ds[i] == x;
        assert i != 0;
        assert rest[i - 1] == x;
      }
      forall x | x in rest ensures a[x] == a'[x] {
        var i :| 0 <= i < |rest| && rest[i] == x;
        assert ds[i + 1] == x && ds[0] == d;
      }
      SumMinAgree(rest, a, a', b);
      SumMinIsIntersection(rest, a', b);
      var one := multiset{}[d := Min(a[d], b[d])];
      assert a * b == a' * b + one;
      SingletonCard(d, Min(a[d], b[d]));
    }
  }

  lemma TotalMatchesIsIntersection(secret: Code, guess: Code)
    ensures TotalMatches(secret, guess) == |multiset(secret) * multiset(guess)|
  {
    SumMinIsIntersection(Keys(secret), multiset(secret), multiset(guess));
  }

  /** The multiset of a prefix one longer gains the next symbol. */
  lemma PrefixMultiset(s: Code, n: nat)
    requires 0 < n <= |s|
    ensures multiset(s[..n]) == multiset(s[..n - 1]) + multiset{s[n - 1]}
  {
    assert s[..n] == s[..n - 1] + [s[n - 1]];
  }

  /** Every black peg is also a match ignoring position. */
  lemma {:induction false} BlackWithinPrefix(secret: Code, guess: Code)
    ensures
      var n := Min(|secret|, |guess|);
      Black(secret, guess) <= |multiset(secret[..n]) * multiset(guess[..n])|
    decreases |secret|
  {
    var n := Min(|secret|, |guess|);
    if n > 0 {
      var s', g' := secret[..n - 1], guess[..n - 1];
      BlackWithinPrefix(s', g');
      assert s'[..n - 1] == s' && g'[..n - 1] == g';
      PrefixMultiset(secret, n);
      PrefixMultiset(guess, n);
      GrowIntersection(multiset(s'), multiset(g'), secret[n - 1], guess[n - 1]);
    }
  }

  /** Adding one symbol to each side grows the intersection, by one when they agree. */
  lemma GrowIntersection(a: multiset<char>, b: multiset<char>, x: char, y: char)
    ensures |a * b| + (if x == y then 1 else 0) <= |(a + multiset{x}) * (b + multiset{y})|
  {
    if x == y {
      assert (a + multiset{x}) * (b + multiset{x}) == a * b + multiset{x};
    } else {
      SubCard(a * b, (a + multiset{x}) * (b + multiset{y}));
    }
  }

  lemma BlackWithinTotal(secret: Code, guess: Code)
    ensures Black(secret, guess) <= |multiset(secret) * multiset(guess)|
  {
    var n := Min(|secret|, |guess|);
    BlackWithinPrefix(secret, guess);
    assert secret == secret[..n] + secret[n..];
    assert guess == guess[..n] + guess[n..];
    SubCard(multiset(secret[..n]) * multiset(guess[..n]), multiset(secret) * multiset(guess));
  }

  lemma IntersectionWithin(secret: Code, guess: Code)
    ensures |multiset(secret) * multiset(guess)| <= |secret|
    ensures |multiset(secret) * multiset(guess)| <= |guess|
  {
    SubCard(multiset(secret) * multiset(guess), multiset(secret));
    SubCard(multiset(secret) * multiset(guess), multiset(guess));
  }

  // ---------------------------------------------------------------------------
  // Properties of the scorer
  // ---------------------------------------------------------------------------

  /** White counts, symbol by symbol, the matches that ignore position, minus
      black: the sum of min(count in secret, count in guess) over the symbols
      of any duplicate-free list covering the secret's symbols. */
  lemma WhiteIsMinCountSum(secret: Code, guess: Code, symbols: seq<char>)
    requires NoDuplicates(symbols)
    requires forall x :: x in secret ==> x in symbols
    ensures GetFeedback(secret, guess).white
         == SumMin(symbols, multiset(secret), multiset(guess)) - GetFeedback(secret, guess).black
  {
    SumMinIsIntersection(symbols, multiset(secret), multiset(guess));
  }

  lemma {:induction false} BlackSymmetric(a: Code, b: Code)
    ensures Black(a, b) == Black(b, a)
    decreases |a|
  {
    var n := Min(|a|, |b|);
    if n > 0 {
      BlackSymmetric(a[..n - 1], b[..n - 1]);
    }
  }

  /** Scoring is symmetric in its two arguments. */
  lemma FeedbackSymmetric(a: Code, b: Code)
    ensures GetFeedback(a, b) == GetFeedback(b, a)
  {
    BlackSymmetric(a, b);
    TotalMatchesIsIntersection(a, b);
    TotalMatchesIsIntersection(b, a);
    assert multiset(a) * multiset(b) == multiset(b) * multiset(a);
  }

  lemma {:induction false} BlackSelf(a: Code)
    ensures Black(a, a) == |a|
    decreases |a|
  {
    if |a| > 0 {
      BlackSelf(a[..|a| - 1]);
    }
  }

  /** A code scored against itself earns a black peg in every position. */
  lemma FeedbackSelf(a: Code)
    ensures GetFeedback(a, a) == Feedback(|a|, 0)
  {
    BlackSelf(a);
    TotalMatchesIsIntersection(a, a);
    assert multiset(a) * multiset(a) == multiset(a);
  }
}
