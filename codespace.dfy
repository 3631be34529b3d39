/**
 * The codespace the solver enumerates: every code of a given length over an
 * alphabet, in the order `itertools.product(alphabet, repeat=n)` yields them
 * (the last position varies fastest).
 *
 * The generation is explicit: the codes of length n are the codes of length
 * n - 1, each extended in turn by every symbol of the alphabet. Its meaning is
 * given by `Rank`, which reads a code as a numeral in base |alphabet| with the
 * first symbol most significant: the code at index i has rank i.
 */
module Codespace {
  import opened Scorer

  function Pow(b: nat, e: nat): nat
  {
    if e == 0 then 1 else Pow(b, e - 1) * b
  }

  /** Every symbol of `c` belongs to `alphabet`. */
  ghost predicate IsCodeOver(c: Code, alphabet: seq<char>)
  {
    forall i :: 0 <= i < |c| ==> c[i] in alphabet
  }

  /** Position of the first occurrence of `x` in `s`. */
  function IndexOf<T(==)>(s: seq<T>, x: T): (k: nat)
    requires x in s
    ensures k < |s| && s[k] == x
    ensures forall j :: 0 <= j < k ==> s[j] != x
  {
    if s[0] == x then 0 else 1 + IndexOf(s[1..], x)
  }

  /** Each of `prefixes`, extended by each symbol of `alphabet`, prefix by prefix. */
  function Extend(prefixes: seq<Code>, alphabet: seq<char>): seq<Code>
  {
    if prefixes == [] then []
    else
      seq(|alphabet|, k requires 0 <= k < |alphabet| => prefixes[0] + [alphabet[k]])
        + Extend(prefixes[1..], alphabet)
  }

  /** All codes of length `n` over `alphabet`, in product order. */
  function Product(alphabet: seq<char>, n: nat): seq<Code>
  {
    if n == 0 then [[]] else Extend(Product(alphabet, n - 1), alphabet)
  }

  /** The position of `c` in product order: `c` read as a base-|alphabet|
      numeral, first symbol most significant. */
  ghost function Rank(alphabet: seq<char>, c: Code): nat
    requires IsCodeOver(c, alphabet)
  {
    if c == [] then 0
    else Rank(alphabet, c[..|c| - 1]) * |alphabet| + IndexOf(alphabet, c[|c| - 1])
  }

  /** `c` comes before `d` in dictionary order, symbols ordered as in the alphabet. */
  ghost predicate LexBefore(alphabet: seq<char>, c: Code, d: Code)
    requires IsCodeOver(c, alphabet) && IsCodeOver(d, alphabet)
  {
    exists k :: 0 <= k < |c| && k < |d| && c[..k] == d[..k]
      && IndexOf(alphabet, c[k]) < IndexOf(alphabet, d[k])
  }

  // ---------------------------------------------------------------------------
  // Arithmetic helpers
  // ---------------------------------------------------------------------------

  lemma MulDistributes(a: int, b: int, m: int)
    ensures (a + b) * m == a * m + b * m
  {
  }

  lemma MulNonnegative(a: nat, m: nat)
    ensures a * m >= 0
  {
  }

  lemma MulMonotone(a: nat, b: nat, m: nat)
    requires a <= b
    ensures a * m <= b * m
  {
    MulDistributes(a, b - a, m);
    MulNonnegative(b - a, m);
  }

  /** An index below len * m splits into a block q < len and an offset r < m. */
  lemma IndexSplit(i: nat, len: nat, m: nat) returns (q: nat, r: nat)
    requires i < len * m
    ensures q < len && r < m && i == q * m + r
  {
    if m == 0 {
      MulDistributes(len, 0, 0);
      assert false;
    }
    q, r := i / m, i % m;
    if q >= len {
      MulMonotone(len, q, m);
      assert false;
    }
  }

  /** Quotient and remainder of q * m + r by m, for 0 <= r < m. */
  lemma DivModUnique(q: int, m: int, r: int)
    requires 0 <= r < m
    ensures (q * m + r) / m == q && (q * m + r) % m == r
  {
    var i := q * m + r;
    var q', r' := i / m, i % m;
    assert i == q' * m + r';
    MulDistributes(q, -q', m);
    assert (q - q') * m == r' - r;
    if q - q' > 0 {
      MulDistributes(1, q - q' - 1, m);
      MulNonnegative(q - q' - 1, m);
    } else if q - q' < 0 {
      MulDistributes(1, q' - q - 1, m);
      MulNonnegative(q' - q - 1, m);
      MulDistributes(q' - q, q - q', m);
    }
  }

  /** A smaller multiplier leaves room for a whole extra m. */
  lemma ProductBoundMonotone(a: nat, b: nat, m: nat)
    requires a < b
    ensures a * m + m <= b * m
  {
    MulDistributes(a, b - a, m);
    MulDistributes(1, b - a - 1, m);
    MulNonnegative(b - a - 1, m);
  }

  lemma PowPositive(b: nat, e: nat)
    requires b > 0
    ensures Pow(b, e) > 0
  {
    if e > 0 {
      PowPositive(b, e - 1);
      assert Pow(b, e - 1) * b >= Pow(b, e - 1);
    }
  }

  // ---------------------------------------------------------------------------
  // Shape of the generated sequence
  // ---------------------------------------------------------------------------

  lemma {:induction false} ExtendLength(prefixes: seq<Code>, alphabet: seq<char>)
    ensures |Extend(prefixes, alphabet)| == |prefixes| * |alphabet|
  {
    if prefixes != [] {
      ExtendLength(prefixes[1..], alphabet);
      MulDistributes(|prefixes| - 1, 1, |alphabet|);
    }
  }

  /** The code at index q * |alphabet| + r of the extension is prefix q followed by symbol r. */
  lemma {:induction false} ExtendAt(prefixes: seq<Code>, alphabet: seq<char>, q: nat, r: nat)
    requires q < |prefixes| && r < |alphabet|
    ensures q * |alphabet| + r < |Extend(prefixes, alphabet)|
    ensures Extend(prefixes, alphabet)[q * |alphabet| + r] == prefixes[q] + [alphabet[r]]
  {
    var m := |alphabet|;
    ExtendLength(prefixes, alphabet);
    ProductBoundMonotone(q, |prefixes|, m);
    if q > 0 {
      ExtendAt(prefixes[1..], alphabet, q - 1, r);
      MulDistributes(q - 1, 1, m);
      assert Extend(prefixes, alphabet)[q * m + r] == Extend(prefixes[1..], alphabet)[(q - 1) * m + r];
    }
  }

  lemma {:induction false} ProductLength(alphabet: seq<char>, n: nat)
    ensures |Product(alphabet, n)| == Pow(|alphabet|, n)
  {
    if n > 0 {
      ProductLength(alphabet, n - 1);
      ExtendLength(Product(alphabet, n - 1), alphabet);
    }
  }

  /** The code at index i has length n, uses only alphabet symbols and has rank i. */
  lemma {:induction false} ProductAt(alphabet: seq<char>, n: nat, i: nat)
    requires NoDuplicates(alphabet)
    requires i < |Product(alphabet, n)|
    ensures |Product(alphabet, n)[i]| == n
    ensures IsCodeOver(Product(alphabet, n)[i], alphabet)
    ensures Rank(alphabet, Product(alphabet, n)[i]) == i
  {
    if n == 0 {
      assert Product(alphabet, 0) == [[]];
    } else {
      var prev := Product(alphabet, n - 1);
      ExtendLength(prev, alphabet);
      var q, r := IndexSplit(i, |prev|, |alphabet|);
      ProductAt(alphabet, n - 1, q);
      ExtendedRank(alphabet, prev, q, r);
      var c := prev[q] + [alphabet[r]];
      assert Product(alphabet, n) == Extend(prev, alphabet);
      assert Product(alphabet, n)[i] == c;
    }
  }

  /** Extending a prefix of rank q by symbol r gives the code at index
      q * |alphabet| + r, of rank q * |alphabet| + r. */
  lemma ExtendedRank(alphabet: seq<char>, prefixes: seq<Code>, q: nat, r: nat)
    requires NoDuplicates(alphabet)
    requires q < |prefixes| && r < |alphabet|
    requires IsCodeOver(prefixes[q], alphabet) && Rank(alphabet, prefixes[q]) == q
    ensures q * |alphabet| + r < |Extend(prefixes, alphabet)|
    ensures Extend(prefixes, alphabet)[q * |alphabet| + r] == prefixes[q] + [alphabet[r]]
    ensures IsCodeOver(prefixes[q] + [alphabet[r]], alphabet)
    ensures Rank(alphabet, prefixes[q] + [alphabet[r]]) == q * |alphabet| + r
  {
    ExtendAt(prefixes, alphabet, q, r);
    RankExtended(alphabet, prefixes[q], r);
  }

  /** Appending the r-th symbol multiplies the rank by |alphabet| and adds r. */
  lemma RankExtended(alphabet: seq<char>, p: Code, r: nat)
    requires NoDuplicates(alphabet)
    requires IsCodeOver(p, alphabet) && r < |alphabet|
    ensures IsCodeOver(p + [alphabet[r]], alphabet)
    ensures Rank(alphabet, p + [alphabet[r]]) == Rank(alphabet, p) * |alphabet| + r
  {
    var c := p + [alphabet[r]];
    assert c[..|c| - 1] == p;
    assert IndexOf(alphabet, alphabet[r]) == r;
  }

  /** A code made only of the first symbol has rank 0. */
  lemma {:induction false} RankOfAllFirst(alphabet: seq<char>, c: Code)
    requires IsCodeOver(c, alphabet) && |alphabet| > 0
    requires forall i :: 0 <= i < |c| ==> c[i] == alphabet[0]
    ensures Rank(alphabet, c) == 0
    decreases |c|
  {
    if c != [] {
      RankOfAllFirst(alphabet, c[..|c| - 1]);
    }
  }

  /** A code of length n over the alphabet ranks below |alphabet|^n. */
  lemma {:induction false} RankBound(alphabet: seq<char>, c: Code)
    requires IsCodeOver(c, alphabet)
    ensures Rank(alphabet, c) < Pow(|alphabet|, |c|)
    decreases |c|
  {
    if c == [] {
    } else {
      var c' := c[..|c| - 1];
      RankBound(alphabet, c');
      var m := |alphabet|;
      var x := IndexOf(alphabet, c[|c| - 1]);
      ProductBoundMonotone(Rank(alphabet, c'), Pow(m, |c'|), m);
    }
  }

  /** Codes of equal length over the alphabet are identified by their rank. */
  lemma {:induction false} RankInjective(alphabet: seq<char>, c: Code, d: Code)
    requires IsCodeOver(c, alphabet) && IsCodeOver(d, alphabet) && |c| == |d|
    requires Rank(alphabet, c) == Rank(alphabet, d)
    ensures c == d
    decreases |c|
  {
    if c != [] {
      var m := |alphabet|;
      var c', d' := c[..|c| - 1], d[..|d| - 1];
      var x, y := IndexOf(alphabet, c[|c| - 1]), IndexOf(alphabet, d[|d| - 1]);
      DivModUnique(Rank(alphabet, c'), m, x);
      DivModUnique(Rank(alphabet, d'), m, y);
      RankInjective(alphabet, c', d');
      assert c == c' + [c[|c| - 1]] && d == d' + [d[|d| - 1]];
    }
  }

  /** For codes of equal length, a smaller rank means earlier in dictionary order. */
  lemma {:induction false} RankOrderIsLex(alphabet: seq<char>, c: Code, d: Code)
    requires IsCodeOver(c, alphabet) && IsCodeOver(d, alphabet) && |c| == |d|
    requires Rank(alphabet, c) < Rank(alphabet, d)
    ensures LexBefore(alphabet, c, d)
    decreases |c|
  {
    var m := |alphabet|;
    var n := |c|;
    var c', d' := c[..n - 1], d[..n - 1];
    var x, y := IndexOf(alphabet, c[n - 1]), IndexOf(alphabet, d[n - 1]);
    var rc, rd := Rank(alphabet, c'), Rank(alphabet, d');
    if rc == rd {
      RankInjective(alphabet, c', d');
      assert c[..n - 1] == d[..n - 1] && x < y;
    } else if rc < rd {
      RankOrderIsLex(alphabet, c', d');
      var k :| 0 <= k < |c'| && c'[..k] == d'[..k] && IndexOf(alphabet, c'[k]) < IndexOf(alphabet, d'[k]);
      assert c[..k] == c'[..k] && d[..k] == d'[..k];
      assert c[k] == c'[k] && d[k] == d'[k];
    } else {
      ProductBoundMonotone(rd, rc, m);
      assert false;
    }
  }

  // ---------------------------------------------------------------------------
  // What the codespace holds
  // ---------------------------------------------------------------------------

  /** Every code of length n over a duplicate-free alphabet occurs in the
      codespace, at the index given by its rank. */
  lemma ProductHoldsEveryCode(alphabet: seq<char>, n: nat, c: Code)
    requires NoDuplicates(alphabet)
    requires IsCodeOver(c, alphabet) && |c| == n
    ensures Rank(alphabet, c) < |Product(alphabet, n)|
    ensures Product(alphabet, n)[Rank(alphabet, c)] == c
  {
    ProductLength(alphabet, n);
    RankBound(alphabet, c);
    var i := Rank(alphabet, c);
    ProductAt(alphabet, n, i);
    RankInjective(alphabet, Product(alphabet, n)[i], c);
  }

  /** Membership in the codespace is exactly "a code of length n over the alphabet". */
  lemma ProductMembership(alphabet: seq<char>, n: nat, c: Code)
    requires NoDuplicates(alphabet)
    ensures c in Product(alphabet, n) <==> |c| == n && IsCodeOver(c, alphabet)
  {
    if |c| == n && IsCodeOver(c, alphabet) {
      ProductHoldsEveryCode(alphabet, n, c);
    }
    if c in Product(alphabet, n) {
      var i :| 0 <= i < |Product(alphabet, n)| && Product(alphabet, n)[i] == c;
      ProductAt(alphabet, n, i);
    }
  }

  /** The codespace lists its codes in strictly increasing dictionary order,
      hence each code exactly once. */
  lemma ProductSorted(alphabet: seq<char>, n: nat, i: nat, j: nat)
    requires NoDuplicates(alphabet)
    requires i < j < |Product(alphabet, n)|
    ensures IsCodeOver(Product(alphabet, n)[i], alphabet) && IsCodeOver(Product(alphabet, n)[j], alphabet)
    ensures LexBefore(alphabet, Product(alphabet, n)[i], Product(alphabet, n)[j])
    ensures Product(alphabet, n)[i] != Product(alphabet, n)[j]
  {
    ProductAt(alphabet, n, i);
    ProductAt(alphabet, n, j);
    RankOrderIsLex(alphabet, Product(alphabet, n)[i], Product(alphabet, n)[j]);
  }
}
