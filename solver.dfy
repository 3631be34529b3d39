/**
 * The minimax codebreaker: class `CodebreakerAI` of codebreaker.py.
 *
 * The solver keeps the full codespace (`possible`, all 1296 codes of length 4
 * over "123456") and the codes still consistent with the feedback seen so far
 * (`candidates`). Each `NextGuess` first prunes the candidates by the last
 * (guess, feedback) pair, then scans the whole codespace for the code whose
 * worst-case feedback group among the candidates is smallest, preferring a
 * current candidate on ties and otherwise the earliest code scanned.
 */
module Solver {
  import opened Scorer
  import opened Codespace

  const DIGITS: seq<char> := "123456"
  const CODE_LENGTH: nat := 4
  const OPENING_GUESS: Code := "1122"

  datatype Option<T> = None | Some(value: T)

  // ---------------------------------------------------------------------------
  // Order-preserving subsequences
  // ---------------------------------------------------------------------------

  /** `r` is obtained from `s` by deleting elements, keeping the order of the rest. */
  ghost predicate IsSubsequence(r: seq<Code>, s: seq<Code>)
  {
    if r == [] then true
    else if s == [] then false
    else (r[0] == s[0] && IsSubsequence(r[1..], s[1..])) || IsSubsequence(r, s[1..])
  }

  lemma {:induction false} SubsequenceReflexive(s: seq<Code>)
    ensures IsSubsequence(s, s)
  {
    if s != [] {
      SubsequenceReflexive(s[1..]);
    }
  }

  lemma {:induction false} SubsequenceTransitive(a: seq<Code>, b: seq<Code>, c: seq<Code>)
    requires IsSubsequence(a, b) && IsSubsequence(b, c)
    ensures IsSubsequence(a, c)
    decreases |c|
  {
    if a != [] && b != [] && c != [] {
      if b[0] == c[0] && IsSubsequence(b[1..], c[1..]) {
        if a[0] == b[0] && IsSubsequence(a[1..], b[1..]) {
          SubsequenceTransitive(a[1..], b[1..], c[1..]);
        } else {
          SubsequenceTransitive(a, b[1..], c[1..]);
        }
      } else {
        SubsequenceTransitive(a, b, c[1..]);
      }
    }
  }

  /** A subsequence is no longer and holds nothing new. */
  lemma {:induction false} SubsequenceContained(r: seq<Code>, s: seq<Code>)
    requires IsSubsequence(r, s)
    ensures |r| <= |s|
    ensures forall x :: x in r ==> x in s
  {
    if r != [] {
      if r[0] == s[0] && IsSubsequence(r[1..], s[1..]) {
        SubsequenceContained(r[1..], s[1..]);
        assert r == [r[0]] + r[1..] && s == [s[0]] + s[1..];
      } else {
        SubsequenceContained(r, s[1..]);
        assert s == [s[0]] + s[1..];
      }
    }
  }

  // ---------------------------------------------------------------------------
  // Pruning (codebreaker.py:45-48)
  // ---------------------------------------------------------------------------

  /** The candidates that, taken as the secret, score `feedback` against the
      guess just played, in their original order. */
  function Prune(candidates: seq<Code>, lastGuess: Code, feedback: Feedback): (r: seq<Code>)
    ensures IsSubsequence(r, candidates)
    ensures forall c :: c in r <==> c in candidates && GetFeedback(c, lastGuess) == feedback
    ensures forall c :: multiset(r)[c] == if GetFeedback(c, lastGuess) == feedback then multiset(candidates)[c] else 0
    ensures |r| <= |candidates|
  {
    if candidates == [] then []
    else
      var rest := Prune(candidates[1..], lastGuess, feedback);
      assert candidates == [candidates[0]] + candidates[1..];
      SubsequenceContained(rest, candidates[1..]);
      if GetFeedback(candidates[0], lastGuess) == feedback then [candidates[0]] + rest else rest
  }

  /** The candidate set after the solver has been told, for each of `guesses`
      in turn, the honest feedback of that guess against `secret`. */
  function Replay(candidates: seq<Code>, guesses: seq<Code>, secret: Code): seq<Code>
    decreases |guesses|
  {
    if guesses == [] then candidates
    else Replay(Prune(candidates, guesses[0], GetFeedback(secret, guesses[0])), guesses[1..], secret)
  }

  /** Over any sequence of honestly scored guesses the true secret is never pruned. */
  lemma {:induction false} ReplayKeepsSecret(candidates: seq<Code>, guesses: seq<Code>, secret: Code)
    requires secret in candidates
    ensures secret in Replay(candidates, guesses, secret)
    decreases |guesses|
  {
    if guesses != [] {
      var g := guesses[0];
      ReplayKeepsSecret(Prune(candidates, g, GetFeedback(secret, g)), guesses[1..], secret);
    }
  }

  /** Replaying feedback only ever deletes candidates, keeping the order of the rest. */
  lemma {:induction false} ReplayShrinks(candidates: seq<Code>, guesses: seq<Code>, secret: Code)
    ensures IsSubsequence(Replay(candidates, guesses, secret), candidates)
    ensures |Replay(candidates, guesses, secret)| <= |candidates|
    decreases |guesses|
  {
    if guesses == [] {
      SubsequenceReflexive(candidates);
    } else {
      var g := guesses[0];
      var next := Prune(candidates, g, GetFeedback(secret, g));
      ReplayShrinks(next, guesses[1..], secret);
      SubsequenceTransitive(Replay(next, guesses[1..], secret), next, candidates);
      SubsequenceContained(Replay(next, guesses[1..], secret), candidates);
    }
  }

  /** A code that survives pruning scored the feedback that was played. */
  lemma PrunedAgrees(candidates: seq<Code>, g: Code, f: Feedback, c: Code)
    requires c in Prune(candidates, g, f)
    ensures c in candidates && GetFeedback(c, g) == f
  {
  }

  /** A code that survives replaying was a candidate to begin with. */
  lemma ReplayContained(candidates: seq<Code>, guesses: seq<Code>, secret: Code, c: Code)
    requires c in Replay(candidates, guesses, secret)
    ensures c in candidates
  {
    ReplayShrinks(candidates, guesses, secret);
    SubsequenceContained(Replay(candidates, guesses, secret), candidates);
  }

  /** Every code that survives agrees with the secret on the feedback of every guess played. */
  lemma {:induction false} ReplayConsistent(candidates: seq<Code>, guesses: seq<Code>, secret: Code, c: Code, k: nat)
    requires c in Replay(candidates, guesses, secret) && k < |guesses|
    ensures GetFeedback(c, guesses[k]) == GetFeedback(secret, guesses[k])
    decreases |guesses|
  {
    var g := guesses[0];
    var next := Prune(candidates, g, GetFeedback(secret, g));
    if k == 0 {
      ReplayContained(next, guesses[1..], secret, c);
      PrunedAgrees(candidates, g, GetFeedback(secret, g), c);
    } else {
      ReplayConsistent(next, guesses[1..], secret, c, k - 1);
      assert guesses[1..][k - 1] == guesses[k];
    }
  }

  // ---------------------------------------------------------------------------
  // Worst case of a guess (codebreaker.py:54-55)
  // ---------------------------------------------------------------------------

  /** The feedback each candidate, taken as the secret, gives against `guess`. */
  function Scores(candidates: seq<Code>, guess: Code): (fs: seq<Feedback>)
    ensures |fs| == |candidates|
  {
    if candidates == [] then []
    else [GetFeedback(candidates[0], guess)] + Scores(candidates[1..], guess)
  }

  /** The `Counter` of feedback groups: how many candidates give each feedback. */
  function Partition(candidates: seq<Code>, guess: Code): multiset<Feedback>
  {
    multiset(Scores(candidates, guess))
  }

  /** The group of candidates giving feedback `f` is exactly the candidate set
      that would survive if `guess` were played and `f` came back. */
  lemma {:induction false} PartitionIsPrune(candidates: seq<Code>, guess: Code, f: Feedback)
    ensures Partition(candidates, guess)[f] == |Prune(candidates, guess, f)|
  {
    if candidates != [] {
      PartitionIsPrune(candidates[1..], guess, f);
      assert Scores(candidates, guess) == [GetFeedback(candidates[0], guess)] + Scores(candidates[1..], guess);
    }
  }

  /** The largest count `m` gives to an element of `fs`; 0 when `fs` is empty. */
  function MaxCount(fs: seq<Feedback>, m: multiset<Feedback>): (r: nat)
    ensures forall k :: 0 <= k < |fs| ==> m[fs[k]] <= r
    ensures fs == [] ==> r == 0
    ensures fs != [] ==> exists k :: 0 <= k < |fs| && m[fs[k]] == r
  {
    if fs == [] then 0
    else
      var rest := MaxCount(fs[1..], m);
      assert forall k :: 1 <= k < |fs| ==> fs[k] == fs[1..][k - 1];
      if m[fs[0]] > rest then m[fs[0]] else rest
  }

  /** `max(partitions.values(), default=0)`: the size of the largest group of
      candidates sharing one feedback under `guess`. */
  function WorstCase(candidates: seq<Code>, guess: Code): (r: nat)
    ensures candidates == [] ==> r == 0
    ensures candidates != [] ==> 1 <= r <= |candidates|
  {
    var fs := Scores(candidates, guess);
    GreatestGroup(fs);
    MaxCount(fs, multiset(fs))
  }

  /** The largest count of a feedback sequence bounds every group, is reached by
      some group when there is one, and lies between 1 and the number of entries. */
  lemma GreatestGroup(fs: seq<Feedback>)
    ensures forall f :: multiset(fs)[f] <= MaxCount(fs, multiset(fs))
    ensures fs != [] ==>
              1 <= MaxCount(fs, multiset(fs)) <= |fs| && exists f :: multiset(fs)[f] == MaxCount(fs, multiset(fs))
  {
    var r := MaxCount(fs, multiset(fs));
    forall f | f in multiset(fs) ensures multiset(fs)[f] <= r {
      var k :| 0 <= k < |fs| && fs[k] == f;
    }
    if fs != [] {
      var k :| 0 <= k < |fs| && multiset(fs)[fs[k]] == r;
      assert fs[k] in multiset(fs);
      SingletonCard(fs[k], r);
      SubCard(multiset{}[fs[k] := r], multiset(fs));
    }
  }

  /** The worst case is the largest feedback group: every group is at most that
      large, and when there are candidates some group is exactly that large. */
  lemma WorstCaseIsLargestGroup(candidates: seq<Code>, guess: Code)
    ensures forall f :: Partition(candidates, guess)[f] <= WorstCase(candidates, guess)
    ensures candidates != [] ==> exists f :: Partition(candidates, guess)[f] == WorstCase(candidates, guess)
  {
    var fs := Scores(candidates, guess);
    GreatestGroup(fs);
    assert Partition(candidates, guess) == multiset(fs);
    assert WorstCase(candidates, guess) == MaxCount(fs, multiset(fs));
  }

  /** Minimax meaning of the worst case: no feedback to `guess` can leave more
      candidates than it, and when there are candidates some feedback leaves
      exactly that many. */
  lemma WorstCaseIsLargestSurvivorSet(candidates: seq<Code>, guess: Code)
    ensures forall f :: |Prune(candidates, guess, f)| <= WorstCase(candidates, guess)
    ensures candidates != [] ==> exists f :: |Prune(candidates, guess, f)| == WorstCase(candidates, guess)
  {
    WorstCaseIsLargestGroup(candidates, guess);
    forall f ensures |Prune(candidates, guess, f)| <= WorstCase(candidates, guess) {
      PartitionIsPrune(candidates, guess, f);
    }
    if candidates != [] {
      var f :| Partition(candidates, guess)[f] == WorstCase(candidates, guess);
      PartitionIsPrune(candidates, guess, f);
    }
  }

  // ---------------------------------------------------------------------------
  // Minimax selection (codebreaker.py:50-63)
  // ---------------------------------------------------------------------------

  /** `best` is the code the scan over `possible` settles on: its worst case is
      minimal; if some minimiser is a candidate, `best` is one; and every code
      scanned before it is strictly worse, or a non-candidate while `best` is a
      candidate. */
  ghost predicate IsMinimaxChoice(possible: seq<Code>, candidates: seq<Code>, best: Code)
  {
    best in possible
    && (forall g :: g in possible ==> WorstCase(candidates, best) <= WorstCase(candidates, g))
    && (forall g :: g in possible && g in candidates && WorstCase(candidates, g) == WorstCase(candidates, best)
          ==> best in candidates)
    && (forall j :: 0 <= j < IndexOf(possible, best) ==>
          WorstCase(candidates, best) < WorstCase(candidates, possible[j])
          || (best in candidates && possible[j] !in candidates))
  }

  /** What the scan knows after the first `i` codes of `possible`, whose worst
      cases are `ws`: the kept code `best`, at index `at`, is the minimax choice
      among `possible[..i]`, and `score` is its worst case. */
  ghost predicate ScannedPrefix(possible: seq<Code>, candidates: seq<Code>, ws: seq<int>,
                                i: int, score: int, best: Code, at: int)
  {
    |ws| == |possible| && 0 <= at < i <= |possible| && possible[at] == best && score == ws[at]
    && (forall j :: 0 <= j < i ==> score <= ws[j])
    && (forall j :: 0 <= j < i && possible[j] in candidates && ws[j] == score ==> best in candidates)
    && (forall j :: 0 <= j < at ==> score < ws[j] || (best in candidates && possible[j] !in candidates))
  }

  /** After the first code the scan keeps that code. */
  lemma ScanStarts(possible: seq<Code>, candidates: seq<Code>, ws: seq<int>)
    requires |ws| == |possible| > 0
    ensures ScannedPrefix(possible, candidates, ws, 1, ws[0], possible[0], 0)
  {
  }

  /** The code at `i` replaces the kept one: it is strictly better, or equally
      good and a candidate while the kept one is not. */
  lemma ScanTakes(possible: seq<Code>, candidates: seq<Code>, ws: seq<int>, i: nat, score: int, best: Code, at: nat)
    requires ScannedPrefix(possible, candidates, ws, i, score, best, at) && i < |possible|
    requires ws[i] < score || (ws[i] == score && possible[i] in candidates && best !in candidates)
    ensures ScannedPrefix(possible, candidates, ws, i + 1, ws[i], possible[i], i)
  {
  }

  /** The code at `i` does not replace the kept one. */
  lemma ScanKeeps(possible: seq<Code>, candidates: seq<Code>, ws: seq<int>, i: nat, score: int, best: Code, at: nat)
    requires ScannedPrefix(possible, candidates, ws, i, score, best, at) && i < |possible|
    requires !(ws[i] < score || (ws[i] == score && possible[i] in candidates && best !in candidates))
    ensures ScannedPrefix(possible, candidates, ws, i + 1, score, best, at)
  {
  }

  /** Once the whole codespace is scanned, the kept code is the minimax choice. */
  lemma ScanComplete(possible: seq<Code>, candidates: seq<Code>, ws: seq<int>, score: int, best: Code, at: nat)
    requires ScannedPrefix(possible, candidates, ws, |possible|, score, best, at)
    requires forall j :: 0 <= j < |possible| ==> ws[j] == WorstCase(candidates, possible[j])
    ensures IsMinimaxChoice(possible, candidates, best)
  {
    forall j | 0 <= j < at ensures possible[j] != best {
    }
    assert IndexOf(possible, best) == at;
    forall g | g in possible ensures score <= WorstCase(candidates, g) {
      var j :| 0 <= j < |possible| && possible[j] == g;
    }
    forall g | g in possible && g in candidates && WorstCase(candidates, g) == score
      ensures best in candidates
    {
      var j :| 0 <= j < |possible| && possible[j] == g;
    }
  }

  /** The selection loop: keeps the first code with the smallest worst case,
      replacing it by a later code of equal worst case only when that code is a
      candidate and the kept one is not. */
  method SelectGuess(possible: seq<Code>, candidates: seq<Code>) returns (best: Code)
    requires possible != []
    ensures IsMinimaxChoice(possible, candidates, best)
  {
    var bestScore: Option<nat> := None;
    var bestGuess: Option<Code> := None;
    ghost var ws := seq(|possible|, j requires 0 <= j < |possible| => WorstCase(candidates, possible[j]));
    ghost var at: nat := 0;
    for i := 0 to |possible|
      invariant bestScore.None? <==> i == 0
      invariant bestGuess.None? <==> i == 0
      invariant i > 0 ==> ScannedPrefix(possible, candidates, ws, i, bestScore.value, bestGuess.value, at)
    {
      var guess := possible[i];
      var worstCase := WorstCase(candidates, guess);
      assert worstCase == ws[i];
      if bestScore.None?
         || worstCase < bestScore.value
         || (worstCase == bestScore.value && guess in candidates && bestGuess.value !in candidates)
      {
        if i == 0 {
          ScanStarts(possible, candidates, ws);
        } else {
          ScanTakes(possible, candidates, ws, i, bestScore.value, bestGuess.value, at);
        }
        assert ScannedPrefix(possible, candidates, ws, i + 1, worstCase, guess, i);
        bestScore := Some(worstCase);
        bestGuess := Some(guess);
        at := i;
      } else {
        ScanKeeps(possible, candidates, ws, i, bestScore.value, bestGuess.value, at);
      }
    }
    best := bestGuess.value;
    ScanComplete(possible, candidates, ws, bestScore.value, best, at);
  }

  /** The choice is determined: two codes that both satisfy it are the same. */
  lemma MinimaxChoiceUnique(possible: seq<Code>, candidates: seq<Code>, x: Code, y: Code)
    requires IsMinimaxChoice(possible, candidates, x)
    requires IsMinimaxChoice(possible, candidates, y)
    ensures x == y
  {
    var ix, iy := IndexOf(possible, x), IndexOf(possible, y);
    if ix != iy {
      var wx, wy := WorstCase(candidates, x), WorstCase(candidates, y);
      assert wx <= wy && wy <= wx;
      if ix < iy {
        EarlierTieIsNonCandidate(possible, candidates, y, ix);
        assert false;
      } else {
        EarlierTieIsNonCandidate(possible, candidates, x, iy);
        assert false;
      }
    }
  }

  /** A code scanned before the choice with the same worst case is not a
      candidate, while the choice is. */
  lemma EarlierTieIsNonCandidate(possible: seq<Code>, candidates: seq<Code>, best: Code, j: nat)
    requires IsMinimaxChoice(possible, candidates, best)
    requires j < IndexOf(possible, best)
    requires WorstCase(candidates, possible[j]) == WorstCase(candidates, best)
    ensures best in candidates && possible[j] !in candidates
  {
  }

  /** The tie-break spelled out: when some code of least worst case is a
      candidate, the choice is the first such candidate in scan order;
      otherwise it is the first code of least worst case. */
  lemma ChoiceIsFirstPreferred(possible: seq<Code>, candidates: seq<Code>, best: Code)
    requires IsMinimaxChoice(possible, candidates, best)
    ensures (exists g :: g in possible && g in candidates && WorstCase(candidates, g) == WorstCase(candidates, best))
            ==> best in candidates
                && forall j :: 0 <= j < IndexOf(possible, best) && possible[j] in candidates
                     ==> WorstCase(candidates, best) < WorstCase(candidates, possible[j])
    ensures best !in candidates
            ==> forall j :: 0 <= j < IndexOf(possible, best)
                  ==> WorstCase(candidates, best) < WorstCase(candidates, possible[j])
  {
  }

  /** With no candidates left every worst case is 0, and the scan keeps the
      first code of the codespace. */
  lemma NoCandidatesChoosesFirst(possible: seq<Code>, best: Code)
    requires IsMinimaxChoice(possible, [], best)
    ensures best == possible[0]
  {
  }

  /** With a single candidate left, that candidate is the code played. */
  lemma SingleCandidateIsChosen(possible: seq<Code>, secret: Code, best: Code)
    requires secret in possible
    requires IsMinimaxChoice(possible, [secret], best)
    ensures best == secret
  {
    assert WorstCase([secret], secret) == 1;
    assert WorstCase([secret], best) == 1;
  }

  // ---------------------------------------------------------------------------
  // The codespace the solver is built with (codebreaker.py:35-37)
  // ---------------------------------------------------------------------------

  /** The six digit symbols are pairwise distinct. */
  lemma DigitsDistinct()
    ensures NoDuplicates(DIGITS)
  {
    assert forall k :: 0 <= k < |DIGITS| ==> DIGITS[k] as int == '1' as int + k;
  }

  /** The codespace holds 6^4 = 1296 codes. */
  lemma CodespaceSize()
    ensures |Product(DIGITS, CODE_LENGTH)| == 1296
  {
    ProductLength(DIGITS, CODE_LENGTH);
    assert |DIGITS| == 6;
    assert Pow(6, 2) == 36;
    assert Pow(6, 4) == 1296;
  }

  /** A code is in the codespace exactly when it has four symbols from "123456". */
  lemma CodespaceMembership(c: Code)
    ensures c in Product(DIGITS, CODE_LENGTH) <==> |c| == CODE_LENGTH && IsCodeOver(c, DIGITS)
  {
    DigitsDistinct();
    ProductMembership(DIGITS, CODE_LENGTH, c);
  }

  /** Each code occurs once, and earlier codes come first in dictionary order. */
  lemma CodespaceOrdered(i: nat, j: nat)
    requires i < j < |Product(DIGITS, CODE_LENGTH)|
    ensures Product(DIGITS, CODE_LENGTH)[i] != Product(DIGITS, CODE_LENGTH)[j]
    ensures IsCodeOver(Product(DIGITS, CODE_LENGTH)[i], DIGITS) && IsCodeOver(Product(DIGITS, CODE_LENGTH)[j], DIGITS)
    ensures LexBefore(DIGITS, Product(DIGITS, CODE_LENGTH)[i], Product(DIGITS, CODE_LENGTH)[j])
  {
    DigitsDistinct();
    ProductSorted(DIGITS, CODE_LENGTH, i, j);
  }

  /** The scan starts at "1111", and the opening guess is a code of the codespace. */
  lemma CodespaceLandmarks()
    ensures |Product(DIGITS, CODE_LENGTH)| > 0 && Product(DIGITS, CODE_LENGTH)[0] == "1111"
    ensures OPENING_GUESS in Product(DIGITS, CODE_LENGTH)
  {
    DigitsDistinct();
    var first: Code := "1111";
    assert IsCodeOver(first, DIGITS);
    RankOfAllFirst(DIGITS, first);
    ProductHoldsEveryCode(DIGITS, CODE_LENGTH, first);
    CodespaceMembership(OPENING_GUESS);
  }

  // ---------------------------------------------------------------------------
  // The solver object (codebreaker.py:33-63)
  // ---------------------------------------------------------------------------

  class CodebreakerAI {
    var possible: seq<Code>
    var candidates: seq<Code>

    /** The codespace is the full product and the candidates are drawn from it in order. */
    ghost predicate Valid()
      reads this
    {
      possible == Product(DIGITS, CODE_LENGTH) && IsSubsequence(candidates, possible)
    }

    constructor ()
      ensures Valid()
      ensures possible == Product(DIGITS, CODE_LENGTH) && candidates == possible
      ensures |possible| == 1296
    {
      possible := Product(DIGITS, CODE_LENGTH);
      candidates := possible;
      new;
      SubsequenceReflexive(possible);
      CodespaceSize();
    }

    /** The fixed opening: a code of the codespace, returned without any change of state. */
    method FirstGuess() returns (guess: Code)
      requires Valid()
      ensures guess == OPENING_GUESS && guess in possible
    {
      CodespaceLandmarks();
      guess := "1122";
    }

    /** Prunes the candidates by the last guess and its feedback, then returns
        the minimax choice over the whole codespace. */
    method NextGuess(lastGuess: Code, feedback: Feedback) returns (guess: Code)
      requires Valid()
      modifies this
      ensures Valid()
      ensures possible == old(possible)
      ensures candidates == Prune(old(candidates), lastGuess, feedback)
      ensures |candidates| <= |old(candidates)|
      ensures forall s :: s in old(candidates) && GetFeedback(s, lastGuess) == feedback ==> s in candidates
      ensures IsMinimaxChoice(possible, candidates, guess)
    {
      SubsequenceTransitive(Prune(candidates, lastGuess, feedback), candidates, possible);
      candidates := Prune(candidates, lastGuess, feedback);
      CodespaceLandmarks();
      guess := SelectGuess(possible, candidates);
    }
  }
}
