# Mastermind codebreaker: a verified model

This project models the algorithmic core of `codebreaker.py`, a Mastermind
demo in which a minimax solver breaks a secret code of four digits drawn from
`1`..`6`. The core has two parts:

- the **scorer** `get_feedback`, which scores a guess against a secret as a
  pair (black, white). Black counts the positions where the two codes agree.
  White counts the further symbol matches that ignore position.
- the **solver** `CodebreakerAI`. It holds the whole codespace, all 1296
  codes in `itertools.product` order, together with the list of candidates
  still consistent with the feedback seen so far. `next_guess` prunes the
  candidates by the last guess and its feedback. It then scans the codespace
  for the code whose worst-case feedback group among the candidates is
  smallest. On ties it prefers a current candidate, and otherwise the code
  scanned first.

Modules:

- `Scorer` (`scorer.dfy`): `GetFeedback`. The source's `zip` becomes
  `Black`, which counts agreeing positions over the shorter length. Its
  `Counter` sum becomes `TotalMatches`, a sum of `min` over the secret's
  distinct symbols. The model proves that this sum is the size of the
  multiset intersection of the two codes.
- `Codespace` (`codespace.dfy`): an explicit `Product(alphabet, n)` in place of
  `itertools.product`. It comes with a rank function that reads a code as a
  base-|alphabet| numeral. Using it, the model proves that the code at index
  `i` has rank `i`. From this follow membership, distinctness and
  lexicographic order.
- `Solver` (`solver.dfy`):
  - `Prune`, the list comprehension of `next_guess`.
  - `WorstCase`, the `max` over the `Counter` of feedback groups.
  - `SelectGuess`, the selection loop, a method proved against the
    predicate `IsMinimaxChoice`.
  - The class `CodebreakerAI`, whose fields `possible` and `candidates` its
    constructor and `NextGuess` assign.

## Model

| member | source | states |
|---|---|---|
| Scorer.GetFeedback | codebreaker.py:21-30 | black is the number of positions where secret and guess agree. black + white is the size of the multiset intersection of the two codes. Both are non-negative, and their sum is at most the length of either code. |
| Scorer.BlackCountsHits | codebreaker.py:24 | The zipped positional count equals the number of indices `i` with `secret[i] == guess[i]`. |
| Scorer.TotalMatchesIsIntersection | codebreaker.py:26-28 | The `Counter` sum of `min(secret_count[d], guess_count[d])` over the secret's symbols is the size of the multiset intersection. |
| Scorer.WhiteIsMinCountSum | codebreaker.py:26-29 | white equals the sum of min(count in secret, count in guess), minus black. The sum may be taken over any duplicate-free list of symbols that covers the secret. |
| Scorer.Keys | codebreaker.py:26-28 | The symbols the `Counter` iterates are duplicate-free, and they are exactly the symbols of the secret. |
| Scorer.BlackWithinTotal | codebreaker.py:24-29 | black never exceeds the total matches, so white is never negative. |
| Scorer.FeedbackSymmetric | codebreaker.py:21-30 | `get_feedback(a, b) == get_feedback(b, a)`. |
| Scorer.FeedbackSelf | codebreaker.py:21-30 | `get_feedback(a, a) == (len(a), 0)`. |
| Codespace.ProductLength | codebreaker.py:36 | The product of an alphabet with itself `n` times has \|alphabet\|^n codes. |
| Codespace.ProductAt | codebreaker.py:36 | The code at index `i` has length `n`, uses only alphabet symbols, and has rank `i`. |
| Codespace.ProductHoldsEveryCode | codebreaker.py:36 | Every length-`n` code over the alphabet sits in the product at the index given by its rank. |
| Codespace.ProductMembership | codebreaker.py:36 | When the alphabet has no repeated symbol, a code is in the product exactly when it has length `n` and uses only alphabet symbols. |
| Codespace.ProductSorted | codebreaker.py:36 | Codes at different indices differ, and earlier codes come first in dictionary order. |
| Codespace.RankInjective | codebreaker.py:36 | Two codes of equal length and equal rank are equal. |
| Codespace.RankOrderIsLex | codebreaker.py:36 | A smaller rank means the code comes first in dictionary order. |
| Solver.CodespaceSize | codebreaker.py:35-36 | The codespace built from "123456" and length 4 has 1296 codes. |
| Solver.CodespaceMembership | codebreaker.py:35-36 | A code is in the codespace exactly when it has four symbols from "123456". |
| Solver.CodespaceOrdered | codebreaker.py:35-36 | Each code occurs once, and the codes are in lexicographic order. |
| Solver.CodespaceLandmarks | codebreaker.py:36-40 | The codespace starts at "1111", and the opening guess "1122" is one of its codes. |
| Solver.Prune | codebreaker.py:45-48 | The result is an order-preserving subsequence of the candidates. A code is kept exactly when it was a candidate and scores the given feedback against the last guess, and each kept code keeps its multiplicity. The result is never longer than the input. |
| Solver.ReplayKeepsSecret | codebreaker.py:45-48 | Over any sequence of guesses answered with honest feedback, the true secret is never pruned. |
| Solver.ReplayShrinks | codebreaker.py:45-48 | Repeated pruning yields an order-preserving subsequence of the starting candidates, never longer. |
| Solver.ReplayConsistent | codebreaker.py:45-48 | Every code that survives repeated pruning agrees with the secret on the feedback of every guess played. |
| Solver.PartitionIsPrune | codebreaker.py:54 | The `Counter` group of feedback `f` under a guess has as many members as the candidates that would survive if `f` came back. |
| Solver.WorstCase | codebreaker.py:55 | The worst case is 0 with no candidates (`default=0`), and otherwise between 1 and the number of candidates. |
| Solver.WorstCaseIsLargestGroup | codebreaker.py:54-55 | No feedback group exceeds the worst case, and when there are candidates some group reaches it. |
| Solver.WorstCaseIsLargestSurvivorSet | codebreaker.py:54-55 | No feedback can leave more candidates than the worst case, and some feedback leaves exactly that many. |
| Solver.SelectGuess | codebreaker.py:50-62 | The code returned is in the codespace and has the least worst case of all codes. If some code of least worst case is a candidate, the one returned is a candidate. Every code scanned before it is strictly worse, or is a non-candidate while it is a candidate. |
| Solver.MinimaxChoiceUnique | codebreaker.py:56-60 | The tie-break determines the choice: two codes that both meet it are the same code. |
| Solver.ChoiceIsFirstPreferred | codebreaker.py:56-60 | When some code of least worst case is a candidate, the choice is the first such candidate in scan order. Otherwise it is the first code of least worst case. |
| Solver.NoCandidatesChoosesFirst | codebreaker.py:55-62 | With no candidates, every worst case is 0 and the first code of the codespace is chosen. No error is raised. |
| Solver.SingleCandidateIsChosen | codebreaker.py:54-62 | With a single candidate left, drawn from the codespace, that candidate is the guess. |
| Solver.CodebreakerAI.constructor | codebreaker.py:34-37 | `possible` is the full 1296-code product over "123456" of length 4, and `candidates` is a copy of it. |
| Solver.CodebreakerAI.FirstGuess | codebreaker.py:39-40 | Returns "1122", a code of the codespace, and changes no state. |
| Solver.CodebreakerAI.NextGuess | codebreaker.py:42-63 | `possible` is unchanged. `candidates` becomes the pruned list, which never grows. Every old candidate consistent with the feedback survives, the true secret among them. The guess returned is the minimax choice over the codespace against the new candidates. |

## Left out

- `main` and everything it drives (codebreaker.py:66-172): pygame set-up, the event loop, keyboard entry of the secret, drawing and the frame clock. These are I/O and user interface.
- The game's turn and termination policy (codebreaker.py:119-128): the win test `black == 4`, the turn limit `MAX_TURNS`, and the `await_next` and `game_over` flags. This is caller-side bookkeeping inside the event loop.
- Any proof that every secret is solved within `MAX_TURNS`. That would need an exhaustive computation over all 1296 secrets, not a structural argument.
- `itertools.product` and `collections.Counter` are not modelled as library calls. The explicit `Product` and multisets take their place.
- Scorer.GetFeedback: there is no error for codes of different lengths. As written, `zip` stops at the shorter code, and the model follows that behaviour for all lengths.
- Solver.CodebreakerAI.NextGuess: there is no error for an empty candidate set, because the code raises none and continues with `default=0` (see Solver.NoCandidatesChoosesFirst).
- Solver.SelectGuess: requires a non-empty codespace. On an empty one the source would return `None`, and that case cannot arise from the constructor.
- Solver.CodebreakerAI.NextGuess: the feedback is a `Feedback` pair, whereas the source unpacks any 2-tuple. Any other shape would fail in Python before pruning.
- Python lists are values here. The aliasing between `possible` and the copy in `candidates` is not modelled, and neither is the cost of `guess in self.candidates`.
