# Wordle solver — a Dafny model

This project models the core of a Wordle solver. A guess is scored against the answer as a row of
hints: CORRECT_SPOT, WRONG_SPOT and NO_SPOT, plus UNKNOWN for a cell the user has not set. A word
list is filtered by every hint row so far, using the per-row minimum letter counts the hints imply.
Three strategies pick the next guess:

- the first surviving word;
- the permutation strategy, whose search is disabled, so it also returns the first surviving word (it still builds a character tree);
- the scored-letters strategy, which scores candidates by per-column letter frequencies.

A benchmark plays one game per shuffled answer with a strategy and keeps a guess-count
distribution, a worst case, averages and progress reports. The app keeps a ROWS x COLS grid of
hints and the list of words shown, in place. The user cycles a cell's hint with clicks. An edit
clears the later rows. The grid is handed to the strategy as hint rows, and the next word's row
is prefilled with the hints its letters inherit.

Modules, one concern each:

- `Model` (`model.dfy`): the grid size, `Position`, the click cycle, `Hint`, `Strategy`.
- `Util` (`util.dfy`): letter counts, the minimum count per hint, the hint check, the filters.
- `Hints` (`hints.dfy`): the two-pass feedback of `getHints`, and the correct-answer test.
- `Shuffle` (`shuffle.dfy`): Fisher–Yates over an array.
- `FirstUnfiltered` and `TryBestPermutations` (`first_unfiltered.dfy`).
- `CharTree` (`char_tree.dfy`): the trie built in place.
- `ScoredLetters` (`scored_letters.dfy`).
- `Benchmark` and `BenchmarkWorker` (`benchmark.dfy`, `benchmark_worker.dfy`).
- `HintState` (`hint_state.dfy`): the grid as values, and what every app operation computes.
- `SrcApp` and `DocsApp` (`src_app.dfy`, `docs_app.dfy`): the two app versions as classes over a 2-D array.

Loops in the source are methods with loop invariants, proved against specification functions:

- `countChars` is proved against `Count`;
- `calculateN` against `PositiveCount`;
- `getHints` against `Feedback`;
- `shuffle` against `Shuffled`;
- `calculateLetterFrequency` against `LetterFrequencies`;
- the candidate loop of `provideNextWord` against `WordScore`;
- the game loop against `Game`;
- the benchmark loop against `After`, `Final` and `Reports`;
- the app methods against the `HintState` functions.

Every word the app shows has COLS letters. The app classes keep, as an invariant, that rows below
the last word are blank. They also keep that no cell contradicts a hint it inherits from an
earlier row.

## Model

| member | source | states |
|---|---|---|
| Model.Position.Code | src/model.js:14-19 | each hint value carries a code below 4 |
| Model.PositionCodes | src/model.js:14-19 | UNKNOWN=0, CORRECT_SPOT=1, WRONG_SPOT=2, NO_SPOT=3, and no two hint values share a code |
| Model.IndexOfHint | src/App.js:128 | indexOf in [NO_SPOT, WRONG_SPOT, CORRECT_SPOT]: a found index points at the value; -1 exactly for a value not in the list (UNKNOWN) |
| Model.NextHint | src/App.js:127-129 | a click always moves a cell to a different value, and that value is one of the three real hints |
| Model.NextHintCycle | src/model.js:26-30 | clicks walk UNKNOWN→NO_SPOT→WRONG_SPOT→CORRECT_SPOT→NO_SPOT |
| Util.CountIsMultiplicity | src/util.js:84-89 | the letter count of a string is the multiplicity of the letter in its multiset of letters |
| Util.CountPositiveIffIn | src/util.js:84-89 | a letter is counted at least once exactly when it occurs |
| Util.IndexOf | src/util.js:86 | `indexOf(c, from)`: -1 when no `c` at or after `from`, else the first such position |
| Util.CountChars | src/util.js:84-89 | the indexOf-hopping loop returns the number of positions holding the letter |
| Util.PositiveCountBound | src/util.js:119-129 | the minimum count of a letter is at most the row length, and 0 when the row lacks the letter |
| Util.PositiveCountAppend | src/util.js:119-129 | the minimum count of a letter adds up over concatenated rows |
| Util.CalculateN | src/util.js:119-129 | the loop returns the number of hints for the letter that are CORRECT_SPOT or WRONG_SPOT |
| Util.MatchesHintMeaning | src/util.js:61-75 | NO_SPOT with n=0 holds iff the word lacks the letter; CORRECT_SPOT with n≥1 forces the letter into the column; WRONG_SPOT with n≥1 forces it into the word but out of the column; UNKNOWN always holds |
| Util.AddCountsToHints | src/util.js:108-110 | one pair per hint, in order, each with that letter's minimum count in the same row |
| Util.AddCountsToGrid | src/util.js:17 | one counted row per hint row, in order |
| Util.ConsistentRows | src/util.js:28-35 | a word fits a grid iff it fits every row on its own |
| Util.ConsistentAppend | src/util.js:28-35 | a word fits a grid plus a row iff it fits the grid and the row |
| Util.Filter | src/util.js:18 | the result is a subsequence, and holds exactly the elements that pass, each as many times as the input has it |
| Util.FilterFirst | src/algorithms/firstUnfiltered.js:12 | the filter is empty iff no element passes; otherwise its first element is the first passing element |
| Util.FilterWordsForHint | src/util.js:47-49 | a subsequence of the words, holding exactly those matching the hint with the given n |
| Util.FilterWordsForHintGrid | src/util.js:16-19 | a subsequence of the words, holding exactly those that fit every row, with their multiplicities |
| Util.FilterEmptyGrid | src/util.js:16-19 | an empty grid keeps every word |
| Util.FilterIdempotent | src/util.js:16-19 | filtering again by the same grid changes nothing |
| Util.FilterAppendRow | src/util.js:16-19 | adding a row filters the previous survivors by that row, so the result never grows |
| Hints.GetHints | src/util.js:138-164 | the two loops return exactly the feedback function |
| Hints.ExactHintsLength | src/util.js:141-148 | the first pass emits one hint per column where the guess and the answer agree |
| Hints.ExactHintsElems | src/util.js:141-148 | each first-pass hint is CORRECT_SPOT for a matching column, with the guess's letter |
| Hints.ExactHintsOrder | src/util.js:141-148 | first-pass hints are in increasing column order |
| Hints.ExactHintsCovers | src/util.js:141-148 | every matching column gets a first-pass hint |
| Hints.HintsUpToLength | src/util.js:149-162 | after k columns of the second pass: all exact hints plus one hint per mismatched column below k |
| Hints.HintsUpToElems | src/util.js:149-162 | each hint names a column of the guess with its letter, is CORRECT_SPOT exactly where guess and answer agree, and a non-exact hint is only for a column below k |
| Hints.HintsUpToOrder | src/util.js:149-162 | exact hints come first, then mismatches, each group in column order |
| Hints.HintsUpToCovers | src/util.js:149-162 | every matching column, and every column below k, has a hint |
| Hints.FeedbackShape | src/util.js:138-164 | one hint per column, with the guess's letter; CORRECT_SPOT exactly where guess and answer agree; exact hints first, then mismatches, each in column order |
| Hints.ExactPositiveBound | src/util.js:141-148 | the positive first-pass hints for a letter never exceed its count in the answer prefix |
| Hints.HintsUpToPositiveBound | src/util.js:153-155 | the CORRECT/WRONG hints for a letter never exceed its count in the answer |
| Hints.HintsUpToMismatchRule | src/util.js:152-155 | a mismatch hint is WRONG_SPOT iff the positive hints before it for that letter, plus one, do not exceed its count in the answer |
| Hints.FeedbackPositiveBound | src/util.js:138-164 | in the whole feedback, the positive hints for a letter never exceed its occurrences in the answer |
| Hints.FeedbackMismatchRule | src/util.js:153-155 | the WRONG_SPOT/NO_SPOT rule holds at every mismatched hint of the full feedback |
| Hints.FeedbackHintMatches | src/util.js:61-75 | each hint of the feedback, with its row's minimum count, is matched by the answer |
| Hints.FeedbackConsistent | src/util.js:138-164 | the answer fits the row of its own feedback |
| Hints.FeedbackNeverExcludesAnswer | src/util.js:16-19 | an answer that survives a grid still survives after its own feedback row is added |
| Hints.FeedbackSelf | src/util.js:171-173 | guessing the answer gives all CORRECT_SPOT, so isCorrectAnswer holds |
| Hints.FeedbackSolvedIff | src/util.js:171-173 | for equal lengths, the feedback is all CORRECT_SPOT iff the guess is the answer |
| Hints.MeleeExactPass | src/util.js:141-148 | MELEE against EVADE: the first pass emits only the E in the last column |
| Hints.MeleeExample | src/util.js:91-97 | MELEE against EVADE gives E4 CORRECT, M0 NO, E1 WRONG, L2 NO, E3 NO: exactly two Es are counted positive |
| Shuffle.Swap | src/util.js:218 | the two cells are exchanged and every other cell is kept |
| Shuffle.SwapPermutes | src/util.js:218 | a swap keeps the multiset of elements |
| Shuffle.SwapElements | src/util.js:218 | the in-place swap leaves the array as Swap of its old contents, with the same multiset |
| Shuffle.Shuffle | src/util.js:208-221 | returns the same array, now holding the shuffle for the given picks, a permutation of its old contents |
| FirstUnfiltered.FirstUnfiltered | src/algorithms/firstUnfiltered.js:11-13 | none iff no word fits the grid; otherwise a word that fits, and no earlier word of the list does; the options play no part |
| FirstUnfiltered.FirstUnfilteredEmptyGrid | src/algorithms/firstUnfiltered.js:11-12 | with the empty grid the result is the first word, or none for an empty list |
| TryBestPermutations.TryBestPermutations | src/algorithms/tryBestPermutations.js:53-56 | always the same word as the first-surviving strategy |
| CharTree.CharNode.constructor | src/algorithms/tryBestPermutations.js:35-37 | a node holds the given string and no children |
| CharTree.CharTree.WalkSpellsPath | src/algorithms/tryBestPermutations.js:40-43 | any node reached from the root spells the letters followed to reach it |
| CharTree.CharTree.WalkFindsIndexed | src/algorithms/tryBestPermutations.js:15-28 | every path that has a node is reached by following its letters from the root |
| CharTree.CharTree.NodesArePrefixes | src/algorithms/tryBestPermutations.js:18-25 | a path has a node iff it is empty or a prefix of an inserted word |
| CharTree.CharTree.WordsReachable | src/algorithms/tryBestPermutations.js:15-28 | every inserted word is reached from the root, at a node spelling it |
| CharTree.CharTree.constructor | src/algorithms/tryBestPermutations.js:16 | the tree starts as the root, which holds the empty string |
| CharTree.CharTree.AddChild | src/algorithms/tryBestPermutations.js:21-23 | the new child spells the parent's string plus the letter; only that map entry and that node are added |
| CharTree.CharTree.Descend | src/algorithms/tryBestPermutations.js:19-24 | the cursor moves to the node of the next prefix; existing nodes are kept; only that prefix may be new |
| CharTree.CharTree.Insert | src/algorithms/tryBestPermutations.js:17-26 | one word is inserted: the tree stays well formed, no existing node is replaced, new nodes are prefixes of the word |
| CharTree.BuildTree | src/algorithms/tryBestPermutations.js:15-28 | after all words are inserted, following any word's letters from the root reaches a node whose string is that word |
| ScoredLetters.Frequency | src/algorithms/scoredLettersAlgorithm.js:72-91 | a letter's share of a column lies in [0, 1] and is positive iff some word has the letter there |
| ScoredLetters.LetterFrequenciesMeaning | src/algorithms/scoredLettersAlgorithm.js:72-91 | a letter has an entry iff it occurs in the column; reading it gives count/total; every entry lies in [0, 1] |
| ScoredLetters.FrequenciesInRange | src/algorithms/scoredLettersAlgorithm.js:72-91 | every entry of the tables lies in [0, 1] |
| ScoredLetters.ColumnSharesSumToOne | src/algorithms/scoredLettersAlgorithm.js:72-91 | when every answer reaches the column, the entries of that column sum to 1 |
| ScoredLetters.TalliedAll | src/algorithms/scoredLettersAlgorithm.js:80-89 | adding 1/total once per occurrence yields exactly the frequency tables |
| ScoredLetters.CalculateLetterFrequency | src/algorithms/scoredLettersAlgorithm.js:72-91 | the filled array is exactly the frequency tables of the words |
| ScoredLetters.TallyWord | src/algorithms/scoredLettersAlgorithm.js:81-89 | tallying one word's letters counts that word among the tallied words |
| ScoredLetters.TallyLetter | src/algorithms/scoredLettersAlgorithm.js:82-88 | one letter adds 1/total to its entry in its column, creating the entry at 0 when missing |
| ScoredLetters.PercentToScore | src/algorithms/scoredLettersAlgorithm.js:99-101 | the result is the smaller of p and 1 - p |
| ScoredLetters.PercentToScoreProperties | src/algorithms/scoredLettersAlgorithm.js:99-101 | symmetric in p and 1 - p; lies in [0, 1/2] for p in [0, 1]; reaches 1/2 only at p = 1/2 |
| ScoredLetters.ColumnBonusNonNegative | src/algorithms/scoredLettersAlgorithm.js:44-46 | the bonus a new letter earns, summed over the word's columns, is never negative |
| ScoredLetters.ScoreAtLeastOne | src/algorithms/scoredLettersAlgorithm.js:31-49 | a word's score starts at 1 and never decreases letter by letter |
| ScoredLetters.ScoreGuess | src/algorithms/scoredLettersAlgorithm.js:31-49 | the scoring loop returns the word's score |
| ScoredLetters.BestScoreIndex | src/algorithms/scoredLettersAlgorithm.js:25-61 | when a candidate is eligible, the index of an eligible candidate with the highest score, with every earlier candidate scoring strictly less; 0 when none is eligible |
| ScoredLetters.ChooseAmong | src/algorithms/scoredLettersAlgorithm.js:20-62 | a pool word; when some word is eligible, an eligible word with the highest score and the first such in the pool (every earlier eligible word scores strictly less); else the first pool word |
| ScoredLetters.Choose | src/algorithms/scoredLettersAlgorithm.js:14-63 | null iff no answer remains; the single remaining answer as is; otherwise the first highest-scoring eligible pool word, or the first pool word when none is eligible |
| ScoredLetters.ProvideNextWordAsWritten | src/algorithms/scoredLettersAlgorithm.js:14-63 | null iff no answer remains; the single remaining answer as is; otherwise the first highest-scoring word under the inverted last-try filter, or the first pool word when that filter admits none; on the last try with two or more answers left, the guess is NOT a remaining answer whenever the pool holds a non-answer |
| ScoredLetters.ProvideNextWord | src/algorithms/scoredLettersAlgorithm.js:14-63 | null iff no answer remains; the single remaining answer as is; otherwise the first highest-scoring eligible pool word; on the last try the guess is the best-scoring remaining answer, and so fits the grid |
| Benchmark.RunCounts | src/benchmark.js:50-66 | the rest of a game keeps the grid so far, adds at most MAX_GUESSES-1-made calls, and a solved game's count equals its rows |
| Benchmark.RunEnding | src/benchmark.js:52-64 | a solved game ends on an all-CORRECT row; a failed one has no such row |
| Benchmark.RunPlayed | src/benchmark.js:52-64 | each added row is the feedback for the strategy's guess on the grid before it |
| Benchmark.GameShape | src/benchmark.js:50-66 | numGuesses below MAX_GUESSES; 1 to 19 strategy calls; solved means numGuesses = rows = calls and the last row is correct; failed means no correct row |
| Benchmark.GameSolvedMeansAnswerGuessed | src/benchmark.js:55-63 | with guesses of the answer's length: solved means the last guess was the answer; failed means it was never guessed |
| Benchmark.PlayGame | src/benchmark.js:50-66 | the while loop returns the game's guess count and number of strategy calls |
| Benchmark.GameBounds | src/benchmark.js:50-66 | numGuesses < MAX_GUESSES, so the distribution index is in range; 1 to 19 calls |
| Benchmark.GamesBounds | src/benchmark.js:46-77 | the bounds above hold for every answer of the run |
| Benchmark.Counts | src/benchmark.js:70 | slot j holds the number of games that ended with j guesses |
| Benchmark.DistTotal | src/benchmark.js:70 | when every count is in range, the distribution sums to the number of games |
| Benchmark.WorstCaseBound | src/benchmark.js:71-72 | a game's count exceeds the worst case only if a later game failed |
| Benchmark.WorstCaseWitness | src/benchmark.js:71-72 | the worst case is 0 or one of the game counts |
| Benchmark.WorstCaseMeaning | src/benchmark.js:71-72 | the two facts above; a failure in the last game makes it 0; without failures it is the maximum |
| Benchmark.WorstCaseForgetsFailure | src/benchmark.js:71-72 | a failure followed by a solved game is forgotten: [0, n] gives n |
| Benchmark.ThrottleSpacing | src/benchmark.js:73-76 | lastTime is always an earlier clock reading; a report follows a game exactly when more than 500 ms passed since the last one |
| Benchmark.ReportDistribution | src/benchmark.js:67-72 | after game k, totalWords = k and the distribution sums to k |
| Benchmark.ReportAverageCase | src/benchmark.js:69 | the average case lies between 1 and MAX_GUESSES-1 |
| Benchmark.ReportWorstCase | src/benchmark.js:71-72 | the worst case stays below MAX_GUESSES, and is 0 right after a failed game |
| Benchmark.BenchmarkResult.constructor | src/benchmark.js:32-39 | the record starts at zero around the given distribution |
| Benchmark.AfterStep | src/benchmark.js:67-72 | from one game to the next: one more in slot n, worst case replaced when n is larger or 0, progress i/len, both averages recomputed |
| Benchmark.RecordGame | src/benchmark.js:67-72 | the record in place moves from its state after i games to its state after i+1 |
| Benchmark.PlayAndRecord | src/benchmark.js:49-72 | plays game i and records it; the call total grows by that game's calls |
| Benchmark.GameStep | src/benchmark.js:47-76 | one pass of the for loop: the record, call total, lastTime and reports all move on by one game |
| Benchmark.Finish | src/benchmark.js:78-79 | progress becomes 1 and the final report is the final record |
| Benchmark.RunGames | src/benchmark.js:43-80 | after all games the record is Final and the reports are the throttled ones |
| Benchmark.Benchmark | src/benchmark.js:29-81 | the shuffled answers are played; the result is Final over 20 slots; reports are the initial one, the throttled ones and the final one |
| BenchmarkWorker.ZeroedSlots | src/benchmarkWorker.js:46-48 | a fresh array of n zeros |
| BenchmarkWorker.LastSlotUnused | src/benchmarkWorker.js:46-48 | the 21st slot (index MAX_GUESSES) stays 0 at the end, since no game records 20 guesses |
| BenchmarkWorker.BenchmarkInWorker | src/benchmarkWorker.js:35-87 | as the benchmark, with 21 slots; messages are the throttled reports and the final one, with no initial one |
| HintState.BlankRow | src/App.js:69-72 | COLS cells, all UNKNOWN |
| HintState.BlankGrid | src/App.js:66-74 | ROWS x COLS cells, all UNKNOWN |
| HintState.FirstRowWith | src/App.js:231-239 | the earliest row before `row` whose word has the letter in the column, or `row` when none does |
| HintState.PreviousHintEarlierRows | src/App.js:231-239 | a cell's previous hint depends only on the earlier rows' words and cells in its column |
| HintState.Cycle | src/App.js:127-129 | only cell (i, j) changes, to its next hint, which differs from the old value and is never UNKNOWN |
| HintState.ClearAfter | src/App.js:143-151 | rows up to r are kept; every later row is blank |
| HintState.ClickKeepsInvariant | src/App.js:122-132 | an accepted click followed by clearing keeps inherited hints intact and the rows below the words blank |
| HintState.HasNewHintMeaning | src/App.js:196-207 | while inherited hints are intact, the last row is new iff a cell inheriting nothing has been set |
| HintState.InheritedRowOrNoSpot | docs/App.js:244-251 | the docs prefill: every cell is set, never UNKNOWN |
| HintState.PrefillsInherit | src/App.js:213-217 | both prefills give each cell its inherited hint; the docs one gives NO_SPOT where nothing is inherited |
| HintState.AppendKeepsInvariant | src/App.js:209-219 | appending a word with an inheriting row keeps the invariant and blank rows below |
| HintState.OverflowKeepsInvariant | src/App.js:211 | a word pushed past the last row breaks no inherited hint |
| HintState.GridHints | src/App.js:178-194 | one hint row per word; hint j is (letter j of the word, j, cell [i][j]) |
| HintState.SolvedRow | docs/App.js:214-215 | an assembled row is a correct answer iff its cells are all CORRECT_SPOT |
| SrcApp.ProvideNextWord | src/App.js:98-102 | the selected strategy's word, or FIRST's when the id is not registered |
| SrcApp.ProvideNextWordIsFull | src/App.js:98-102 | with a registry of full-word strategies, any word offered has COLS letters |
| SrcApp.App.constructor | src/App.js:66-79 | an all-UNKNOWN grid; the words are FIRST's word for the empty grid |
| SrcApp.App.SelectAlgorithm | src/App.js:86-89 | only the selected strategy id changes |
| SrcApp.App.GetPreviousHint | src/App.js:231-239 | the scan returns the previous hint of the cell |
| SrcApp.App.ClearStateAfterRow | src/App.js:143-151 | words are cut to r+1 and the grid becomes ClearAfter of the old grid |
| SrcApp.App.Click | src/App.js:122-132 | refresh iff the click is accepted; then the cell cycles and later rows clear; otherwise nothing changes |
| SrcApp.App.ApplyClick | src/App.js:127-130 | an accepted click cycles the cell, clears later rows and keeps the invariant |
| SrcApp.App.AssembleGrid | src/App.js:178-194 | the assembled grid is GridHints of the cells and words |
| SrcApp.App.CheckNewHint | src/App.js:196-207 | the loop decides whether the last row holds a new hint |
| SrcApp.App.Prefill | src/App.js:213-217 | only the new last row changes, to the inherited row |
| SrcApp.App.RefreshWords | src/App.js:174-220 | a word list past the grid throws; no new hint asks nothing; otherwise the strategy's word, if any, is appended with its row prefilled, or overflows past the last row |
| SrcApp.App.AppendWord | src/App.js:209-219 | the word is appended; below the last row its row is prefilled; at the last row the prefill throws and the cells are unchanged |
| DocsApp.App.constructor | docs/App.js:63-83 | the initial configuration; a blank grid; no words; one request issued, with refresh id 1 |
| DocsApp.App.UpdateConfig | docs/App.js:89-109 | only the strategy id of the configuration changes, followed by a reset |
| DocsApp.App.Reset | docs/App.js:111-117 | every cell UNKNOWN, no words, and a new request for the empty grid under the next refresh id |
| DocsApp.App.GetPreviousHint | docs/App.js:265-273 | the scan returns the previous hint of the cell |
| DocsApp.App.ClearStateAfterRow | docs/App.js:158-166 | words are cut to r+1 and the grid becomes ClearAfter of the old grid |
| DocsApp.App.Click | docs/App.js:137-147 | refresh iff the click is accepted; then the cell cycles and later rows clear; otherwise nothing changes |
| DocsApp.App.ApplyClick | docs/App.js:142-145 | an accepted click cycles the cell, clears later rows and keeps the invariant |
| DocsApp.App.AssembleGrid | docs/App.js:196-212 | the assembled grid is GridHints of the cells and words |
| DocsApp.App.CheckNewHint | docs/App.js:217-230 | the loop decides whether the last row holds a new hint |
| DocsApp.App.Prefill | docs/App.js:244-251 | only the new last row changes, to the inherited-or-NO_SPOT row |
| DocsApp.App.PrefillCell | docs/App.js:245-250 | one column of the new row gets its inherited hint, or NO_SPOT |
| DocsApp.App.RefreshWords | docs/App.js:192-233 | overflow past the grid throws; a solved last row or a row with nothing new issues no request; otherwise a request for the assembled grid under a fresh refresh id |
| DocsApp.App.Receive | docs/App.js:237-253 | a stale id or an empty word changes nothing; otherwise the word is appended and its row prefilled, or overflows past the last row |
| DocsApp.App.AppendWord | docs/App.js:242-252 | the word is appended; below the last row its row is prefilled with inherited-or-NO_SPOT; past it the cells are unchanged |

## Left out

- DOM and rendering (`el`, `#initGridView` element creation, `#refreshView`, the CSS maps, the benchmark and algorithm-control components): the app cells are the 2-D array only.
- `debounce`: `Click` returns whether a refresh would be scheduled instead of running a timer. The debounced call is `RefreshWords`.
- `Date.now`: time is a sequence of clock readings passed in. `clock[0]` is the start, and `clock[i]` is the reading after game i.
- `Math.random`: the shuffle takes the chosen swap indices as `picks`.
- Worker, promise and message plumbing (`await`, `postMessage`, the worker's `message` listener, the pending-request map): strategies are pure functions. The docs app's asynchronous strategy call is a `Requested(id, grid)` outcome plus a later `Receive(id, word)` event. The worker's messages and the benchmark's `onProgress` calls are sequences of snapshots.
- `onProgress` receives the same mutable result object every time. The model records a snapshot per call, so later mutation of an already reported object is not modelled.
- `console.log` in the permutation strategy: output only.
- The word lists and the strategy registry contents are parameters. The benchmark takes the answer list, and the scored-letters strategy takes the answers and the non-answers.
- `hardMode` and the other options: no strategy reads them. They are passed where the source passes them and are otherwise unused.
- `calculateBestGuess`: dead code whose only call is commented out.
- `matchesHint`'s `default: throw`: `Position` is a closed datatype, so no other value exists.
- The JavaScript `Hint` objects the app assembles also carry `n: 0`. No reader uses that field, so `Hint` has no `n`.
- Floating point: letter shares and scores are exact reals. The repeated `+= 1/total` is exact, and the `0.9999` comparison is exact. The benchmark's `progress`, `averagePerformance` and `averageCase`, in both the page and the worker versions, are exact `real` quotients too, so the bounds proved about them hold for the exact values and not for the rounded doubles. Nothing branches on these numbers.
- SrcApp.App.constructor: requires FIRST's word for the empty grid to be non-empty. With an empty word, the source would later call `charAt` on an undefined word and throw.
- Word length: the app classes and strategy registries require words of exactly COLS letters. The scored-letters strategy requires words of at most COLS letters, because longer words index a missing frequency column and throw.
- The app's row limit: a strategy word pushed when ROWS words are already shown makes the prefill throw. It is modelled as the `RowOverflow` outcome, which keeps the word appended and leaves the cells unchanged. A later refresh that reads past the grid is `GridOverflow`.

## Findings

| source | as written | input that shows it | evidently intended | confidence | as-written member | corrected member |
|---|---|---|---|---|---|---|
| src/algorithms/scoredLettersAlgorithm.js:27-29 | `isPossibleAnswer` is true for words NOT among the remaining answers, so on the last try (`ROWS - hintSets.length <= 1`) every remaining answer is skipped and only non-answers are scored | five hint rows (one guess left), two answers still consistent with them, and a pool that also holds a non-answer word: the guess returned is a non-answer, so the game is certainly lost | on the last try, only remaining answers are candidates ("Last try, make it count"), so the guess always fits the grid | not executed | ScoredLetters.ProvideNextWordAsWritten | ScoredLetters.ProvideNextWord |
