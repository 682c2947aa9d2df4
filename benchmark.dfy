/**
 * The benchmark: every answer, in shuffled order, is played as a game
 * against a strategy, and the number of guesses per game is aggregated
 * into a distribution, a worst case and averages, with throttled progress
 * reports. The strategy is any function from the hint grid so far to an
 * optional word; the clock readings are an input.
 */
module Benchmark {
  import opened Wrappers
  import opened Model
  import opened Hints
  import opened Shuffle

  /** Games that need this many guesses or more count as failures. */
  const MAX_GUESSES: nat := 20

  /** A progress report is sent only once this many milliseconds have passed since the last. */
  const THROTTLE_MS: int := 500

  // ---------------------------------------------------------------------
  // One game
  // ---------------------------------------------------------------------

  /**
   * How a game ends: the number of guesses it took (0 for a failure), how
   * many times the strategy was asked, and the hint grid built.
   */
  datatype GameResult = GameResult(numGuesses: nat, calls: nat, grid: seq<seq<Hint>>)

  /**
   * The rest of a game against `answer` after `made` guesses that produced
   * `grid`: the loop counter is raised first, reaching MAX_GUESSES ends the
   * game as a failure, a falsy guess ends it as a failure, and a guess whose
   * hints are all CorrectSpot ends it as solved.
   */
  function Run(answer: string, strategy: Strategy, grid: seq<seq<Hint>>, made: nat): GameResult
    decreases MAX_GUESSES - made
  {
    if made + 1 >= MAX_GUESSES then GameResult(0, 0, grid)
    else
      var nextGuess := strategy(grid);
      if Falsy(nextGuess) then GameResult(0, 1, grid)
      else
        var hints := Feedback(nextGuess.value, answer);
        if IsCorrectAnswer(hints) then GameResult(made + 1, 1, grid + [hints])
        else
          var rest := Run(answer, strategy, grid + [hints], made + 1);
          rest.(calls := rest.calls + 1)
  }

  /** The whole game against `answer`. */
  function Game(answer: string, strategy: Strategy): GameResult
  {
    Run(answer, strategy, [], 0)
  }

  /**
   * Each row a game adds is the hint row for the strategy's guess at that
   * point, and no row before the last is all CorrectSpot.
   */
  ghost predicate PlayedRows(answer: string, strategy: Strategy, grid: seq<seq<Hint>>, from: nat, last: nat)
    requires from <= last <= |grid|
  {
    forall k :: from <= k < last ==>
      && !Falsy(strategy(grid[..k]))
      && grid[k] == Feedback(strategy(grid[..k]).value, answer)
      && (k + 1 < |grid| ==> !IsCorrectAnswer(grid[k]))
  }

  /**
   * The counts of the rest of a game: fewer than MAX_GUESSES guesses in
   * all, the earlier rows kept, at least one question to the strategy unless
   * the limit is already reached, and a solved game took exactly as many
   * guesses as rows and as many questions as new rows.
   */
  lemma {:induction false} RunCounts(answer: string, strategy: Strategy, grid: seq<seq<Hint>>, made: nat)
    requires |grid| == made && made < MAX_GUESSES
    ensures var r := Run(answer, strategy, grid, made);
      && r.numGuesses < MAX_GUESSES
      && made <= |r.grid| < MAX_GUESSES && r.grid[..made] == grid
      && r.calls <= MAX_GUESSES - 1 - made
      && (made + 1 < MAX_GUESSES ==> r.calls >= 1)
      && (r.numGuesses > 0 ==> r.numGuesses == |r.grid| && r.calls == |r.grid| - made)
    decreases MAX_GUESSES - made
  {
    if made + 1 < MAX_GUESSES {
      var nextGuess := strategy(grid);
      if !Falsy(nextGuess) {
        var hints := Feedback(nextGuess.value, answer);
        var grid' := grid + [hints];
        assert grid'[..made] == grid;
        if !IsCorrectAnswer(hints) {
          RunCounts(answer, strategy, grid', made + 1);
          var rest := Run(answer, strategy, grid', made + 1);
          assert rest.grid[..made] == rest.grid[..made + 1][..made];
        }
      }
    }
  }

  /** No row of the grid is all CorrectSpot. */
  ghost predicate NoSolvedRow(grid: seq<seq<Hint>>)
  {
    forall k :: 0 <= k < |grid| ==> !IsCorrectAnswer(grid[k])
  }

  /** Appending an unsolved row keeps a grid free of solved rows. */
  lemma NoSolvedRowSnoc(grid: seq<seq<Hint>>, row: seq<Hint>)
    requires NoSolvedRow(grid) && !IsCorrectAnswer(row)
    ensures NoSolvedRow(grid + [row])
  {
    forall k | 0 <= k < |grid| + 1
      ensures !IsCorrectAnswer((grid + [row])[k])
    {
      if k < |grid| {
        assert (grid + [row])[k] == grid[k];
      }
    }
  }

  /**
   * How the rest of a game ends: a solved game's last row is all
   * CorrectSpot, and a failed game has no such row.
   */
  lemma {:induction false} RunEnding(answer: string, strategy: Strategy, grid: seq<seq<Hint>>, made: nat)
    requires |grid| == made && made < MAX_GUESSES && NoSolvedRow(grid)
    ensures var r := Run(answer, strategy, grid, made);
      && (r.numGuesses > 0 ==> |r.grid| > 0 && IsCorrectAnswer(r.grid[|r.grid| - 1]))
      && (r.numGuesses == 0 ==> NoSolvedRow(r.grid))
    decreases MAX_GUESSES - made
  {
    if made + 1 < MAX_GUESSES {
      var nextGuess := strategy(grid);
      if !Falsy(nextGuess) {
        var hints := Feedback(nextGuess.value, answer);
        if !IsCorrectAnswer(hints) {
          NoSolvedRowSnoc(grid, hints);
          RunEnding(answer, strategy, grid + [hints], made + 1);
        }
      }
    }
  }

  /**
   * The rows the rest of a game adds: each new row is the feedback for the
   * guess made at that point, and none before the last is all CorrectSpot.
   */
  lemma {:induction false} RunPlayed(answer: string, strategy: Strategy, grid: seq<seq<Hint>>, made: nat)
    requires |grid| == made && made < MAX_GUESSES
    ensures var r := Run(answer, strategy, grid, made);
      made <= |r.grid| && PlayedRows(answer, strategy, r.grid, made, |r.grid|)
    decreases MAX_GUESSES - made
  {
    RunCounts(answer, strategy, grid, made);
    if made + 1 < MAX_GUESSES {
      var nextGuess := strategy(grid);
      if !Falsy(nextGuess) {
        var hints := Feedback(nextGuess.value, answer);
        var grid' := grid + [hints];
        if !IsCorrectAnswer(hints) {
          RunPlayed(answer, strategy, grid', made + 1);
          RunCounts(answer, strategy, grid', made + 1);
          var rest := Run(answer, strategy, grid', made + 1);
          assert rest.grid[..made + 1] == grid';
          assert rest.grid[..made] == grid by {
            assert rest.grid[..made] == rest.grid[..made + 1][..made];
            assert grid'[..made] == grid;
          }
          assert rest.grid[made] == hints;
        } else {
          assert grid'[..made] == grid;
        }
      }
    }
  }

  /** A whole game: its shape, starting from an empty grid. */
  lemma GameShape(answer: string, strategy: Strategy)
    ensures var r := Game(answer, strategy);
      && r.numGuesses < MAX_GUESSES
      && 1 <= r.calls < MAX_GUESSES
      && (r.numGuesses > 0 ==>
            r.numGuesses == |r.grid| == r.calls && IsCorrectAnswer(r.grid[|r.grid| - 1]))
      && (r.numGuesses == 0 ==> NoSolvedRow(r.grid))
      && PlayedRows(answer, strategy, r.grid, 0, |r.grid|)
  {
    RunCounts(answer, strategy, [], 0);
    RunEnding(answer, strategy, [], 0);
    RunPlayed(answer, strategy, [], 0);
  }

  /**
   * A game is solved exactly when the strategy names the answer in time:
   * when every guess has the answer's length, a solved game's last guess is
   * the answer itself and a failed game never guessed it.
   */
  lemma GameSolvedMeansAnswerGuessed(answer: string, strategy: Strategy)
    requires forall g :: strategy(g).Some? ==> |strategy(g).value| == |answer|
    ensures var r := Game(answer, strategy);
      && (r.numGuesses > 0 ==> |r.grid| > 0 && strategy(r.grid[..|r.grid| - 1]) == Some(answer))
      && (r.numGuesses == 0 ==> forall k :: 0 <= k < |r.grid| ==> strategy(r.grid[..k]) != Some(answer))
  {
    var r := Game(answer, strategy);
    GameShape(answer, strategy);
    if r.numGuesses > 0 {
      var k := |r.grid| - 1;
      FeedbackSolvedIff(strategy(r.grid[..k]).value, answer);
    } else {
      forall k | 0 <= k < |r.grid| ensures strategy(r.grid[..k]) != Some(answer) {
        FeedbackSolvedIff(strategy(r.grid[..k]).value, answer);
      }
    }
  }

  /**
   * The game loop inside benchmark: asks the strategy for a guess until a
   * falsy guess, an all-CorrectSpot row or the guess limit ends the game.
   */
  method PlayGame(word: string, strategy: Strategy) returns (numGuesses: nat, calls: nat)
    ensures numGuesses == Game(word, strategy).numGuesses
    ensures calls == Game(word, strategy).calls
  {
    var hintGrid: seq<seq<Hint>> := [];
    numGuesses := 1;
    calls := 0;
    while numGuesses < MAX_GUESSES
      invariant 1 <= numGuesses <= MAX_GUESSES && calls == numGuesses - 1
      invariant Run(word, strategy, hintGrid, numGuesses - 1).numGuesses == Game(word, strategy).numGuesses
      invariant Run(word, strategy, hintGrid, numGuesses - 1).calls + calls == Game(word, strategy).calls
      decreases MAX_GUESSES - numGuesses
    {
      var nextGuess := strategy(hintGrid);
      calls := calls + 1;
      if Falsy(nextGuess) {
        numGuesses := 0;
        return;
      }
      var hints := GetHints(nextGuess.value, word);
      hintGrid := hintGrid + [hints];
      if IsCorrectAnswer(hints) {
        return;
      }
      numGuesses := numGuesses + 1;
    }
    numGuesses := 0;
  }

  // ---------------------------------------------------------------------
  // Aggregates over the games played
  // ---------------------------------------------------------------------

  /** The guess counts of the games against `ws`, in order (0: failed). */
  function Games(ws: seq<string>, strategy: Strategy): (r: seq<nat>)
    ensures |r| == |ws|
  {
    seq(|ws|, j requires 0 <= j < |ws| => Game(ws[j], strategy).numGuesses)
  }

  /** How often the strategy was asked in each game against `ws`, in order. */
  function CallsOf(ws: seq<string>, strategy: Strategy): (r: seq<nat>)
    ensures |r| == |ws|
  {
    seq(|ws|, j requires 0 <= j < |ws| => Game(ws[j], strategy).calls)
  }

  /** A game takes fewer than MAX_GUESSES guesses and asks between 1 and MAX_GUESSES - 1 times. */
  lemma GameBounds(answer: string, strategy: Strategy)
    ensures Game(answer, strategy).numGuesses < MAX_GUESSES
    ensures 1 <= Game(answer, strategy).calls < MAX_GUESSES
  {
    RunCounts(answer, strategy, [], 0);
  }

  /** Every game asks the strategy between 1 and MAX_GUESSES - 1 times. */
  lemma CallsBounds(ws: seq<string>, strategy: Strategy)
    ensures CallsInRange(CallsOf(ws, strategy))
  {
    forall j | 0 <= j < |ws|
      ensures 1 <= CallsOf(ws, strategy)[j] < MAX_GUESSES
    {
      GameBounds(ws[j], strategy);
    }
  }

  /** Every game takes fewer than MAX_GUESSES guesses and asks between 1 and MAX_GUESSES - 1 times. */
  lemma GamesBounds(ws: seq<string>, strategy: Strategy)
    ensures forall j :: 0 <= j < |ws| ==> Games(ws, strategy)[j] < MAX_GUESSES
    ensures CallsInRange(CallsOf(ws, strategy))
  {
    forall j | 0 <= j < |ws|
      ensures Games(ws, strategy)[j] < MAX_GUESSES && 1 <= CallsOf(ws, strategy)[j] < MAX_GUESSES
    {
      GameBounds(ws[j], strategy);
    }
  }

  /** Every game asked the strategy at least once and fewer than MAX_GUESSES times. */
  predicate CallsInRange(calls: seq<nat>)
  {
    forall j :: 0 <= j < |calls| ==> 1 <= calls[j] < MAX_GUESSES
  }

  /** The sum of a sequence of counts. */
  function Sum(xs: seq<nat>): nat
  {
    if |xs| == 0 then 0 else Sum(xs[..|xs| - 1]) + xs[|xs| - 1]
  }

  /** A prefix sum grows by the next element. */
  lemma SumPrefixStep(xs: seq<nat>, i: nat)
    requires i < |xs|
    ensures Sum(xs[..i + 1]) == Sum(xs[..i]) + xs[i]
  {
    assert xs[..i + 1][..i] == xs[..i];
  }

  /** The distribution's first `m` slots: slot j holds how many games took j guesses. */
  function Counts(games: seq<nat>, m: nat): (r: seq<nat>)
    ensures |r| == m
    ensures forall j :: 0 <= j < m ==> r[j] == multiset(games)[j]
  {
    if m == 0 then [] else Counts(games, m - 1) + [multiset(games)[m - 1]]
  }

  /**
   * worstCase after the games with guess counts `games`: a game replaces it
   * when it took more guesses or when it failed.
   */
  function WorstCase(games: seq<nat>): nat
  {
    if |games| == 0 then 0
    else
      var w := WorstCase(games[..|games| - 1]);
      var n := games[|games| - 1];
      if n > w || n == 0 then n else w
  }

  /** Adding one game adds one to its own slot and leaves the others alone. */
  lemma CountsSnoc(games: seq<nat>, n: nat, m: nat)
    requires n < m
    ensures Counts(games + [n], m) == Counts(games, m)[n := Counts(games, m)[n] + 1]
  {
    assert multiset(games + [n]) == multiset(games) + multiset{n};
  }

  /** The sum of a sequence with one entry raised by one. */
  lemma {:induction false} SumBump(xs: seq<nat>, n: nat)
    requires n < |xs|
    ensures Sum(xs[n := xs[n] + 1]) == Sum(xs) + 1
  {
    var ys := xs[n := xs[n] + 1];
    if n < |xs| - 1 {
      assert ys[..|ys| - 1] == xs[..|xs| - 1][n := xs[n] + 1];
      SumBump(xs[..|xs| - 1], n);
    } else {
      assert ys[..|ys| - 1] == xs[..|xs| - 1];
    }
  }

  /** One more game in one of the `m` slots raises the slots' total by one. */
  lemma CountsSnocTotal(games: seq<nat>, n: nat, m: nat)
    requires n < m
    ensures Sum(Counts(games + [n], m)) == Sum(Counts(games, m)) + 1
  {
    var c := Counts(games, m);
    CountsSnoc(games, n, m);
    SumBump(c, n);
  }

  /** When every game lands in one of the `m` slots, the slots add up to the number of games. */
  lemma {:induction false} DistTotal(games: seq<nat>, m: nat)
    requires forall j :: 0 <= j < |games| ==> games[j] < m
    ensures Sum(Counts(games, m)) == |games|
  {
    if |games| == 0 {
      SumZeros(Counts(games, m));
    } else {
      var init := games[..|games| - 1];
      assert init + [games[|games| - 1]] == games;
      DistTotal(init, m);
      CountsSnocTotal(init, games[|games| - 1], m);
    }
  }

  /** A sum of counts that are each between 1 and MAX_GUESSES - 1 lies between |xs| and (MAX_GUESSES - 1) * |xs|. */
  lemma {:induction false} SumBounds(xs: seq<nat>)
    requires forall j :: 0 <= j < |xs| ==> 1 <= xs[j] < MAX_GUESSES
    ensures |xs| <= Sum(xs) <= 19 * |xs|
  {
    if |xs| > 0 {
      SumBounds(xs[..|xs| - 1]);
    }
  }

  /** A sequence of zeros sums to zero. */
  lemma {:induction false} SumZeros(xs: seq<nat>)
    requires forall j :: 0 <= j < |xs| ==> xs[j] == 0
    ensures Sum(xs) == 0
  {
    if |xs| > 0 {
      SumZeros(xs[..|xs| - 1]);
    }
  }

  /** worstCase is at least every count not followed by a failed game. */
  lemma {:induction false} WorstCaseBound(games: seq<nat>)
    ensures forall j :: 0 <= j < |games| ==> games[j] <= WorstCase(games) || exists i :: j < i < |games| && games[i] == 0
  {
    if |games| > 0 {
      var init := games[..|games| - 1];
      var last := |games| - 1;
      WorstCaseBound(init);
      forall j | 0 <= j < |games|
        ensures games[j] <= WorstCase(games) || exists i :: j < i < |games| && games[i] == 0
      {
        if j < last {
          assert init[j] == games[j];
          if games[last] == 0 {
            assert j < last && games[last] == 0;
          } else if !(init[j] <= WorstCase(init)) {
            var i :| j < i < |init| && init[i] == 0;
            assert games[i] == 0;
          }
        }
      }
    }
  }

  /** worstCase is 0 or the count of one of the games. */
  lemma {:induction false} WorstCaseWitness(games: seq<nat>)
    ensures WorstCase(games) == 0 || WorstCase(games) in games
  {
    if |games| > 0 {
      var init := games[..|games| - 1];
      WorstCaseWitness(init);
      if WorstCase(init) in init {
        var i :| 0 <= i < |init| && init[i] == WorstCase(init);
        assert games[i] == init[i];
      }
    }
  }

  /**
   * worstCase never exceeds the largest count, is 0 right after a failed
   * game, and while no game has failed it is the largest count so far,
   * taken by some game.
   */
  lemma WorstCaseMeaning(games: seq<nat>)
    ensures forall j :: 0 <= j < |games| ==> games[j] <= WorstCase(games) || exists i :: j < i < |games| && games[i] == 0
    ensures |games| > 0 && games[|games| - 1] == 0 ==> WorstCase(games) == 0
    ensures (forall j :: 0 <= j < |games| ==> games[j] > 0) ==>
      && (forall j :: 0 <= j < |games| ==> games[j] <= WorstCase(games))
      && (|games| > 0 ==> WorstCase(games) in games)
    ensures WorstCase(games) == 0 || WorstCase(games) in games
  {
    WorstCaseBound(games);
    WorstCaseWitness(games);
    if |games| > 0 && forall j :: 0 <= j < |games| ==> games[j] > 0 {
      assert games[0] <= WorstCase(games);
    }
  }

  /**
   * A failure is forgotten once a later game is solved: after a failed game
   * followed by one solved in `n` guesses, worstCase is `n`, not 0.
   */
  lemma WorstCaseForgetsFailure(n: nat)
    requires n > 0
    ensures WorstCase([0, n]) == n
  {
    assert [0, n][..1] == [0];
    assert [0][..0] == [];
  }

  // ---------------------------------------------------------------------
  // Progress reports
  // ---------------------------------------------------------------------

  /** The value of lastTime after `i` games: the clock reading of the last report, or the start. */
  function LastTime(clock: seq<int>, i: nat): int
    requires i < |clock|
  {
    if i == 0 then clock[0]
    else
      var lastTime := LastTime(clock, i - 1);
      if clock[i] - lastTime > THROTTLE_MS then clock[i] else lastTime
  }

  /** Whether the game numbered `i` (from 1) is followed by a progress report. */
  predicate ReportsAfter(clock: seq<int>, i: nat)
    requires 1 <= i < |clock|
  {
    clock[i] - LastTime(clock, i - 1) > THROTTLE_MS
  }

  /**
   * Reports are throttled: lastTime is always one of the clock readings up
   * to now, never later than the latest when the clock does not run back,
   * and a report follows a game exactly when more than THROTTLE_MS have
   * passed since the previous report (or the start).
   */
  lemma {:induction false} ThrottleSpacing(clock: seq<int>, i: nat)
    requires i < |clock|
    ensures exists k :: 0 <= k <= i && LastTime(clock, i) == clock[k]
    ensures (forall a :: 0 < a <= i ==> clock[a - 1] <= clock[a]) ==> clock[0] <= LastTime(clock, i) <= clock[i]
    ensures i > 0 ==> (ReportsAfter(clock, i) ==> LastTime(clock, i) == clock[i])
    ensures i > 0 ==> (!ReportsAfter(clock, i) ==> LastTime(clock, i) == LastTime(clock, i - 1))
  {
    if i > 0 {
      ThrottleSpacing(clock, i - 1);
      if forall a :: 0 < a <= i ==> clock[a - 1] <= clock[a] {
        assert clock[i - 1] <= clock[i];
      }
    }
  }

  /** A snapshot of a BenchmarkResult, as a report carries it. */
  datatype Snapshot = Snapshot(
    progress: real,
    distribution: seq<nat>,
    totalWords: nat,
    averagePerformance: real,
    worstCase: nat,
    averageCase: real)

  /** The result before any game, with `slots` distribution slots. */
  function Initial(slots: nat): Snapshot
  {
    Snapshot(0.0, seq(slots, _ => 0), 0, 0.0, 0, 0.0)
  }

  /**
   * The result right after game `k` (counted from 1) of `total`: progress is
   * the share of games started before it, the distribution and worst case
   * cover the first k games, the performance is the elapsed time per
   * question and the average case the questions per game.
   */
  function After(games: seq<nat>, calls: seq<nat>, clock: seq<int>, slots: nat, k: nat): Snapshot
    requires 1 <= k <= |games| == |calls| && k < |clock|
    requires CallsInRange(calls)
  {
    SumBounds(calls[..k]);
    Snapshot(
      (k - 1) as real / |games| as real,
      Counts(games[..k], slots),
      k,
      (clock[k] - clock[0]) as real / Sum(calls[..k]) as real,
      WorstCase(games[..k]),
      Sum(calls[..k]) as real / k as real)
  }

  /** The result after every game, with progress 1. */
  function Final(games: seq<nat>, calls: seq<nat>, clock: seq<int>, slots: nat): Snapshot
    requires |games| == |calls| < |clock|
    requires CallsInRange(calls)
  {
    if |games| == 0 then Initial(slots).(progress := 1.0)
    else After(games, calls, clock, slots, |games|).(progress := 1.0)
  }

  /** The reports sent during the first `i` games. */
  function Reports(games: seq<nat>, calls: seq<nat>, clock: seq<int>, slots: nat, i: nat): seq<Snapshot>
    requires i <= |games| == |calls| < |clock|
    requires CallsInRange(calls)
  {
    if i == 0 then []
    else Reports(games, calls, clock, slots, i - 1)
         + (if ReportsAfter(clock, i) then [After(games, calls, clock, slots, i)] else [])
  }

  /** A quotient of two reals whose numerator lies between lo and hi times the denominator. */
  lemma QuotientBounds(t: real, k: real, lo: real, hi: real)
    requires k > 0.0 && lo * k <= t <= hi * k
    ensures lo <= t / k <= hi
  {
    var q := t / k;
    assert q * k == t;
  }

  /** A report's distribution slots add up to the number of games played so far. */
  lemma ReportDistribution(games: seq<nat>, calls: seq<nat>, clock: seq<int>, slots: nat, k: nat)
    requires 1 <= k <= |games| == |calls| < |clock| && slots >= MAX_GUESSES
    requires forall j :: 0 <= j < |games| ==> games[j] < MAX_GUESSES
    requires CallsInRange(calls)
    ensures Sum(After(games, calls, clock, slots, k).distribution) == After(games, calls, clock, slots, k).totalWords == k
  {
    DistTotal(games[..k], slots);
  }

  /** A report's average case lies between 1 and MAX_GUESSES - 1 questions per game. */
  lemma ReportAverageCase(games: seq<nat>, calls: seq<nat>, clock: seq<int>, slots: nat, k: nat)
    requires 1 <= k <= |games| == |calls| < |clock|
    requires CallsInRange(calls)
    ensures 1.0 <= After(games, calls, clock, slots, k).averageCase <= (MAX_GUESSES - 1) as real
  {
    var total := Sum(calls[..k]);
    SumBounds(calls[..k]);
    QuotientBounds(total as real, k as real, 1.0, 19.0);
  }

  /** A report's worst case is below MAX_GUESSES, and 0 exactly when the latest game failed or it was never raised. */
  lemma ReportWorstCase(games: seq<nat>, calls: seq<nat>, clock: seq<int>, slots: nat, k: nat)
    requires 1 <= k <= |games| == |calls| < |clock|
    requires forall j :: 0 <= j < |games| ==> games[j] < MAX_GUESSES
    requires CallsInRange(calls)
    ensures After(games, calls, clock, slots, k).worstCase < MAX_GUESSES
    ensures games[k - 1] == 0 ==> After(games, calls, clock, slots, k).worstCase == 0
  {
    WorstCaseMeaning(games[..k]);
  }

  /** The benchmark's result record, updated in place as the games are played. */
  class BenchmarkResult {
    var progress: real
    var distribution: array<nat>
    var totalWords: nat
    var averagePerformance: real
    var worstCase: nat
    var averageCase: real

    /** A fresh record around an already zeroed distribution. */
    constructor (distribution: array<nat>)
      ensures this.distribution == distribution
      ensures progress == 0.0 && totalWords == 0 && averagePerformance == 0.0
      ensures worstCase == 0 && averageCase == 0.0
    {
      progress := 0.0;
      this.distribution := distribution;
      totalWords := 0;
      averagePerformance := 0.0;
      worstCase := 0;
      averageCase := 0.0;
    }

    /** The record's current contents. */
    function Snap(): Snapshot
      reads this, distribution
    {
      Snapshot(progress, distribution[..], totalWords, averagePerformance, worstCase, averageCase)
    }
  }

  /** The record after the first i games: the initial one, or the one after game i. */
  function Recorded(games: seq<nat>, calls: seq<nat>, clock: seq<int>, slots: nat, i: nat): Snapshot
    requires i <= |games| == |calls| < |clock|
    requires CallsInRange(calls)
  {
    if i == 0 then Initial(slots) else After(games, calls, clock, slots, i)
  }

  /**
   * One game's step between reports: game i + 1, solved in n guesses (0 for
   * a failure), bumps slot n, replaces the worst case when n is larger or a
   * failure, and recomputes progress and both averages.
   */
  lemma AfterStep(games: seq<nat>, calls: seq<nat>, clock: seq<int>, slots: nat, i: nat)
    requires i < |games| == |calls| < |clock| && games[i] < slots
    requires CallsInRange(calls)
    ensures var prev := Recorded(games, calls, clock, slots, i);
            var n := games[i];
            var total := Sum(calls[..i + 1]);
      After(games, calls, clock, slots, i + 1) == Snapshot(
        i as real / |games| as real,
        prev.distribution[n := prev.distribution[n] + 1],
        i + 1,
        (clock[i + 1] - clock[0]) as real / total as real,
        if n > prev.worstCase || n == 0 then n else prev.worstCase,
        total as real / (i + 1) as real)
  {
    var before := games[..i];
    assert games[..i + 1] == before + [games[i]];
    assert (before + [games[i]])[..i] == before;
    CountsSnoc(before, games[i], slots);
    if i == 0 {
      assert Counts([], slots) == seq(slots, _ => 0);
    }
  }

  /**
   * The bookkeeping after game i + 1: totalWords, progress, the averages, the
   * game's distribution slot and the worst case.
   */
  method RecordGame(result: BenchmarkResult, ghost games: seq<nat>, ghost calls: seq<nat>, clock: seq<int>,
                    total: nat, i: nat, numGuesses: nat, totalGuesses: nat)
    requires i < total == |games| == |calls| < |clock| && result.distribution.Length >= MAX_GUESSES
    requires CallsInRange(calls)
    requires numGuesses == games[i] < MAX_GUESSES && totalGuesses == Sum(calls[..i + 1])
    requires result.Snap() == Recorded(games, calls, clock, result.distribution.Length, i)
    modifies result, result.distribution
    ensures result.distribution == old(result.distribution)
    ensures result.Snap() == After(games, calls, clock, result.distribution.Length, i + 1)
  {
    AfterStep(games, calls, clock, result.distribution.Length, i);
    SumBounds(calls[..i + 1]);
    result.totalWords := i + 1;
    result.progress := i as real / total as real;
    result.averagePerformance := (clock[i + 1] - clock[0]) as real / totalGuesses as real;
    result.averageCase := totalGuesses as real / (i + 1) as real;
    result.distribution[numGuesses] := result.distribution[numGuesses] + 1;
    if numGuesses > result.worstCase || numGuesses == 0 {
      result.worstCase := numGuesses;
    }
  }

  /** Plays game i + 1 and records it; returns the new number of questions asked. */
  method PlayAndRecord(result: BenchmarkResult, ws: seq<string>, strategy: Strategy, clock: seq<int>,
                       i: nat, totalGuesses: nat) returns (newTotal: nat)
    requires i < |ws| && |clock| == |ws| + 1 && result.distribution.Length >= MAX_GUESSES
    requires totalGuesses == Sum(CallsOf(ws, strategy)[..i]) && CallsInRange(CallsOf(ws, strategy))
    requires result.Snap() == Recorded(Games(ws, strategy), CallsOf(ws, strategy), clock, result.distribution.Length, i)
    modifies result, result.distribution
    ensures result.distribution == old(result.distribution)
    ensures newTotal == Sum(CallsOf(ws, strategy)[..i + 1])
    ensures result.Snap() == After(Games(ws, strategy), CallsOf(ws, strategy), clock, result.distribution.Length, i + 1)
  {
    ghost var games := Games(ws, strategy);
    ghost var calls := CallsOf(ws, strategy);
    var numGuesses, callsMade := PlayGame(ws[i], strategy);
    GameBounds(ws[i], strategy);
    assert games[i] == numGuesses && calls[i] == callsMade;
    SumPrefixStep(calls, i);
    newTotal := totalGuesses + callsMade;
    RecordGame(result, games, calls, clock, |ws|, i, numGuesses, newTotal);
  }

  /**
   * One pass of the loop over the answers: plays and records game i + 1,
   * then reports when more than THROTTLE_MS have passed since the last report.
   */
  method GameStep(result: BenchmarkResult, ws: seq<string>, strategy: Strategy, clock: seq<int>, i: nat,
                  totalGuesses: nat, lastTime: int, reports: seq<Snapshot>)
    returns (newTotal: nat, newLastTime: int, newReports: seq<Snapshot>)
    requires i < |ws| && |clock| == |ws| + 1 && result.distribution.Length >= MAX_GUESSES
    requires CallsInRange(CallsOf(ws, strategy))
    requires result.Snap() == Recorded(Games(ws, strategy), CallsOf(ws, strategy), clock, result.distribution.Length, i)
    requires totalGuesses == Sum(CallsOf(ws, strategy)[..i]) && lastTime == LastTime(clock, i)
    requires reports == Reports(Games(ws, strategy), CallsOf(ws, strategy), clock, result.distribution.Length, i)
    modifies result, result.distribution
    ensures result.distribution == old(result.distribution)
    ensures result.Snap() == After(Games(ws, strategy), CallsOf(ws, strategy), clock, result.distribution.Length, i + 1)
    ensures newTotal == Sum(CallsOf(ws, strategy)[..i + 1]) && newLastTime == LastTime(clock, i + 1)
    ensures newReports == Reports(Games(ws, strategy), CallsOf(ws, strategy), clock, result.distribution.Length, i + 1)
  {
    newTotal := PlayAndRecord(result, ws, strategy, clock, i, totalGuesses);
    newLastTime := lastTime;
    newReports := reports;
    var currTime := clock[i + 1];
    if currTime - lastTime > THROTTLE_MS {
      newLastTime := currTime;
      newReports := reports + [result.Snap()];
    }
  }

  /** Sets progress to 1 once every game is played, and returns the final report. */
  method Finish(result: BenchmarkResult, ghost games: seq<nat>, ghost calls: seq<nat>, clock: seq<int>)
    returns (last: Snapshot)
    requires |games| == |calls| < |clock| && CallsInRange(calls)
    requires result.Snap() == Recorded(games, calls, clock, result.distribution.Length, |games|)
    modifies result
    ensures result.distribution == old(result.distribution)
    ensures last == result.Snap() == Final(games, calls, clock, result.distribution.Length)
  {
    result.progress := 1.0;
    last := result.Snap();
  }

  /**
   * The loop over the shuffled answers shared by both benchmarks: plays each
   * game, updates the record, reports when the clock says so, and finally
   * reports once more with progress 1.
   */
  method RunGames(result: BenchmarkResult, ws: seq<string>, strategy: Strategy, clock: seq<int>)
    returns (reports: seq<Snapshot>)
    requires |clock| == |ws| + 1 && result.distribution.Length >= MAX_GUESSES
    requires result.Snap() == Initial(result.distribution.Length)
    modifies result, result.distribution
    ensures result.distribution == old(result.distribution)
    ensures CallsInRange(CallsOf(ws, strategy))
    ensures result.Snap() == Final(Games(ws, strategy), CallsOf(ws, strategy), clock, result.distribution.Length)
    ensures reports == Reports(Games(ws, strategy), CallsOf(ws, strategy), clock, result.distribution.Length, |ws|)
                       + [Final(Games(ws, strategy), CallsOf(ws, strategy), clock, result.distribution.Length)]
  {
    ghost var games := Games(ws, strategy);
    ghost var calls := CallsOf(ws, strategy);
    CallsBounds(ws, strategy);
    var slots := result.distribution.Length;
    var totalGuesses := 0;
    var lastTime := clock[0];
    reports := [];
    for i := 0 to |ws|
      invariant result.distribution == old(result.distribution)
      invariant result.Snap() == Recorded(games, calls, clock, slots, i)
      invariant totalGuesses == Sum(calls[..i])
      invariant lastTime == LastTime(clock, i)
      invariant reports == Reports(games, calls, clock, slots, i)
    {
      totalGuesses, lastTime, reports := GameStep(result, ws, strategy, clock, i, totalGuesses, lastTime, reports);
    }
    var last := Finish(result, games, calls, clock);
    reports := reports + [last];
  }


  /**
   * benchmark: shuffles a copy of the answers, zeroes MAX_GUESSES slots,
   * reports the empty result, plays every game and reports at the end.
   */
  method Benchmark(words: seq<string>, strategy: Strategy, picks: seq<nat>, clock: seq<int>)
    returns (result: BenchmarkResult, reports: seq<Snapshot>)
    requires ValidPicks(|words|, picks) && |clock| == |words| + 1
    ensures fresh(result) && result.distribution.Length == MAX_GUESSES
    ensures CallsInRange(CallsOf(Shuffled(words, picks), strategy))
    ensures var games := Games(Shuffled(words, picks), strategy);
            var calls := CallsOf(Shuffled(words, picks), strategy);
      && result.Snap() == Final(games, calls, clock, MAX_GUESSES)
      && reports == [Initial(MAX_GUESSES)] + Reports(games, calls, clock, MAX_GUESSES, |words|)
                    + [Final(games, calls, clock, MAX_GUESSES)]
  {
    var copy := new string[|words|](i requires 0 <= i < |words| => words[i]);
    assert copy[..] == words;
    var shuffled := Shuffle.Shuffle(copy, picks);
    var shuffledWords := shuffled[..];
    var distribution := new nat[MAX_GUESSES](_ => 0);
    result := new BenchmarkResult(distribution);
    assert result.Snap() == Initial(MAX_GUESSES);
    var first := result.Snap();
    var rest := RunGames(result, shuffledWords, strategy, clock);
    reports := [first] + rest;
  }
}
