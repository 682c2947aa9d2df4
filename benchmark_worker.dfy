/**
 * The worker variant of the benchmark: the same games and aggregates, but
 * the distribution has MAX_GUESSES + 1 slots zeroed one by one, no report
 * is sent before the first game, and every report goes out as a message.
 */
module BenchmarkWorker {
  import opened Model
  import opened Benchmark
  import opened Shuffle

  /** The number of distribution slots the worker zeroes: 0 through MAX_GUESSES. */
  const SLOTS: nat := MAX_GUESSES + 1

  /** A fresh array of `n` zeroed slots, filled one slot at a time. */
  method ZeroedSlots(n: nat) returns (distribution: array<nat>)
    ensures fresh(distribution) && distribution[..] == seq(n, _ => 0)
  {
    distribution := new nat[n];
    for i := 0 to n
      invariant distribution[..i] == seq(i, _ => 0)
    {
      distribution[i] := 0;
      assert distribution[..i + 1] == distribution[..i] + [0];
    }
    assert distribution[..] == distribution[..n];
  }

  /**
   * The last slot is never used: no game takes MAX_GUESSES guesses, since
   * those count as failures in slot 0.
   */
  lemma LastSlotUnused(ws: seq<string>, strategy: Strategy, clock: seq<int>)
    requires |clock| == |ws| + 1
    ensures CallsInRange(CallsOf(ws, strategy))
    ensures Final(Games(ws, strategy), CallsOf(ws, strategy), clock, SLOTS).distribution[MAX_GUESSES] == 0
  {
    var games := Games(ws, strategy);
    GamesBounds(ws, strategy);
    assert MAX_GUESSES !in multiset(games);
  }

  /**
   * benchmark (worker): shuffles a copy of the answers, zeroes SLOTS slots,
   * plays every game with throttled messages and sends a final message.
   */
  method BenchmarkInWorker(words: seq<string>, strategy: Strategy, picks: seq<nat>, clock: seq<int>)
    returns (result: BenchmarkResult, messages: seq<Snapshot>)
    requires ValidPicks(|words|, picks) && |clock| == |words| + 1
    ensures fresh(result) && result.distribution.Length == SLOTS
    ensures CallsInRange(CallsOf(Shuffled(words, picks), strategy))
    ensures var games := Games(Shuffled(words, picks), strategy);
            var calls := CallsOf(Shuffled(words, picks), strategy);
      && result.Snap() == Final(games, calls, clock, SLOTS)
      && messages == Reports(games, calls, clock, SLOTS, |words|) + [Final(games, calls, clock, SLOTS)]
  {
    var copy := new string[|words|](i requires 0 <= i < |words| => words[i]);
    assert copy[..] == words;
    var shuffled := Shuffle.Shuffle(copy, picks);
    var shuffledWords := shuffled[..];
    var distribution := ZeroedSlots(SLOTS);
    result := new BenchmarkResult(distribution);
    messages := RunGames(result, shuffledWords, strategy, clock);
  }
}
