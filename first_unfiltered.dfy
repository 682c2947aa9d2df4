/** The baseline strategy: the first answer that survives the hint filter. */
module FirstUnfiltered {
  import opened Wrappers
  import opened Model
  import opened Util

  /**
   * firstUnfiltered: the first corpus word consistent with every row of the
   * grid, or None (JavaScript's `undefined`) when no word survives. The
   * options are ignored.
   */
  function FirstUnfiltered(words: seq<string>, grid: seq<seq<Hint>>, options: AlgorithmOptions): (r: Option<string>)
    ensures r.None? <==> forall w :: w in words ==> !Consistent(w, grid)
    ensures r.Some? ==> Consistent(r.value, grid)
    ensures r.Some? ==> exists k :: (0 <= k < |words| && words[k] == r.value
      && forall j :: 0 <= j < k ==> !Consistent(words[j], grid))
  {
    var remaining := FilterWordsForHintGrid(words, grid);
    var p := w => MatchesEveryHint(w, AddCountsToGrid(grid));
    FilterFirst(words, p);
    assert FirstSatisfying(words, p) < |words| ==> words[FirstSatisfying(words, p)] in words;
    if |remaining| > 0 then Some(remaining[0]) else None
  }

  /** With the default empty grid the baseline returns the first word of the corpus. */
  lemma FirstUnfilteredEmptyGrid(words: seq<string>, options: AlgorithmOptions)
    ensures FirstUnfiltered(words, [], options) == if |words| > 0 then Some(words[0]) else None
  {
    FilterEmptyGrid(words);
  }
}

/** The permutation-search strategy, whose search is disabled: it returns the first survivor. */
module TryBestPermutations {
  import opened Wrappers
  import opened Model
  import opened Util
  import FirstUnfiltered

  /** tryBestPermutations: the first surviving answer, the same word the baseline returns. */
  function TryBestPermutations(words: seq<string>, grid: seq<seq<Hint>>, options: AlgorithmOptions): (r: Option<string>)
    ensures r == FirstUnfiltered.FirstUnfiltered(words, grid, options)
  {
    var remaining := FilterWordsForHintGrid(words, grid);
    if |remaining| > 0 then Some(remaining[0]) else None
  }
}
