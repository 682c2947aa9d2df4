/**
 * The constraint filter: counting letters, pairing each hint of a row with
 * the minimum letter count that row establishes, checking one word against
 * a hint, and filtering a word list by a whole hint grid.
 */
module Util {
  import opened Model

  /** True when column `i` of `s` exists and holds `c` (`s.charAt(i) === c`). */
  predicate HasCharAt(s: string, i: nat, c: char) {
    i < |s| && s[i] == c
  }

  /** The number of positions of `s` that hold `c`. */
  function Count(s: string, c: char): nat
  {
    if |s| == 0 then 0 else Count(s[..|s| - 1], c) + (if s[|s| - 1] == c then 1 else 0)
  }

  /** Count agrees with the multiplicity of `c` in the multiset of the letters of `s`. */
  lemma {:induction false} CountIsMultiplicity(s: string, c: char)
    ensures Count(s, c) == multiset(s)[c]
  {
    if |s| > 0 {
      CountIsMultiplicity(s[..|s| - 1], c);
      assert s == s[..|s| - 1] + [s[|s| - 1]];
    }
  }

  /** A letter occurs in `s` exactly when it is counted at least once. */
  lemma CountPositiveIffIn(s: string, c: char)
    ensures Count(s, c) > 0 <==> c in s
  {
    CountIsMultiplicity(s, c);
  }

  /** Counting over a stretch that holds no `c` adds nothing. */
  lemma {:induction false} CountSkip(s: string, c: char, i: nat, j: nat)
    requires i <= j <= |s|
    requires forall k :: i <= k < j ==> s[k] != c
    ensures Count(s[..j], c) == Count(s[..i], c)
  {
    if i < j {
      CountSkip(s, c, i, j - 1);
      assert s[..j][..j - 1] == s[..j - 1];
    }
  }

  /** A prefix never holds more copies of a letter than the whole string. */
  lemma {:induction false} CountPrefix(s: string, i: nat, c: char)
    requires i <= |s|
    ensures Count(s[..i], c) <= Count(s, c)
    decreases |s| - i
  {
    if i < |s| {
      CountPrefix(s, i + 1, c);
      assert s[..i + 1][..i] == s[..i];
    } else {
      assert s[..i] == s;
    }
  }

  /** `s.indexOf(c, from)`: the first position at or after `from` holding `c`, or -1. */
  function IndexOf(s: string, c: char, from: nat): (k: int)
    ensures k == -1 || (from <= k < |s| && s[k] == c)
    ensures forall j :: from <= j < |s| && (k == -1 || j < k) ==> s[j] != c
    decreases |s| - from
  {
    if from >= |s| then -1
    else if s[from] == c then from
    else IndexOf(s, c, from + 1)
  }

  /** countChars: repeatedly searches for the next occurrence and counts the hits. */
  method CountChars(str: string, c: char) returns (n: nat)
    ensures n == Count(str, c)
  {
    n := 0;
    var index := IndexOf(str, c, 0);
    CountSkip(str, c, 0, if index == -1 then |str| else index);
    assert str[..|str|] == str;
    while index != -1
      invariant -1 <= index < |str|
      invariant index != -1 ==> str[index] == c && n == Count(str[..index], c)
      invariant index == -1 ==> n == Count(str, c)
      decreases if index == -1 then 0 else |str| - index
    {
      assert str[..index + 1][..index] == str[..index];
      n := n + 1;
      var next := IndexOf(str, c, index + 1);
      CountSkip(str, c, index + 1, if next == -1 then |str| else next);
      index := next;
    }
  }

  /**
   * The number of hints in `hints` for letter `c` that say the letter is in
   * the answer (CorrectSpot or WrongSpot).
   */
  function PositiveCount(hints: seq<Hint>, c: char): nat
  {
    if |hints| == 0 then 0
    else
      var last := hints[|hints| - 1];
      PositiveCount(hints[..|hints| - 1], c) + (if last.ch == c && last.positionHint.IsPositive() then 1 else 0)
  }

  /** PositiveCount never exceeds the number of hints for the letter. */
  lemma {:induction false} PositiveCountBound(hints: seq<Hint>, c: char)
    ensures PositiveCount(hints, c) <= |hints|
    ensures (forall k :: 0 <= k < |hints| ==> hints[k].ch != c) ==> PositiveCount(hints, c) == 0
  {
    if |hints| > 0 {
      PositiveCountBound(hints[..|hints| - 1], c);
    }
  }

  /** PositiveCount of a concatenation is the sum of the parts. */
  lemma {:induction false} PositiveCountAppend(a: seq<Hint>, b: seq<Hint>, c: char)
    ensures PositiveCount(a + b, c) == PositiveCount(a, c) + PositiveCount(b, c)
  {
    if |b| > 0 {
      PositiveCountAppend(a, b[..|b| - 1], c);
      assert (a + b)[..|a + b| - 1] == a + b[..|b| - 1];
    } else {
      assert a + b == a;
    }
  }

  /** calculateN: the minimum number of occurrences of `c` the row `hints` establishes. */
  method CalculateN(hints: seq<Hint>, c: char) returns (n: nat)
    ensures n == PositiveCount(hints, c)
  {
    n := 0;
    for k := 0 to |hints|
      invariant n == PositiveCount(hints[..k], c)
    {
      assert hints[..k + 1][..k] == hints[..k];
      if hints[k].ch == c {
        if hints[k].positionHint == WrongSpot || hints[k].positionHint == CorrectSpot {
          n := n + 1;
        }
      }
    }
    assert hints[..|hints|] == hints;
  }

  /**
   * matchesHint: whether hint `h`, whose row establishes at least `n`
   * occurrences of its letter, leaves `word` possible.
   */
  predicate MatchesHint(word: string, h: Hint, n: nat)
  {
    var count := Count(word, h.ch);
    match h.positionHint
    case NoSpot => count <= n
    case WrongSpot => count >= n && !HasCharAt(word, h.index, h.ch)
    case CorrectSpot => count >= n && HasCharAt(word, h.index, h.ch)
    case Unknown => true
  }

  /**
   * What a single hint means for a word: NoSpot with no positive hint for
   * the letter rules the letter out, a positive hint with n >= 1 demands the
   * letter, CorrectSpot demands it at the column and WrongSpot forbids it there.
   */
  lemma MatchesHintMeaning(word: string, c: char, i: nat, n: nat)
    ensures MatchesHint(word, Hint(c, i, NoSpot), 0) <==> c !in word
    ensures n >= 1 && MatchesHint(word, Hint(c, i, CorrectSpot), n) ==> c in word && i < |word| && word[i] == c
    ensures n >= 1 && MatchesHint(word, Hint(c, i, WrongSpot), n) ==> c in word && (i < |word| ==> word[i] != c)
    ensures MatchesHint(word, Hint(c, i, Unknown), n)
  {
    CountPositiveIffIn(word, c);
  }

  /** addCountsToHints: each hint of a row paired with the row's count for its letter. */
  function AddCountsToHints(row: seq<Hint>): (r: seq<(Hint, nat)>)
    ensures |r| == |row|
    ensures forall k :: 0 <= k < |r| ==> r[k].0 == row[k] && r[k].1 == PositiveCount(row, row[k].ch)
  {
    seq(|row|, k requires 0 <= k < |row| => (row[k], PositiveCount(row, row[k].ch)))
  }

  /** `hintGrid.map(addCountsToHints)`. */
  function AddCountsToGrid(grid: seq<seq<Hint>>): (r: seq<seq<(Hint, nat)>>)
    ensures |r| == |grid|
    ensures forall i :: 0 <= i < |grid| ==> r[i] == AddCountsToHints(grid[i])
  {
    seq(|grid|, i requires 0 <= i < |grid| => AddCountsToHints(grid[i]))
  }

  /** matchesEveryHint: every paired hint of every row leaves `word` possible. */
  predicate MatchesEveryHint(word: string, counted: seq<seq<(Hint, nat)>>)
  {
    forall i, k :: 0 <= i < |counted| && 0 <= k < |counted[i]| ==>
      MatchesHint(word, counted[i][k].0, counted[i][k].1)
  }

  /** A word is consistent with a grid when it matches every hint paired with its row's count. */
  predicate Consistent(word: string, grid: seq<seq<Hint>>)
  {
    MatchesEveryHint(word, AddCountsToGrid(grid))
  }

  /** Consistency with a grid is consistency with each of its rows. */
  lemma ConsistentRows(word: string, grid: seq<seq<Hint>>)
    ensures Consistent(word, grid) <==> forall i :: 0 <= i < |grid| ==> Consistent(word, [grid[i]])
  {
    var counted := AddCountsToGrid(grid);
    if Consistent(word, grid) {
      forall i | 0 <= i < |grid| ensures Consistent(word, [grid[i]]) {
        var one := AddCountsToGrid([grid[i]]);
        assert one[0] == counted[i];
      }
    }
    if forall i :: 0 <= i < |grid| ==> Consistent(word, [grid[i]]) {
      forall i, k | 0 <= i < |counted| && 0 <= k < |counted[i]|
        ensures MatchesHint(word, counted[i][k].0, counted[i][k].1)
      {
        var one := AddCountsToGrid([grid[i]]);
        assert Consistent(word, [grid[i]]);
        assert one[0] == counted[i];
      }
    }
  }

  /** Consistency with `grid + [row]` is consistency with `grid` and with `row`. */
  lemma ConsistentAppend(word: string, grid: seq<seq<Hint>>, row: seq<Hint>)
    ensures Consistent(word, grid + [row]) <==> Consistent(word, grid) && Consistent(word, [row])
  {
    var g := grid + [row];
    ConsistentRows(word, g);
    ConsistentRows(word, grid);
    assert g[|grid|] == row;
    assert forall i :: 0 <= i < |grid| ==> g[i] == grid[i];
  }

  /** True when `a` can be obtained from `b` by deleting elements. */
  predicate IsSubsequence<T(==,!new)>(a: seq<T>, b: seq<T>)
    decreases |b|
  {
    |a| <= |b| &&
    (|a| == 0 || if a[0] == b[0] then IsSubsequence(a[1..], b[1..]) else IsSubsequence(a, b[1..]))
  }

  /** `Array.prototype.filter`: the elements of `s` satisfying `p`, in their original order. */
  function Filter<T(==,!new)>(s: seq<T>, p: T -> bool): (r: seq<T>)
    ensures |r| <= |s|
    ensures IsSubsequence(r, s)
    ensures forall x :: x in r <==> x in s && p(x)
    ensures forall x :: multiset(r)[x] == if p(x) then multiset(s)[x] else 0
  {
    if |s| == 0 then []
    else
      var rest := Filter(s[1..], p);
      assert s == [s[0]] + s[1..];
      if p(s[0]) then [s[0]] + rest else rest
  }

  /** Filtering by a condition every element meets keeps the whole sequence. */
  lemma {:induction false} FilterAll<T(!new)>(s: seq<T>, p: T -> bool)
    requires forall x :: x in s ==> p(x)
    ensures Filter(s, p) == s
  {
    if |s| > 0 {
      FilterAll(s[1..], p);
    }
  }

  /** Filtering by a conjunction is filtering twice. */
  lemma {:induction false} FilterConj<T(!new)>(s: seq<T>, p: T -> bool, q: T -> bool, pq: T -> bool)
    requires forall x :: pq(x) == (p(x) && q(x))
    ensures Filter(s, pq) == Filter(Filter(s, p), q)
  {
    if |s| > 0 {
      FilterConj(s[1..], p, q, pq);
      if p(s[0]) {
        assert Filter([s[0]] + Filter(s[1..], p), q) == (if q(s[0]) then [s[0]] else []) + Filter(Filter(s[1..], p), q) by {
          assert ([s[0]] + Filter(s[1..], p))[1..] == Filter(s[1..], p);
        }
      }
    }
  }

  /** The index of the first element of `s` satisfying `p`, or `|s|` when there is none. */
  function FirstSatisfying<T>(s: seq<T>, p: T -> bool): (k: nat)
    ensures k <= |s|
    ensures k < |s| ==> p(s[k])
    ensures forall j :: 0 <= j < k ==> !p(s[j])
  {
    if |s| == 0 then 0 else if p(s[0]) then 0 else 1 + FirstSatisfying(s[1..], p)
  }

  /**
   * The first element that survives a filter is the first element of the
   * input satisfying the condition; nothing survives exactly when no element
   * satisfies it.
   */
  lemma {:induction false} FilterFirst<T(!new)>(s: seq<T>, p: T -> bool)
    ensures |Filter(s, p)| == 0 <==> FirstSatisfying(s, p) == |s|
    ensures |Filter(s, p)| > 0 ==> Filter(s, p)[0] == s[FirstSatisfying(s, p)]
  {
    if |s| > 0 && !p(s[0]) {
      FilterFirst(s[1..], p);
    }
  }

  /** filterWordsForHint: the words that one hint, with count `n`, leaves possible. */
  function FilterWordsForHint(words: seq<string>, h: Hint, n: nat): (r: seq<string>)
    ensures IsSubsequence(r, words)
    ensures forall w :: w in r <==> w in words && MatchesHint(w, h, n)
  {
    Filter(words, w => MatchesHint(w, h, n))
  }

  /**
   * filterWordsForHintGrid: the words consistent with every row of the grid,
   * in their original order and with their original multiplicity.
   */
  function FilterWordsForHintGrid(words: seq<string>, grid: seq<seq<Hint>>): (r: seq<string>)
    ensures IsSubsequence(r, words)
    ensures forall w :: w in r <==> w in words && Consistent(w, grid)
    ensures forall w :: multiset(r)[w] == if Consistent(w, grid) then multiset(words)[w] else 0
  {
    var counted := AddCountsToGrid(grid);
    Filter(words, w => MatchesEveryHint(w, counted))
  }

  /** An empty grid rules nothing out. */
  lemma FilterEmptyGrid(words: seq<string>)
    ensures FilterWordsForHintGrid(words, []) == words
  {
    FilterAll(words, w => MatchesEveryHint(w, AddCountsToGrid([])));
  }

  /** Filtering the survivors again by the same grid changes nothing. */
  lemma FilterIdempotent(words: seq<string>, grid: seq<seq<Hint>>)
    ensures FilterWordsForHintGrid(FilterWordsForHintGrid(words, grid), grid) == FilterWordsForHintGrid(words, grid)
  {
    var once := FilterWordsForHintGrid(words, grid);
    FilterAll(once, w => MatchesEveryHint(w, AddCountsToGrid(grid)));
  }

  /**
   * Appending a row filters the previous survivors by that row alone; so the
   * survivors of the longer grid are a subsequence of the previous survivors
   * and never more numerous.
   */
  lemma FilterAppendRow(words: seq<string>, grid: seq<seq<Hint>>, row: seq<Hint>)
    ensures FilterWordsForHintGrid(words, grid + [row])
         == FilterWordsForHintGrid(FilterWordsForHintGrid(words, grid), [row])
    ensures IsSubsequence(FilterWordsForHintGrid(words, grid + [row]), FilterWordsForHintGrid(words, grid))
    ensures |FilterWordsForHintGrid(words, grid + [row])| <= |FilterWordsForHintGrid(words, grid)|
  {
    var p := w => MatchesEveryHint(w, AddCountsToGrid(grid));
    var q := w => MatchesEveryHint(w, AddCountsToGrid([row]));
    var pq := w => MatchesEveryHint(w, AddCountsToGrid(grid + [row]));
    forall w ensures pq(w) == (p(w) && q(w)) {
      ConsistentAppend(w, grid, row);
    }
    FilterConj(words, p, q, pq);
  }
}
