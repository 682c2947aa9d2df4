/**
 * The scored-letters strategy: per-column letter frequencies over the
 * remaining answers, a score per candidate guess built from those
 * frequencies, and the choice of the first highest-scoring candidate.
 * Frequencies and scores are exact reals.
 */
module ScoredLetters {
  import opened Wrappers
  import opened Model
  import opened Util

  // ---------------------------------------------------------------------
  // Letter frequencies
  // ---------------------------------------------------------------------

  /** The letters found in column `i` of `words`, in word order; shorter words contribute none. */
  function Column(words: seq<string>, i: nat): seq<char>
  {
    if |words| == 0 then []
    else
      var last := words[|words| - 1];
      Column(words[..|words| - 1], i) + (if i < |last| then [last[i]] else [])
  }

  /** The number of words holding `c` in column `i`. */
  function ColumnCount(words: seq<string>, i: nat, c: char): nat
  {
    Count(Column(words, i), c)
  }

  /** Appending a word adds one to the count of the letter it has in column `i`, if any. */
  lemma ColumnCountSnoc(words: seq<string>, w: string, i: nat, c: char)
    ensures ColumnCount(words + [w], i, c)
      == ColumnCount(words, i, c) + (if HasCharAt(w, i, c) then 1 else 0)
  {
    assert (words + [w])[..|words|] == words;
    var col := Column(words, i);
    if i < |w| {
      assert (col + [w[i]])[..|col|] == col;
    } else {
      assert col + [] == col;
    }
  }

  /** A column holds at most one letter per word, and exactly one when every word reaches it. */
  lemma {:induction false} ColumnLength(words: seq<string>, i: nat)
    ensures |Column(words, i)| <= |words|
    ensures (forall w :: w in words ==> i < |w|) ==> |Column(words, i)| == |words|
  {
    if |words| > 0 {
      var init := words[..|words| - 1];
      ColumnLength(init, i);
      if forall w :: w in words ==> i < |w| {
        assert words[|words| - 1] in words;
        forall w | w in init ensures i < |w| {
          assert w in words;
        }
      }
    }
  }

  /** No letter occurs in a column more often than there are words. */
  lemma ColumnCountBound(words: seq<string>, i: nat, c: char)
    ensures ColumnCount(words, i, c) <= |words|
  {
    var col := Column(words, i);
    ColumnLength(words, i);
    CountPrefix(col, |col|, c);
    CountAtMostLength(col, c);
  }

  /** A letter count never exceeds the length of the string. */
  lemma {:induction false} CountAtMostLength(s: string, c: char)
    ensures Count(s, c) <= |s|
  {
    if |s| > 0 {
      CountAtMostLength(s[..|s| - 1], c);
    }
  }

  /**
   * The share of `words` holding `c` in column `i` (0 for an empty list);
   * the letter counts of a column are the multiplicities of its letters.
   */
  function Frequency(words: seq<string>, i: nat, c: char): (r: real)
    ensures 0.0 <= r <= 1.0
    ensures r > 0.0 <==> ColumnCount(words, i, c) > 0
  {
    ColumnCountBound(words, i, c);
    if |words| == 0 then 0.0 else ColumnCount(words, i, c) as real / |words| as real
  }

  /** `frequencies[i][char] || 0`: a missing entry reads as 0. */
  function Lookup(m: map<char, real>, c: char): real
  {
    if c in m then m[c] else 0.0
  }

  /** Every recorded frequency lies between 0 and 1. */
  ghost predicate InRange(freqs: seq<map<char, real>>)
  {
    forall i, c :: 0 <= i < |freqs| && c in freqs[i] ==> 0.0 <= freqs[i][c] <= 1.0
  }

  /** The frequency table of column `i`: an entry per letter found there, holding its share. */
  function ColumnFrequencies(words: seq<string>, i: nat): map<char, real>
  {
    map c | c in Column(words, i) :: Frequency(words, i, c)
  }

  /** The frequency tables of all COLS columns. */
  function LetterFrequencies(words: seq<string>): (r: seq<map<char, real>>)
    ensures |r| == COLS
  {
    seq(COLS, (i: int) requires 0 <= i => ColumnFrequencies(words, i))
  }

  /**
   * A letter has an entry in a column exactly when some word holds it there;
   * reading any letter gives its share, and every share lies in [0, 1].
   */
  lemma LetterFrequenciesMeaning(words: seq<string>)
    ensures forall i, c :: 0 <= i < COLS ==>
      (c in LetterFrequencies(words)[i] <==> ColumnCount(words, i, c) > 0)
    ensures forall i, c :: 0 <= i < COLS ==> Lookup(LetterFrequencies(words)[i], c) == Frequency(words, i, c)
    ensures InRange(LetterFrequencies(words))
  {
    FrequenciesInRange(words);
    forall i, c | 0 <= i < COLS
      ensures c in LetterFrequencies(words)[i] <==> ColumnCount(words, i, c) > 0
    {
      CountPositiveIffIn(Column(words, i), c);
    }
  }

  /** Every share in the frequency tables lies in [0, 1]. */
  lemma FrequenciesInRange(words: seq<string>)
    ensures InRange(LetterFrequencies(words))
  {
    forall i, c | 0 <= i < COLS && c in LetterFrequencies(words)[i]
      ensures 0.0 <= LetterFrequencies(words)[i][c] <= 1.0
    {
      assert LetterFrequencies(words)[i][c] == Frequency(words, i, c);
    }
  }

  /** No letter is listed twice. */
  predicate Distinct(cs: seq<char>)
  {
    forall a, b :: 0 <= a < b < |cs| ==> cs[a] != cs[b]
  }

  /** The counts in `col` of the letters listed in `cs`, added up. */
  function CountSum(col: seq<char>, cs: seq<char>): nat
  {
    if |cs| == 0 then 0 else CountSum(col, cs[..|cs| - 1]) + Count(col, cs[|cs| - 1])
  }

  /** The entries of `m` for the letters listed in `cs`, added up (a missing entry reads as 0). */
  function ShareSum(m: map<char, real>, cs: seq<char>): real
  {
    if |cs| == 0 then 0.0 else ShareSum(m, cs[..|cs| - 1]) + Lookup(m, cs[|cs| - 1])
  }

  /** One more letter in the column adds one to the sum exactly when that letter is listed. */
  lemma {:induction false} CountSumSnoc(col: seq<char>, x: char, cs: seq<char>)
    requires Distinct(cs)
    ensures CountSum(col + [x], cs) == CountSum(col, cs) + (if x in cs then 1 else 0)
  {
    if |cs| > 0 {
      var init := cs[..|cs| - 1];
      var y := cs[|cs| - 1];
      CountSumSnoc(col, x, init);
      assert (col + [x])[..|col|] == col;
      assert x in cs <==> x in init || x == y;
      assert x in init ==> x != y by {
        if x in init {
          var a :| 0 <= a < |init| && init[a] == x;
          assert cs[a] == x;
        }
      }
    }
  }

  /** Listing every letter of the column once counts each of its letters once. */
  lemma {:induction false} CountSumTotal(col: seq<char>, cs: seq<char>)
    requires Distinct(cs) && forall x :: x in col ==> x in cs
    ensures CountSum(col, cs) == |col|
  {
    if |col| == 0 {
      CountSumZero(cs);
    } else {
      var init := col[..|col| - 1];
      assert col == init + [col[|col| - 1]];
      CountSumTotal(init, cs);
      CountSumSnoc(init, col[|col| - 1], cs);
    }
  }

  /** The empty column counts nothing. */
  lemma {:induction false} CountSumZero(cs: seq<char>)
    ensures CountSum([], cs) == 0
  {
    if |cs| > 0 {
      CountSumZero(cs[..|cs| - 1]);
    }
  }

  /** The entry a column table gives any letter is its count over the word count. */
  lemma LookupShare(words: seq<string>, i: nat, c: char)
    requires 0 <= i < COLS && |words| > 0
    ensures Lookup(LetterFrequencies(words)[i], c) == Count(Column(words, i), c) as real / |words| as real
  {
    CountPositiveIffIn(Column(words, i), c);
    assert LetterFrequencies(words)[i] == ColumnFrequencies(words, i);
  }

  /** Two shares of the same whole add up as their counts do. */
  lemma AddShares(a: nat, b: nat, n: nat)
    requires n > 0
    ensures a as real / n as real + b as real / n as real == (a + b) as real / n as real
  {
  }

  /**
   * When each listed letter's entry in `m` is its count in `col` over `n`,
   * summing the entries is summing the counts over `n`.
   */
  lemma {:induction false} ShareSumCounts(m: map<char, real>, col: seq<char>, n: nat, cs: seq<char>)
    requires n > 0
    requires forall c :: c in cs ==> Lookup(m, c) == Count(col, c) as real / n as real
    ensures ShareSum(m, cs) == CountSum(col, cs) as real / n as real
  {
    if |cs| > 0 {
      var init := cs[..|cs| - 1];
      var c := cs[|cs| - 1];
      assert forall x :: x in init ==> x in cs;
      ShareSumCounts(m, col, n, init);
      AddShares(CountSum(col, init), Count(col, c), n);
    }
  }

  /**
   * The shares in column `i` add up to 1 when every remaining answer has a
   * letter there: summing the entry of each letter the table holds, once each.
   */
  lemma ColumnSharesSumToOne(words: seq<string>, i: nat, cs: seq<char>)
    requires 0 <= i < COLS && |words| > 0 && forall w :: w in words ==> i < |w|
    requires Distinct(cs) && forall c :: c in cs <==> c in LetterFrequencies(words)[i]
    ensures ShareSum(LetterFrequencies(words)[i], cs) == 1.0
  {
    var col := Column(words, i);
    assert LetterFrequencies(words)[i] == ColumnFrequencies(words, i);
    assert forall x :: x in col ==> x in cs;
    CountSumTotal(col, cs);
    ColumnLength(words, i);
    assert CountSum(col, cs) == |words|;
    forall c | c in cs
      ensures Lookup(LetterFrequencies(words)[i], c) == Count(col, c) as real / |words| as real
    {
      LookupShare(words, i, c);
    }
    ShareSumCounts(LetterFrequencies(words)[i], col, |words|, cs);
    WholeShare(|words|);
  }

  /** All of a whole, as a share, is 1. */
  lemma WholeShare(n: nat)
    requires n > 0
    ensures n as real / n as real == 1.0
  {
  }

  /**
   * The tables after tallying all of `words` and the first `upTo` letters of
   * `word`, each occurrence adding 1/t to its letter's entry.
   */
  ghost predicate Tallied(table: seq<map<char, real>>, words: seq<string>, word: string, upTo: nat, t: nat)
  {
    && |table| == COLS
    && (forall j, c :: 0 <= j < COLS ==>
          (c in table[j] <==> ColumnCount(words, j, c) + Hit(word, upTo, j, c) > 0))
    && (forall j, c :: 0 <= j < COLS && c in table[j] ==>
          table[j][c] == Share(ColumnCount(words, j, c) + Hit(word, upTo, j, c), t))
  }

  /** The tables with 1/t added to the entry of `ch` in column `i` (a missing entry counting as 0). */
  function Bump(table: seq<map<char, real>>, i: nat, ch: char, t: nat): seq<map<char, real>>
    requires i < |table| && t > 0
  {
    table[i := table[i][ch := Lookup(table[i], ch) + 1.0 / t as real]]
  }

  /** One step of the inner loop adds the share of letter `upTo` of `word` in its column. */
  lemma TalliedStep(table: seq<map<char, real>>, words: seq<string>, word: string, upTo: nat, t: nat)
    requires Tallied(table, words, word, upTo, t) && upTo < |word| <= COLS && t > 0
    ensures Tallied(Bump(table, upTo, word[upTo], t), words, word, upTo + 1, t)
  {
    var bumped := Bump(table, upTo, word[upTo], t);
    forall j, c | 0 <= j < COLS
      ensures c in bumped[j] <==> ColumnCount(words, j, c) + Hit(word, upTo + 1, j, c) > 0
      ensures c in bumped[j] ==>
        bumped[j][c] == Share(ColumnCount(words, j, c) + Hit(word, upTo + 1, j, c), t)
    {
      TalliedStepAt(table, words, word, upTo, t, j, c);
    }
  }

  /** TalliedStep for one column and letter. */
  lemma TalliedStepAt(table: seq<map<char, real>>, words: seq<string>, word: string, upTo: nat, t: nat, j: nat, c: char)
    requires Tallied(table, words, word, upTo, t) && upTo < |word| <= COLS && t > 0 && j < COLS
    ensures var bumped := Bump(table, upTo, word[upTo], t);
      && (c in bumped[j] <==> ColumnCount(words, j, c) + Hit(word, upTo + 1, j, c) > 0)
      && (c in bumped[j] ==> bumped[j][c] == Share(ColumnCount(words, j, c) + Hit(word, upTo + 1, j, c), t))
  {
    var a := ColumnCount(words, j, c);
    assert c in table[j] <==> a + Hit(word, upTo, j, c) > 0;
    if j == upTo && c == word[upTo] {
      assert Hit(word, upTo, j, c) == 0 && Hit(word, upTo + 1, j, c) == 1;
      assert Lookup(table[j], c) == Share(a, t);
      assert Share(a, t) + 1.0 / t as real == Share(a + 1, t);
    } else {
      assert Hit(word, upTo + 1, j, c) == Hit(word, upTo, j, c);
    }
  }

  /** Tallying a whole word is the same as counting it among the words. */
  lemma TalliedWord(table: seq<map<char, real>>, words: seq<string>, word: string, t: nat)
    requires Tallied(table, words, word, |word|, t)
    ensures Tallied(table, words + [word], [], 0, t)
  {
    forall j, c | 0 <= j < COLS
      ensures ColumnCount(words + [word], j, c) == ColumnCount(words, j, c) + Hit(word, |word|, j, c)
    {
      ColumnCountSnoc(words, word, j, c);
    }
  }

  /** Tallying every word, each adding 1/|words|, yields the frequency tables. */
  lemma TalliedAll(table: seq<map<char, real>>, words: seq<string>)
    requires Tallied(table, words, [], 0, |words|)
    ensures table == LetterFrequencies(words)
  {
    LetterFrequenciesMeaning(words);
    forall i | 0 <= i < COLS ensures table[i] == LetterFrequencies(words)[i] {
      forall c ensures c in table[i] <==> c in LetterFrequencies(words)[i] {
      }
      forall c | c in table[i] ensures table[i][c] == LetterFrequencies(words)[i][c] {
        assert Lookup(LetterFrequencies(words)[i], c) == Frequency(words, i, c);
      }
    }
  }

  /**
   * calculateLetterFrequency: for every word and every letter position, adds
   * 1/|words| to that letter's entry in that column; the result is exactly
   * the frequency tables of `words`.
   */
  method CalculateLetterFrequency(words: seq<string>) returns (f: array<map<char, real>>)
    requires forall w :: w in words ==> |w| <= COLS
    ensures fresh(f) && f[..] == LetterFrequencies(words)
  {
    f := new map<char, real>[COLS](_ => map[]);
    var totalLetters := |words|;
    for k := 0 to |words|
      invariant Tallied(f[..], words[..k], [], 0, totalLetters)
    {
      var word := words[k];
      assert |word| <= COLS by { assert word in words; }
      TallyWord(f, word, words[..k], totalLetters);
      assert words[..k + 1] == words[..k] + [word];
    }
    assert words[..|words|] == words;
    TalliedAll(f[..], words);
  }

  /** The inner loop of calculateLetterFrequency: tallies the letters of one word. */
  method TallyWord(f: array<map<char, real>>, word: string, ghost done: seq<string>, totalLetters: nat)
    requires |word| <= COLS && totalLetters > 0
    requires Tallied(f[..], done, [], 0, totalLetters)
    modifies f
    ensures Tallied(f[..], done + [word], [], 0, totalLetters)
  {
    for i := 0 to |word|
      invariant Tallied(f[..], done, word, i, totalLetters)
    {
      TallyLetter(f, word, i, done, totalLetters);
    }
    TalliedWord(f[..], done, word, totalLetters);
  }

  /** One pass of the inner loop: adds 1/totalLetters to the entry of letter i of `word` in column i. */
  method TallyLetter(f: array<map<char, real>>, word: string, i: nat, ghost done: seq<string>, totalLetters: nat)
    requires i < |word| <= COLS && totalLetters > 0
    requires Tallied(f[..], done, word, i, totalLetters)
    modifies f
    ensures f[..] == Bump(old(f[..]), i, word[i], totalLetters)
    ensures Tallied(f[..], done, word, i + 1, totalLetters)
  {
    var ch := word[i];
    ghost var before := f[..];
    TalliedStep(before, done, word, i, totalLetters);
    var iFrequency := f[i];
    if ch !in iFrequency {
      iFrequency := iFrequency[ch := 0.0];
    }
    assert iFrequency[ch] == Lookup(before[i], ch);
    iFrequency := iFrequency[ch := iFrequency[ch] + 1.0 / totalLetters as real];
    assert iFrequency == Bump(before, i, ch, totalLetters)[i];
    f[i] := iFrequency;
    assert f[..] == Bump(before, i, ch, totalLetters);
  }

  /** `a` words out of `t`, as a share. */
  function Share(a: nat, t: nat): real
  {
    if t == 0 then 0.0 else a as real / t as real
  }

  /** 1 when the first `upTo` letters of `word` put `c` in column `j`, else 0. */
  function Hit(word: string, upTo: nat, j: nat, c: char): nat
  {
    if j < upTo && HasCharAt(word, j, c) then 1 else 0
  }

  // ---------------------------------------------------------------------
  // Scores
  // ---------------------------------------------------------------------

  /**
   * percentToScore: the distance of a share from the nearer of "never" and
   * "always", i.e. the smaller of `p` and `1 - p`.
   */
  function PercentToScore(p: real): (r: real)
    ensures r <= p && r <= 1.0 - p
    ensures r == p || r == 1.0 - p
  {
    if p <= 1.0 - p then p else 1.0 - p
  }

  /** A share and its complement score alike; every share scores between 0 and 1/2. */
  lemma PercentToScoreProperties(p: real)
    ensures PercentToScore(p) == PercentToScore(1.0 - p)
    ensures 0.0 <= p <= 1.0 ==> 0.0 <= PercentToScore(p) <= 0.5
    ensures PercentToScore(p) == 0.5 <==> p == 0.5
  {
  }

  /** The frequency table of column `j` read at letter `c`. */
  function Freq(freqs: seq<map<char, real>>, j: nat, c: char): real
    requires j < |freqs|
  {
    Lookup(freqs[j], c)
  }

  /** The scores of `c` over the first `m` columns, summed. */
  function ColumnBonus(freqs: seq<map<char, real>>, c: char, m: nat): real
    requires m <= |freqs|
  {
    if m == 0 then 0.0 else ColumnBonus(freqs, c, m - 1) + PercentToScore(Freq(freqs, m - 1, c))
  }

  /**
   * What letter `i` of `guess` adds: the score of its own column, plus, the
   * first time the letter occurs unless its column is all but certain, its
   * score in every column.
   */
  function LetterScore(guess: string, freqs: seq<map<char, real>>, i: nat): real
    requires i < |guess| <= |freqs|
  {
    var c := guess[i];
    var letterFrequency := Freq(freqs, i, c);
    PercentToScore(letterFrequency)
    + if letterFrequency < 0.9999 && Count(guess[..i], c) == 0 then ColumnBonus(freqs, c, |guess|) else 0.0
  }

  /** 1 plus the letter scores of the first `i` letters. */
  function ScoreUpTo(guess: string, freqs: seq<map<char, real>>, i: nat): real
    requires i <= |guess| <= |freqs|
  {
    if i == 0 then 1.0 else ScoreUpTo(guess, freqs, i - 1) + LetterScore(guess, freqs, i - 1)
  }

  /** The score of a candidate guess. */
  function WordScore(guess: string, freqs: seq<map<char, real>>): real
    requires |guess| <= |freqs|
  {
    ScoreUpTo(guess, freqs, |guess|)
  }

  /** With frequencies in range, every column bonus is non-negative. */
  lemma {:induction false} ColumnBonusNonNegative(freqs: seq<map<char, real>>, c: char, m: nat)
    requires m <= |freqs| && InRange(freqs)
    ensures ColumnBonus(freqs, c, m) >= 0.0
  {
    if m > 0 {
      ColumnBonusNonNegative(freqs, c, m - 1);
      PercentToScoreProperties(Freq(freqs, m - 1, c));
    }
  }

  /** With frequencies in range, scores never drop below 1 and never shrink letter by letter. */
  lemma {:induction false} ScoreAtLeastOne(guess: string, freqs: seq<map<char, real>>, i: nat)
    requires i <= |guess| <= |freqs| && InRange(freqs)
    ensures ScoreUpTo(guess, freqs, i) >= 1.0
    ensures i > 0 ==> ScoreUpTo(guess, freqs, i) >= ScoreUpTo(guess, freqs, i - 1)
  {
    if i > 0 {
      ScoreAtLeastOne(guess, freqs, i - 1);
      PercentToScoreProperties(Freq(freqs, i - 1, guess[i - 1]));
      ColumnBonusNonNegative(freqs, guess[i - 1], |guess|);
    }
  }

  /** The body of provideNextWord's candidate loop: the score of one candidate guess. */
  method ScoreGuess(guess: string, frequencies: array<map<char, real>>) returns (wordScore: real)
    requires |guess| <= frequencies.Length
    ensures wordScore == WordScore(guess, frequencies[..])
  {
    wordScore := 1.0;
    for i := 0 to |guess|
      invariant wordScore == ScoreUpTo(guess, frequencies[..], i)
    {
      var ch := guess[i];
      var letterFrequency := Lookup(frequencies[i], ch);
      var before := wordScore;
      wordScore := wordScore + PercentToScore(letterFrequency);
      if letterFrequency < 0.9999 {
        var count := CountChars(guess[..i], ch);
        if count == 0 {
          for j := 0 to |guess|
            invariant wordScore == before + PercentToScore(letterFrequency)
                                   + ColumnBonus(frequencies[..], ch, j)
          {
            wordScore := wordScore + PercentToScore(Lookup(frequencies[j], ch));
          }
        }
      }
    }
  }

  // ---------------------------------------------------------------------
  // Choosing the guess
  // ---------------------------------------------------------------------

  /**
   * Whether a candidate takes part in the search. Before the last try every
   * candidate does. On the last try (`remainingGuesses <= 1`) the code as
   * written admits only candidates that are NOT remaining answers
   * (`asWritten`); the evident intent admits only those that are.
   */
  predicate Eligible(w: string, remaining: seq<string>, remainingGuesses: int, asWritten: bool)
  {
    remainingGuesses > 1 || (if asWritten then w !in remaining else w in remaining)
  }

  /**
   * `best` is what provideNextWord's candidate loop keeps: an eligible word
   * of the pool with the highest score under `table`, and, since only a
   * strictly higher score replaces the best so far, the first such word:
   * every eligible word before it scores strictly less.
   */
  predicate FirstBest(best: string, pool: seq<string>, table: seq<map<char, real>>,
                      remaining: seq<string>, remainingGuesses: int, asWritten: bool)
    requires |best| <= |table|
    requires forall w :: w in pool ==> |w| <= |table|
  {
    && Eligible(best, remaining, remainingGuesses, asWritten)
    && (forall w :: (w in pool && Eligible(w, remaining, remainingGuesses, asWritten)) ==>
          WordScore(w, table) <= WordScore(best, table))
    && exists k :: 0 <= k < |pool| && pool[k] == best &&
         forall j :: (0 <= j < k && Eligible(pool[j], remaining, remainingGuesses, asWritten)) ==>
           WordScore(pool[j], table) < WordScore(best, table)
  }

  /**
   * provideNextWord's candidate loop: the index of the first eligible
   * candidate with the highest score, or 0 when no candidate is eligible.
   */
  method BestScoreIndex(possibleGuesses: seq<string>, frequencies: array<map<char, real>>,
                        remaining: seq<string>, remainingGuesses: int, asWritten: bool)
    returns (bestScoreIndex: nat)
    requires forall w :: w in possibleGuesses ==> |w| <= frequencies.Length
    requires InRange(frequencies[..])
    ensures bestScoreIndex == 0 || bestScoreIndex < |possibleGuesses|
    ensures (forall j :: 0 <= j < |possibleGuesses| ==>
               !Eligible(possibleGuesses[j], remaining, remainingGuesses, asWritten))
            ==> bestScoreIndex == 0
    ensures forall j :: (0 <= j < |possibleGuesses| &&
                         Eligible(possibleGuesses[j], remaining, remainingGuesses, asWritten)) ==>
              && bestScoreIndex < |possibleGuesses|
              && Eligible(possibleGuesses[bestScoreIndex], remaining, remainingGuesses, asWritten)
              && WordScore(possibleGuesses[j], frequencies[..])
                 <= WordScore(possibleGuesses[bestScoreIndex], frequencies[..])
              && (j < bestScoreIndex ==> WordScore(possibleGuesses[j], frequencies[..])
                                         < WordScore(possibleGuesses[bestScoreIndex], frequencies[..]))
  {
    var bestScore := 0.0;
    bestScoreIndex := 0;
    ghost var found := false;
    for guessIndex := 0 to |possibleGuesses|
      invariant bestScoreIndex == 0 || bestScoreIndex < guessIndex
      invariant found <==> exists j :: (0 <= j < guessIndex &&
                                         Eligible(possibleGuesses[j], remaining, remainingGuesses, asWritten))
      invariant !found ==> bestScoreIndex == 0 && bestScore == 0.0
      invariant found ==> (&& bestScoreIndex < guessIndex
                           && Eligible(possibleGuesses[bestScoreIndex], remaining, remainingGuesses, asWritten)
                           && bestScore == WordScore(possibleGuesses[bestScoreIndex], frequencies[..]))
      invariant forall j :: (0 <= j < guessIndex &&
                             Eligible(possibleGuesses[j], remaining, remainingGuesses, asWritten)) ==>
        (&& WordScore(possibleGuesses[j], frequencies[..]) <= bestScore
         && (j < bestScoreIndex ==> WordScore(possibleGuesses[j], frequencies[..]) < bestScore))
    {
      var possibleGuess := possibleGuesses[guessIndex];
      if !Eligible(possibleGuess, remaining, remainingGuesses, asWritten) {
        continue;
      }
      assert |possibleGuess| <= frequencies.Length by { assert possibleGuess in possibleGuesses; }
      var wordScore := ScoreGuess(possibleGuess, frequencies);
      ScoreAtLeastOne(possibleGuess, frequencies[..], |possibleGuess|);
      if wordScore > bestScore {
        bestScore := wordScore;
        bestScoreIndex := guessIndex;
      }
      found := true;
    }
  }

  /**
   * provideNextWord with the last-try rule selected by `asWritten`: no word
   * when no answer fits the grid, the only one when exactly one does, and
   * otherwise the best-scoring eligible word of the whole pool.
   */
  method Choose(answers: seq<string>, nonAnswers: seq<string>, hintSets: seq<seq<Hint>>, asWritten: bool)
    returns (r: Option<string>)
    requires forall w :: w in answers + nonAnswers ==> |w| <= COLS
    ensures var remaining := FilterWordsForHintGrid(answers, hintSets);
      && (r.None? <==> |remaining| == 0)
      && (|remaining| == 1 ==> r == Some(remaining[0]))
      && (|remaining| > 1 ==> r.Some? && r.value in answers + nonAnswers)
      && (|remaining| > 1 && (exists w :: (w in answers + nonAnswers &&
                                             Eligible(w, remaining, ROWS - |hintSets|, asWritten))) ==>
          FirstBest(r.value, answers + nonAnswers, LetterFrequencies(remaining),
                    remaining, ROWS - |hintSets|, asWritten))
      && (|remaining| > 1 && (forall w :: w in answers + nonAnswers ==>
                                !Eligible(w, remaining, ROWS - |hintSets|, asWritten)) ==>
          r == Some((answers + nonAnswers)[0]))
  {
    var remainingAnswers := FilterWordsForHintGrid(answers, hintSets);
    if |remainingAnswers| == 0 {
      return None;
    }
    if |remainingAnswers| == 1 {
      return Some(remainingAnswers[0]);
    }
    assert remainingAnswers[0] in answers;
    assert forall w :: w in remainingAnswers ==> |w| <= COLS by {
      forall w | w in remainingAnswers ensures |w| <= COLS {
        assert w in answers + nonAnswers;
      }
    }
    var best := ChooseAmong(remainingAnswers, answers + nonAnswers, ROWS - |hintSets|, asWritten);
    r := Some(best);
  }

  /**
   * The rest of provideNextWord once at least one answer remains: the
   * frequency tables of the remaining answers, then the first best-scoring
   * eligible word of the pool, or the pool's first word when none is eligible.
   */
  method ChooseAmong(remaining: seq<string>, possibleGuesses: seq<string>, remainingGuesses: int, asWritten: bool)
    returns (best: string)
    requires |possibleGuesses| > 0
    requires forall w :: w in remaining ==> |w| <= COLS
    requires forall w :: w in possibleGuesses ==> |w| <= COLS
    ensures best in possibleGuesses
    ensures (exists w :: w in possibleGuesses && Eligible(w, remaining, remainingGuesses, asWritten)) ==>
      FirstBest(best, possibleGuesses, LetterFrequencies(remaining), remaining, remainingGuesses, asWritten)
    ensures (forall w :: w in possibleGuesses ==> !Eligible(w, remaining, remainingGuesses, asWritten)) ==>
      best == possibleGuesses[0]
  {
    var frequencies := CalculateLetterFrequency(remaining);
    FrequenciesInRange(remaining);
    var bestScoreIndex := BestScoreIndex(possibleGuesses, frequencies, remaining, remainingGuesses, asWritten);
    best := possibleGuesses[bestScoreIndex];
    BestIndexMeaning(possibleGuesses, frequencies[..], remaining, remainingGuesses, asWritten, bestScoreIndex);
  }

  /** The index-wise guarantees of BestScoreIndex, restated for the words of the pool. */
  lemma BestIndexMeaning(possibleGuesses: seq<string>, table: seq<map<char, real>>, remaining: seq<string>,
                         remainingGuesses: int, asWritten: bool, best: nat)
    requires forall w :: w in possibleGuesses ==> |w| <= |table|
    requires best == 0 || best < |possibleGuesses|
    requires (forall j :: 0 <= j < |possibleGuesses| ==>
                !Eligible(possibleGuesses[j], remaining, remainingGuesses, asWritten))
             ==> best == 0
    requires forall j :: (0 <= j < |possibleGuesses| &&
                          Eligible(possibleGuesses[j], remaining, remainingGuesses, asWritten)) ==>
               && best < |possibleGuesses|
               && Eligible(possibleGuesses[best], remaining, remainingGuesses, asWritten)
               && WordScore(possibleGuesses[j], table) <= WordScore(possibleGuesses[best], table)
               && (j < best ==> WordScore(possibleGuesses[j], table) < WordScore(possibleGuesses[best], table))
    ensures (exists w :: w in possibleGuesses && Eligible(w, remaining, remainingGuesses, asWritten)) ==>
              && best < |possibleGuesses|
              && FirstBest(possibleGuesses[best], possibleGuesses, table, remaining, remainingGuesses, asWritten)
    ensures (forall w :: w in possibleGuesses ==> !Eligible(w, remaining, remainingGuesses, asWritten)) ==> best == 0
  {
    forall w | w in possibleGuesses && Eligible(w, remaining, remainingGuesses, asWritten)
      ensures best < |possibleGuesses| && Eligible(possibleGuesses[best], remaining, remainingGuesses, asWritten)
      ensures WordScore(w, table) <= WordScore(possibleGuesses[best], table)
    {
      var j :| 0 <= j < |possibleGuesses| && possibleGuesses[j] == w;
    }
    if exists w :: w in possibleGuesses && Eligible(w, remaining, remainingGuesses, asWritten) {
      var w :| w in possibleGuesses && Eligible(w, remaining, remainingGuesses, asWritten);
      var i :| 0 <= i < |possibleGuesses| && possibleGuesses[i] == w;
      assert best < |possibleGuesses|;
      assert possibleGuesses[best] == possibleGuesses[best];
    }
    if forall w :: w in possibleGuesses ==> !Eligible(w, remaining, remainingGuesses, asWritten) {
      forall j | 0 <= j < |possibleGuesses|
        ensures !Eligible(possibleGuesses[j], remaining, remainingGuesses, asWritten)
      {
        assert possibleGuesses[j] in possibleGuesses;
      }
    }
  }

  /**
   * provideNextWord as written: on the last try the candidate filter is
   * inverted, so whenever the pool holds any word outside the remaining
   * answers the guess returned is certainly not the answer.
   */
  method ProvideNextWordAsWritten(answers: seq<string>, nonAnswers: seq<string>, hintSets: seq<seq<Hint>>)
    returns (r: Option<string>)
    requires forall w :: w in answers + nonAnswers ==> |w| <= COLS
    ensures var remaining := FilterWordsForHintGrid(answers, hintSets);
      && (r.None? <==> |remaining| == 0)
      && (|remaining| == 1 ==> r == Some(remaining[0]))
      && (|remaining| > 1 ==> r.Some? && r.value in answers + nonAnswers)
      && (|remaining| > 1 && (exists w :: (w in answers + nonAnswers &&
                                             Eligible(w, remaining, ROWS - |hintSets|, true))) ==>
          FirstBest(r.value, answers + nonAnswers, LetterFrequencies(remaining),
                    remaining, ROWS - |hintSets|, true))
      && (|remaining| > 1 && (forall w :: w in answers + nonAnswers ==>
                                !Eligible(w, remaining, ROWS - |hintSets|, true)) ==>
          r == Some((answers + nonAnswers)[0]))
      && (|remaining| > 1 && |hintSets| >= ROWS - 1 &&
          (exists w :: w in answers + nonAnswers && w !in remaining) ==>
          r.value !in remaining)
  {
    r := Choose(answers, nonAnswers, hintSets, true);
  }

  /**
   * provideNextWord with the last-try filter the comment describes: on the
   * last try only remaining answers are considered, so the guess is always
   * one of them; earlier, the best-scoring word of the pool.
   */
  method ProvideNextWord(answers: seq<string>, nonAnswers: seq<string>, hintSets: seq<seq<Hint>>)
    returns (r: Option<string>)
    requires forall w :: w in answers + nonAnswers ==> |w| <= COLS
    ensures var remaining := FilterWordsForHintGrid(answers, hintSets);
      && (r.None? <==> |remaining| == 0)
      && (|remaining| == 1 ==> r == Some(remaining[0]))
      && (|remaining| > 1 ==> r.Some? && r.value in answers + nonAnswers)
      && (|remaining| > 1 && |hintSets| >= ROWS - 1 ==> r.value in remaining)
      && (|remaining| > 1 && |hintSets| >= ROWS - 1 ==>
          forall w :: w in remaining ==>
            WordScore(w, LetterFrequencies(remaining)) <= WordScore(r.value, LetterFrequencies(remaining)))
      && (|remaining| > 1 && |hintSets| < ROWS - 1 ==>
          forall w :: w in answers + nonAnswers ==>
            WordScore(w, LetterFrequencies(remaining)) <= WordScore(r.value, LetterFrequencies(remaining)))
      && (|remaining| > 1 ==>
          FirstBest(r.value, answers + nonAnswers, LetterFrequencies(remaining),
                    remaining, ROWS - |hintSets|, false))
      && (r.Some? ==> Consistent(r.value, hintSets) || |hintSets| < ROWS - 1)
  {
    var remaining := FilterWordsForHintGrid(answers, hintSets);
    r := Choose(answers, nonAnswers, hintSets, false);
    if |remaining| > 1 {
      assert remaining[0] in answers + nonAnswers;
    }
  }
}
