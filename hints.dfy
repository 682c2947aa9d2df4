/**
 * The feedback model: the hints a guess receives against a known answer
 * (two passes, exact matches first) and the test for a solved row.
 */
module Hints {
  import opened Model
  import opened Util

  /** Column `i` of the guess holds the same letter as the answer. */
  predicate SameAt(guess: string, actual: string, i: nat)
    requires i < |guess|
  {
    HasCharAt(actual, i, guess[i])
  }

  /** The first pass: a CorrectSpot hint for every agreeing column below `k`, in column order. */
  function ExactHints(guess: string, actual: string, k: nat): seq<Hint>
    requires k <= |guess|
  {
    if k == 0 then []
    else ExactHints(guess, actual, k - 1)
         + (if SameAt(guess, actual, k - 1) then [Hint(actual[k - 1], k - 1, CorrectSpot)] else [])
  }

  /**
   * The hint for the mismatched column `i`, given the hints emitted so far:
   * WrongSpot while the positive hints for the letter, this one included,
   * do not outnumber its occurrences in the answer, NoSpot after that.
   */
  function MismatchHint(emitted: seq<Hint>, guess: string, actual: string, i: nat): Hint
    requires i < |guess|
  {
    var c := guess[i];
    Hint(c, i, if PositiveCount(emitted, c) + 1 <= Count(actual, c) then WrongSpot else NoSpot)
  }

  /** All first-pass hints followed by the second-pass hints of the columns below `k`. */
  function HintsUpTo(guess: string, actual: string, k: nat): seq<Hint>
    requires k <= |guess|
  {
    if k == 0 then ExactHints(guess, actual, |guess|)
    else
      var prev := HintsUpTo(guess, actual, k - 1);
      if SameAt(guess, actual, k - 1) then prev else prev + [MismatchHint(prev, guess, actual, k - 1)]
  }

  /** The hints `getHints(guess, actual)` returns. */
  function Feedback(guess: string, actual: string): seq<Hint>
  {
    HintsUpTo(guess, actual, |guess|)
  }

  /** getHints: the exact matches first, then one hint per mismatched column. */
  method GetHints(guess: string, actual: string) returns (hints: seq<Hint>)
    ensures hints == Feedback(guess, actual)
  {
    hints := [];
    for i := 0 to |guess|
      invariant hints == ExactHints(guess, actual, i)
    {
      if HasCharAt(actual, i, guess[i]) {
        hints := hints + [Hint(actual[i], i, CorrectSpot)];
      }
    }
    for i := 0 to |guess|
      invariant hints == HintsUpTo(guess, actual, i)
    {
      var guessChar := guess[i];
      if !HasCharAt(actual, i, guessChar) {
        var guessN := CalculateN(hints, guessChar);
        guessN := guessN + 1;
        var actualN := CountChars(actual, guessChar);
        var positionHint := if guessN <= actualN then WrongSpot else NoSpot;
        hints := hints + [Hint(guessChar, i, positionHint)];
      }
    }
  }

  /** isCorrectAnswer: every hint of the row is CorrectSpot. */
  predicate IsCorrectAnswer(hints: seq<Hint>)
  {
    forall k :: 0 <= k < |hints| ==> hints[k].positionHint == CorrectSpot
  }

  /** The number of agreeing columns below `k`. */
  function NumSame(guess: string, actual: string, k: nat): nat
    requires k <= |guess|
  {
    if k == 0 then 0 else NumSame(guess, actual, k - 1) + (if SameAt(guess, actual, k - 1) then 1 else 0)
  }

  /** Sort key of a hint: CorrectSpot hints first, each group in column order. */
  function Key(guess: string, h: Hint): nat
  {
    (if h.positionHint == CorrectSpot then 0 else |guess|) + h.index
  }

  /** Some hint of `r` is for column `j`. */
  predicate CoversColumn(r: seq<Hint>, j: nat)
  {
    exists m :: 0 <= m < |r| && r[m].index == j
  }

  /** A first-pass hint below column `k`: a CorrectSpot hint for an agreeing column, carrying its letter. */
  predicate ExactOk(guess: string, actual: string, k: nat, h: Hint)
  {
    h.index < k <= |guess| && h.positionHint == CorrectSpot
    && h.ch == guess[h.index] && SameAt(guess, actual, h.index)
  }

  /** The first pass below `k` holds one hint per agreeing column. */
  lemma {:induction false} ExactHintsLength(guess: string, actual: string, k: nat)
    requires k <= |guess|
    ensures |ExactHints(guess, actual, k)| == NumSame(guess, actual, k)
  {
    if k > 0 {
      ExactHintsLength(guess, actual, k - 1);
    }
  }

  /** Every first-pass hint below `k` is a CorrectSpot hint for an agreeing column. */
  lemma {:induction false} ExactHintsElems(guess: string, actual: string, k: nat)
    requires k <= |guess|
    ensures forall m :: 0 <= m < |ExactHints(guess, actual, k)| ==> ExactOk(guess, actual, k, ExactHints(guess, actual, k)[m])
  {
    if k > 0 {
      ExactHintsElems(guess, actual, k - 1);
      var prev := ExactHints(guess, actual, k - 1);
      var r := ExactHints(guess, actual, k);
      forall m | 0 <= m < |r| ensures ExactOk(guess, actual, k, r[m]) {
        if m < |prev| {
          assert r[m] == prev[m];
          assert ExactOk(guess, actual, k - 1, prev[m]);
        }
      }
    }
  }

  /** The first pass emits its hints in column order. */
  lemma {:induction false} ExactHintsOrder(guess: string, actual: string, k: nat)
    requires k <= |guess|
    ensures forall m1, m2 :: 0 <= m1 < m2 < |ExactHints(guess, actual, k)| ==>
      ExactHints(guess, actual, k)[m1].index < ExactHints(guess, actual, k)[m2].index
  {
    if k > 0 {
      ExactHintsOrder(guess, actual, k - 1);
      ExactHintsElems(guess, actual, k - 1);
      var prev := ExactHints(guess, actual, k - 1);
      var r := ExactHints(guess, actual, k);
      forall m1, m2 | 0 <= m1 < m2 < |r| ensures r[m1].index < r[m2].index {
        assert r[m1] == prev[m1];
        if m2 < |prev| {
          assert r[m2] == prev[m2];
        } else {
          assert ExactOk(guess, actual, k - 1, prev[m1]);
        }
      }
    }
  }

  /** Every agreeing column below `k` has a first-pass hint. */
  lemma {:induction false} ExactHintsCovers(guess: string, actual: string, k: nat)
    requires k <= |guess|
    ensures forall j :: 0 <= j < k && SameAt(guess, actual, j) ==> CoversColumn(ExactHints(guess, actual, k), j)
  {
    if k > 0 {
      ExactHintsCovers(guess, actual, k - 1);
      var prev := ExactHints(guess, actual, k - 1);
      var r := ExactHints(guess, actual, k);
      forall j | 0 <= j < k && SameAt(guess, actual, j)
        ensures CoversColumn(r, j)
      {
        if j < k - 1 {
          assert CoversColumn(prev, j);
          var m :| 0 <= m < |prev| && prev[m].index == j;
          assert r[m] == prev[m];
        } else {
          assert r[|prev|].index == j;
        }
      }
    }
  }

  /** Number of hints once the second pass has handled the columns below `k`. */
  lemma {:induction false} HintsUpToLength(guess: string, actual: string, k: nat)
    requires k <= |guess|
    ensures |HintsUpTo(guess, actual, k)| == NumSame(guess, actual, |guess|) + k - NumSame(guess, actual, k)
  {
    NumSameBound(guess, actual, k);
    if k == 0 {
      ExactHintsLength(guess, actual, |guess|);
    } else {
      HintsUpToLength(guess, actual, k - 1);
    }
  }

  /** A hint emitted once the columns below `k` are handled: a column of the guess with its letter, CorrectSpot exactly where guess and answer agree. */
  predicate HintOk(guess: string, actual: string, k: nat, h: Hint)
  {
    && h.index < |guess| && h.ch == guess[h.index]
    && (h.positionHint == CorrectSpot <==> SameAt(guess, actual, h.index))
    && (h.positionHint != CorrectSpot ==> h.index < k)
  }

  /** Each hint after the second pass has handled the columns below `k`. */
  lemma {:induction false} HintsUpToElems(guess: string, actual: string, k: nat)
    requires k <= |guess|
    ensures forall m :: 0 <= m < |HintsUpTo(guess, actual, k)| ==>
      HintOk(guess, actual, k, HintsUpTo(guess, actual, k)[m])
  {
    if k == 0 {
      var r := ExactHints(guess, actual, |guess|);
      ExactHintsElems(guess, actual, |guess|);
      forall m | 0 <= m < |r| ensures HintOk(guess, actual, k, r[m]) {
        assert ExactOk(guess, actual, |guess|, r[m]);
      }
    } else {
      HintsUpToElems(guess, actual, k - 1);
      var prev := HintsUpTo(guess, actual, k - 1);
      var r := HintsUpTo(guess, actual, k);
      assert forall m :: 0 <= m < |prev| ==> r[m] == prev[m];
      if !SameAt(guess, actual, k - 1) {
        var h := r[|prev|];
        assert h == MismatchHint(prev, guess, actual, k - 1);
        assert h.index == k - 1 && h.positionHint != CorrectSpot;
      }
    }
  }

  /** The hints are sorted by Key once the columns below `k` are handled. */
  lemma {:induction false} HintsUpToOrder(guess: string, actual: string, k: nat)
    requires k <= |guess|
    ensures forall m1, m2 :: 0 <= m1 < m2 < |HintsUpTo(guess, actual, k)| ==>
      Key(guess, HintsUpTo(guess, actual, k)[m1]) < Key(guess, HintsUpTo(guess, actual, k)[m2])
  {
    if k == 0 {
      var r := ExactHints(guess, actual, |guess|);
      ExactHintsOrder(guess, actual, |guess|);
      ExactHintsElems(guess, actual, |guess|);
      forall m1, m2 | 0 <= m1 < m2 < |r| ensures Key(guess, r[m1]) < Key(guess, r[m2]) {
        assert ExactOk(guess, actual, |guess|, r[m1]);
        assert ExactOk(guess, actual, |guess|, r[m2]);
      }
    } else {
      HintsUpToOrder(guess, actual, k - 1);
      HintsUpToElems(guess, actual, k - 1);
      var prev := HintsUpTo(guess, actual, k - 1);
      var r := HintsUpTo(guess, actual, k);
      if !SameAt(guess, actual, k - 1) {
        forall m1, m2 | 0 <= m1 < m2 < |r| ensures Key(guess, r[m1]) < Key(guess, r[m2]) {
          assert r[m1] == prev[m1];
          assert HintOk(guess, actual, k - 1, prev[m1]);
          if m2 < |prev| {
            assert r[m2] == prev[m2];
          } else {
            assert Key(guess, r[m2]) == |guess| + k - 1;
          }
        }
      }
    }
  }

  /** Every agreeing column, and every column below `k`, has a hint. */
  lemma {:induction false} HintsUpToCovers(guess: string, actual: string, k: nat)
    requires k <= |guess|
    ensures forall j :: 0 <= j < |guess| && (SameAt(guess, actual, j) || j < k) ==>
      CoversColumn(HintsUpTo(guess, actual, k), j)
  {
    if k == 0 {
      ExactHintsCovers(guess, actual, |guess|);
    } else {
      HintsUpToCovers(guess, actual, k - 1);
      var prev := HintsUpTo(guess, actual, k - 1);
      var r := HintsUpTo(guess, actual, k);
      assert forall m :: 0 <= m < |prev| ==> r[m] == prev[m];
      forall j | 0 <= j < |guess| && (SameAt(guess, actual, j) || j < k)
        ensures CoversColumn(r, j)
      {
        if SameAt(guess, actual, j) || j < k - 1 {
          assert CoversColumn(prev, j);
          var m :| 0 <= m < |prev| && prev[m].index == j;
          assert r[m].index == j;
        } else {
          assert r[|prev|].index == j;
        }
      }
    }
  }

  /** At most `k` of the columns below `k` agree. */
  lemma {:induction false} NumSameBound(guess: string, actual: string, k: nat)
    requires k <= |guess|
    ensures NumSame(guess, actual, k) <= k
    ensures forall k' :: k <= k' <= |guess| ==> NumSame(guess, actual, k) <= NumSame(guess, actual, k')
  {
    if k > 0 {
      NumSameBound(guess, actual, k - 1);
    }
    forall k' | k <= k' <= |guess| ensures NumSame(guess, actual, k) <= NumSame(guess, actual, k') {
      NumSameMono(guess, actual, k, k');
    }
  }

  lemma {:induction false} NumSameMono(guess: string, actual: string, k: nat, k': nat)
    requires k <= k' <= |guess|
    ensures NumSame(guess, actual, k) <= NumSame(guess, actual, k')
    decreases k' - k
  {
    if k < k' {
      NumSameMono(guess, actual, k, k' - 1);
    }
  }

  /**
   * getHints returns one hint per column: `|guess|` hints whose indices cover
   * every column exactly once, each carrying the guess's letter at its
   * column; CorrectSpot appears exactly at the columns where guess and answer
   * agree; those hints come first in column order, then the mismatched
   * columns in column order.
   */
  lemma FeedbackShape(guess: string, actual: string)
    ensures var r := Feedback(guess, actual);
      && |r| == |guess|
      && (forall m :: 0 <= m < |r| ==>
            r[m].index < |guess| && r[m].ch == guess[r[m].index]
            && (r[m].positionHint == CorrectSpot <==> SameAt(guess, actual, r[m].index)))
      && (forall j :: 0 <= j < |guess| ==> CoversColumn(r, j))
      && (forall m1, m2 :: 0 <= m1 < m2 < |r| ==> r[m1].index != r[m2].index)
      && (forall m1, m2 :: 0 <= m1 < m2 < |r| ==> Key(guess, r[m1]) < Key(guess, r[m2]))
  {
    HintsUpToLength(guess, actual, |guess|);
    HintsUpToElems(guess, actual, |guess|);
    HintsUpToOrder(guess, actual, |guess|);
    HintsUpToCovers(guess, actual, |guess|);
  }

  /** Column k - 1 adds a positive hint for `c` in the first pass exactly when it matches and holds `c`. */
  lemma ExactPositiveStep(guess: string, actual: string, k: nat, c: char)
    requires 0 < k <= |guess|
    ensures PositiveCount(ExactHints(guess, actual, k), c)
            == PositiveCount(ExactHints(guess, actual, k - 1), c)
               + (if SameAt(guess, actual, k - 1) && actual[k - 1] == c then 1 else 0)
  {
    var prev := ExactHints(guess, actual, k - 1);
    var extra := if SameAt(guess, actual, k - 1) then [Hint(actual[k - 1], k - 1, CorrectSpot)] else [];
    PositiveCountAppend(prev, extra, c);
  }

  /** The count of `c` in a prefix grows by the prefix's last letter. */
  lemma CountPrefixStep(s: string, k: nat, c: char)
    requires 0 < k <= |s|
    ensures Count(s[..k], c) == Count(s[..k - 1], c) + (if s[k - 1] == c then 1 else 0)
  {
    assert s[..k][..k - 1] == s[..k - 1];
  }

  /** The first pass below `k` gives letter `c` no more positive hints than the answer's first `k` letters hold. */
  lemma {:induction false} ExactPositiveBound(guess: string, actual: string, k: nat, c: char)
    requires k <= |guess|
    ensures PositiveCount(ExactHints(guess, actual, k), c) <= Count(actual[..if k < |actual| then k else |actual|], c)
  {
    if k > 0 {
      ExactPositiveBound(guess, actual, k - 1, c);
      ExactPositiveStep(guess, actual, k, c);
      if k - 1 < |actual| {
        CountPrefixStep(actual, k, c);
      }
    }
  }

  /** After any prefix of the second pass, no letter has more positive hints than occurrences in the answer. */
  lemma {:induction false} HintsUpToPositiveBound(guess: string, actual: string, k: nat, c: char)
    requires k <= |guess|
    ensures PositiveCount(HintsUpTo(guess, actual, k), c) <= Count(actual, c)
  {
    if k == 0 {
      ExactPositiveBound(guess, actual, |guess|, c);
      CountPrefix(actual, if |guess| < |actual| then |guess| else |actual|, c);
    } else {
      HintsUpToPositiveBound(guess, actual, k - 1, c);
      var prev := HintsUpTo(guess, actual, k - 1);
      if !SameAt(guess, actual, k - 1) {
        PositiveCountAppend(prev, [MismatchHint(prev, guess, actual, k - 1)], c);
      }
    }
  }

  /**
   * The second-pass rule, seen in the result: a hint that is not CorrectSpot
   * is WrongSpot or NoSpot, and WrongSpot exactly when the positive hints
   * emitted before it for its letter, plus one, do not exceed the letter's
   * occurrences in the answer.
   */
  predicate MismatchOk(actual: string, r: seq<Hint>, m: nat)
    requires m < |r|
  {
    r[m].positionHint != CorrectSpot ==>
      && (r[m].positionHint == WrongSpot || r[m].positionHint == NoSpot)
      && (r[m].positionHint == WrongSpot <==> PositiveCount(r[..m], r[m].ch) + 1 <= Count(actual, r[m].ch))
  }

  lemma {:induction false} HintsUpToMismatchRule(guess: string, actual: string, k: nat)
    requires k <= |guess|
    ensures forall m :: 0 <= m < |HintsUpTo(guess, actual, k)| ==> MismatchOk(actual, HintsUpTo(guess, actual, k), m)
  {
    var r := HintsUpTo(guess, actual, k);
    if k == 0 {
      ExactHintsElems(guess, actual, |guess|);
      forall m | 0 <= m < |r| ensures MismatchOk(actual, r, m) {
        assert ExactOk(guess, actual, |guess|, r[m]);
      }
    } else {
      HintsUpToMismatchRule(guess, actual, k - 1);
      var prev := HintsUpTo(guess, actual, k - 1);
      forall m | 0 <= m < |r| ensures MismatchOk(actual, r, m) {
        if m < |prev| {
          assert r[m] == prev[m] && r[..m] == prev[..m];
          assert MismatchOk(actual, prev, m);
        } else {
          assert r[..m] == prev;
        }
      }
    }
  }

  /** No letter receives more CorrectSpot and WrongSpot hints than it has occurrences in the answer. */
  lemma FeedbackPositiveBound(guess: string, actual: string, c: char)
    ensures PositiveCount(Feedback(guess, actual), c) <= Count(actual, c)
  {
    HintsUpToPositiveBound(guess, actual, |guess|, c);
  }

  /** Every mismatched column of getHints follows the WrongSpot/NoSpot counting rule. */
  lemma FeedbackMismatchRule(guess: string, actual: string)
    ensures forall m :: 0 <= m < |Feedback(guess, actual)| ==> MismatchOk(actual, Feedback(guess, actual), m)
  {
    HintsUpToMismatchRule(guess, actual, |guess|);
  }

  /** Soundness: the answer satisfies the row of hints it produces for any guess. */
  lemma FeedbackConsistent(guess: string, actual: string)
    ensures Consistent(actual, [Feedback(guess, actual)])
  {
    var r := Feedback(guess, actual);
    var counted := AddCountsToGrid([r]);
    assert counted[0] == AddCountsToHints(r);
    forall i, k | 0 <= i < |counted| && 0 <= k < |counted[i]|
      ensures MatchesHint(actual, counted[i][k].0, counted[i][k].1)
    {
      assert counted[i][k] == (r[k], PositiveCount(r, r[k].ch));
      FeedbackHintMatches(guess, actual, k);
    }
  }

  /** Each hint of the feedback, with its letter's positive count, matches the answer. */
  lemma FeedbackHintMatches(guess: string, actual: string, k: nat)
    requires k < |Feedback(guess, actual)|
    ensures MatchesHint(actual, Feedback(guess, actual)[k], PositiveCount(Feedback(guess, actual), Feedback(guess, actual)[k].ch))
  {
    var r := Feedback(guess, actual);
    var h := r[k];
    HintsUpToElems(guess, actual, |guess|);
    HintsUpToMismatchRule(guess, actual, |guess|);
    HintsUpToPositiveBound(guess, actual, |guess|, h.ch);
    assert HintOk(guess, actual, |guess|, h);
    assert MismatchOk(actual, r, k);
    if h.positionHint == NoSpot {
      PositiveCountAppend(r[..k], r[k..], h.ch);
      assert r[..k] + r[k..] == r;
    }
  }

  /**
   * The true answer is never excluded by its own feedback: if it survives a
   * grid, it survives that grid extended by the hints of any guess against it.
   */
  lemma FeedbackNeverExcludesAnswer(words: seq<string>, grid: seq<seq<Hint>>, guess: string, actual: string)
    requires actual in FilterWordsForHintGrid(words, grid)
    ensures actual in FilterWordsForHintGrid(words, grid + [Feedback(guess, actual)])
  {
    FeedbackConsistent(guess, actual);
    ConsistentAppend(actual, grid, Feedback(guess, actual));
  }

  /** Guessing the answer itself yields only CorrectSpot hints, so the row reads as solved. */
  lemma FeedbackSelf(w: string)
    ensures forall m :: 0 <= m < |Feedback(w, w)| ==> Feedback(w, w)[m].positionHint == CorrectSpot
    ensures IsCorrectAnswer(Feedback(w, w))
  {
    HintsUpToElems(w, w, |w|);
    forall m | 0 <= m < |Feedback(w, w)| ensures Feedback(w, w)[m].positionHint == CorrectSpot {
      assert HintOk(w, w, |w|, Feedback(w, w)[m]);
    }
  }

  /** For a guess as long as the answer, the row reads as solved exactly when the guess is the answer. */
  lemma FeedbackSolvedIff(guess: string, actual: string)
    requires |guess| == |actual|
    ensures IsCorrectAnswer(Feedback(guess, actual)) <==> guess == actual
  {
    var r := Feedback(guess, actual);
    if guess == actual {
      FeedbackSelf(guess);
    }
    if IsCorrectAnswer(r) {
      HintsUpToElems(guess, actual, |guess|);
      HintsUpToCovers(guess, actual, |guess|);
      forall j | 0 <= j < |guess| ensures guess[j] == actual[j] {
        assert CoversColumn(r, j);
        var m :| 0 <= m < |r| && r[m].index == j;
        assert HintOk(guess, actual, |guess|, r[m]);
      }
    }
  }

  /** Letter counts of the answer "evade" used by the MELEE example. */
  lemma EvadeCounts()
    ensures Count("evade", 'e') == 2 && Count("evade", 'm') == 0 && Count("evade", 'l') == 0
  {
    assert "evade"[..4] == "evad";
    assert "evad"[..3] == "eva";
    assert "eva"[..2] == "ev";
    assert "ev"[..1] == "e";
    assert "e"[..0] == "";
  }

  /** The first pass of "melee" against "evade" finds only the final E. */
  lemma MeleeExactPass()
    ensures ExactHints("melee", "evade", 5) == [Hint('e', 4, CorrectSpot)]
  {
    var g, a := "melee", "evade";
    assert !SameAt(g, a, 0) && !SameAt(g, a, 1) && !SameAt(g, a, 2) && !SameAt(g, a, 3) && SameAt(g, a, 4);
    assert ExactHints(g, a, 4) == [];
  }

  /**
   * The repeated-letter case: guessing MELEE against an answer with exactly
   * two E's, one of them last, marks the last E CorrectSpot, the first E
   * WrongSpot and the middle E NoSpot.
   */
  lemma MeleeExample()
    ensures Feedback("melee", "evade") ==
      [Hint('e', 4, CorrectSpot), Hint('m', 0, NoSpot), Hint('e', 1, WrongSpot), Hint('l', 2, NoSpot), Hint('e', 3, NoSpot)]
  {
    var g, a := "melee", "evade";
    EvadeCounts();
    MeleeFirstMismatches();
    assert !SameAt(g, a, 2) && !SameAt(g, a, 3) && SameAt(g, a, 4);
    var h1 := [Hint('e', 4, CorrectSpot), Hint('m', 0, NoSpot)];
    var h2 := h1 + [Hint('e', 1, WrongSpot)];
    var h3 := h2 + [Hint('l', 2, NoSpot)];
    assert PositiveCount(h2, 'l') == 0 by { PositiveCountBound(h2, 'l'); }
    assert HintsUpTo(g, a, 3) == h3;
    assert PositiveCount(h3, 'e') == 2 by {
      assert h3[..3] == h2;
      assert h2[..2] == h1;
      assert h1[..1] == [Hint('e', 4, CorrectSpot)];
    }
    var h4 := h3 + [Hint('e', 3, NoSpot)];
    assert HintsUpTo(g, a, 4) == h4;
    assert HintsUpTo(g, a, 5) == h4;
  }

  /** The first two columns of "melee" against "evade": M is absent, the first E is WrongSpot. */
  lemma MeleeFirstMismatches()
    ensures HintsUpTo("melee", "evade", 2) == [Hint('e', 4, CorrectSpot), Hint('m', 0, NoSpot), Hint('e', 1, WrongSpot)]
  {
    var g, a := "melee", "evade";
    EvadeCounts();
    MeleeExactPass();
    var e0 := [Hint('e', 4, CorrectSpot)];
    assert !SameAt(g, a, 0) && !SameAt(g, a, 1);
    var h1 := e0 + [Hint('m', 0, NoSpot)];
    assert HintsUpTo(g, a, 1) == h1;
    assert PositiveCount(h1, 'e') == 1 by { assert h1[..1] == e0; }
    assert HintsUpTo(g, a, 2) == h1 + [Hint('e', 1, WrongSpot)];
  }
}
