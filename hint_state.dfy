/**
 * The hint grid the user edits, as pure values: a ROWS x COLS grid of
 * Position values next to the list of words shown in its rows. Both
 * versions of the app keep this state in place; this module says what
 * their operations compute: the previous hint of a cell, the click cycle,
 * clearing the rows after an edited one, the check for new information,
 * prefilling a new row and assembling the grid handed to a strategy.
 */
module HintState {
  import opened Wrappers
  import opened Model
  import opened Util
  import Hints

  /** A snapshot of the hint cells, row by row. */
  type Grid = seq<seq<Position>>

  /** A grid of ROWS rows of COLS cells each. */
  predicate Rect(g: Grid)
  {
    |g| == ROWS && forall i :: 0 <= i < |g| ==> |g[i]| == COLS
  }

  /** Every word shown has COLS letters. */
  predicate FullWords(words: seq<string>)
  {
    forall i :: 0 <= i < |words| ==> |words[i]| == COLS
  }

  /** A row of COLS unknown cells. */
  function BlankRow(): (r: seq<Position>)
    ensures |r| == COLS && forall j :: 0 <= j < COLS ==> r[j] == Unknown
  {
    seq(COLS, _ => Unknown)
  }

  /** The grid of a fresh or reset app: every cell unknown. */
  function BlankGrid(): (g: Grid)
    ensures Rect(g) && forall i, j :: 0 <= i < ROWS && 0 <= j < COLS ==> g[i][j] == Unknown
  {
    seq(ROWS, _ => BlankRow())
  }

  /** Two grids of the same shape with the same cells are the same grid. */
  lemma GridExt(g1: Grid, g2: Grid)
    requires Rect(g1) && Rect(g2)
    requires forall i, j :: 0 <= i < ROWS && 0 <= j < COLS ==> g1[i][j] == g2[i][j]
    ensures g1 == g2
  {
    forall i | 0 <= i < ROWS
      ensures g1[i] == g2[i]
    {
      assert forall j :: 0 <= j < COLS ==> g1[i][j] == g2[i][j];
    }
  }

  /** The rows from `n` on hold only unknown cells. */
  predicate BlankFrom(g: Grid, n: nat)
    requires Rect(g)
  {
    forall i, j :: n <= i < ROWS && 0 <= j < COLS ==> g[i][j] == Unknown
  }

  // ---------------------------------------------------------------------
  // getPreviousHint
  // ---------------------------------------------------------------------

  /**
   * The earliest of the rows before `row` whose word holds `ch` in column
   * `col`, or `row` itself when there is none.
   */
  function FirstRowWith(words: seq<string>, row: nat, col: nat, ch: char): (k: nat)
    requires row <= |words|
    ensures k <= row
    ensures k < row ==> HasCharAt(words[k], col, ch)
    ensures forall i :: 0 <= i < k ==> !HasCharAt(words[i], col, ch)
  {
    if row == 0 then 0
    else
      var k := FirstRowWith(words, row - 1, col, ch);
      if k < row - 1 then k
      else if HasCharAt(words[row - 1], col, ch) then row - 1
      else row
  }

  /**
   * The hint a cell inherits: the hint of the earliest earlier row whose
   * word has the same letter in the same column, or Unknown.
   */
  function PreviousHint(g: Grid, words: seq<string>, row: nat, col: nat, ch: char): Position
    requires Rect(g) && row <= |words| && row <= ROWS && col < COLS
  {
    var k := FirstRowWith(words, row, col, ch);
    if k < row then g[k][col] else Unknown
  }

  /** The inherited hint depends only on the rows before `row`. */
  lemma {:induction false} FirstRowWithEarlierRows(w1: seq<string>, w2: seq<string>, row: nat, col: nat, ch: char)
    requires row <= |w1| && row <= |w2| && w1[..row] == w2[..row]
    ensures FirstRowWith(w1, row, col, ch) == FirstRowWith(w2, row, col, ch)
  {
    if row > 0 {
      assert w1[..row - 1] == w2[..row - 1] by {
        assert w1[..row - 1] == w1[..row][..row - 1];
        assert w2[..row - 1] == w2[..row][..row - 1];
      }
      FirstRowWithEarlierRows(w1, w2, row - 1, col, ch);
      assert w1[row - 1] == w1[..row][row - 1] == w2[..row][row - 1] == w2[row - 1];
    }
  }

  /** Two states that agree on the rows before `row` give every cell of `row` the same inherited hint. */
  lemma PreviousHintEarlierRows(g1: Grid, w1: seq<string>, g2: Grid, w2: seq<string>, row: nat, col: nat, ch: char)
    requires Rect(g1) && Rect(g2) && row <= ROWS && col < COLS
    requires row <= |w1| && row <= |w2| && w1[..row] == w2[..row]
    requires forall i :: 0 <= i < row ==> g1[i][col] == g2[i][col]
    ensures PreviousHint(g1, w1, row, col, ch) == PreviousHint(g2, w2, row, col, ch)
  {
    FirstRowWithEarlierRows(w1, w2, row, col, ch);
  }

  // ---------------------------------------------------------------------
  // The invariant: inherited hints are never contradicted
  // ---------------------------------------------------------------------

  /**
   * Every cell whose letter already appeared in the same column of an
   * earlier row carries that row's hint, so the grid never holds two
   * conflicting hints for one letter in one column.
   */
  ghost predicate Inherits(g: Grid, words: seq<string>)
    requires Rect(g) && FullWords(words)
  {
    forall i, j :: 0 <= i < |words| && i < ROWS && 0 <= j < COLS ==>
      var p := PreviousHint(g, words, i, j, words[i][j]);
      p == Unknown || g[i][j] == p
  }

  /** No earlier row can contradict the first one. */
  lemma InheritsOneWord(g: Grid, words: seq<string>)
    requires Rect(g) && FullWords(words) && |words| <= 1
    ensures Inherits(g, words)
  {
  }

  // ---------------------------------------------------------------------
  // A click: cycle one cell, then clear the later rows
  // ---------------------------------------------------------------------

  /** A click on cell (i, j) is acted on: the row has a word and the cell inherits no hint. */
  predicate ClickAccepted(g: Grid, words: seq<string>, i: nat, j: nat)
    requires Rect(g) && FullWords(words) && i < ROWS && j < COLS
  {
    i < |words| && PreviousHint(g, words, i, j, words[i][j]) == Unknown
  }

  /** The grid with cell (i, j) moved one step along the click cycle. */
  function Cycle(g: Grid, i: nat, j: nat): (r: Grid)
    requires Rect(g) && i < ROWS && j < COLS
    ensures Rect(r)
    ensures r[i][j] == NextHint(g[i][j]) && r[i][j] != g[i][j] && r[i][j] != Unknown
    ensures forall a, b :: 0 <= a < ROWS && 0 <= b < COLS && (a, b) != (i, j) ==> r[a][b] == g[a][b]
  {
    g[i := g[i][j := NextHint(g[i][j])]]
  }

  /** The grid with every row after `r` reset to unknown and the rows up to `r` kept. */
  function ClearAfter(g: Grid, r: nat): (c: Grid)
    requires Rect(g)
    ensures Rect(c) && BlankFrom(c, r + 1)
    ensures forall i :: 0 <= i <= r && i < ROWS ==> c[i] == g[i]
  {
    var c := seq(ROWS, (i: int) requires 0 <= i < ROWS => if i <= r then g[i] else BlankRow());
    assert forall i :: 0 <= i < ROWS ==> c[i] == if i <= r then g[i] else BlankRow();
    c
  }

  /** An accepted click keeps inherited hints intact and blanks every row without a word. */
  lemma ClickKeepsInvariant(g: Grid, words: seq<string>, i: nat, j: nat)
    requires Rect(g) && FullWords(words) && i < ROWS && j < COLS
    requires Inherits(g, words) && ClickAccepted(g, words, i, j)
    ensures FullWords(words[..i + 1])
    ensures Inherits(ClearAfter(Cycle(g, i, j), i), words[..i + 1])
    ensures BlankFrom(ClearAfter(Cycle(g, i, j), i), |words[..i + 1]|)
  {
    var c := ClearAfter(Cycle(g, i, j), i);
    var w := words[..i + 1];
    forall a, b | 0 <= a < |w| && a < ROWS && 0 <= b < COLS
      ensures var p := PreviousHint(c, w, a, b, w[a][b]); p == Unknown || c[a][b] == p
    {
      assert w[..a] == words[..a];
      forall k | 0 <= k < a ensures c[k][b] == g[k][b] {
      }
      PreviousHintEarlierRows(c, w, g, words, a, b, w[a][b]);
      if (a, b) == (i, j) {
      } else {
        assert c[a][b] == g[a][b];
      }
    }
  }

  // ---------------------------------------------------------------------
  // Refreshing: the check for new information and the prefilled new row
  // ---------------------------------------------------------------------

  /** The last row's cell in column `col` differs from the hint it would inherit. */
  predicate NewHintAt(g: Grid, words: seq<string>, col: nat)
    requires Rect(g) && FullWords(words) && 1 <= |words| <= ROWS && col < COLS
  {
    g[|words| - 1][col] != PreviousHint(g, words, |words| - 1, col, words[|words| - 1][col])
  }

  /** The last row's cell in column `col` inherits nothing and the user has set it. */
  predicate UserHintAt(g: Grid, words: seq<string>, col: nat)
    requires Rect(g) && FullWords(words) && 1 <= |words| <= ROWS && col < COLS
  {
    PreviousHint(g, words, |words| - 1, col, words[|words| - 1][col]) == Unknown &&
    g[|words| - 1][col] != Unknown
  }

  /** Some cell of the last row differs from the hint it would inherit. */
  predicate HasNewHint(g: Grid, words: seq<string>)
    requires Rect(g) && FullWords(words) && 1 <= |words| <= ROWS
  {
    exists col :: 0 <= col < COLS && NewHintAt(g, words, col)
  }

  /**
   * While inherited hints are intact, the last row holds new information
   * exactly when the user has set a cell that inherits nothing.
   */
  lemma HasNewHintMeaning(g: Grid, words: seq<string>)
    requires Rect(g) && FullWords(words) && 1 <= |words| <= ROWS && Inherits(g, words)
    ensures HasNewHint(g, words) <==> exists col :: 0 <= col < COLS && UserHintAt(g, words, col)
  {
    if HasNewHint(g, words) {
      var col :| 0 <= col < COLS && NewHintAt(g, words, col);
      assert UserHintAt(g, words, col);
    }
    if exists col :: 0 <= col < COLS && UserHintAt(g, words, col) {
      var col :| 0 <= col < COLS && UserHintAt(g, words, col);
      assert NewHintAt(g, words, col);
    }
  }

  /** The row prefilled for `word` below `words`: every cell takes the hint it inherits. */
  function InheritedRow(g: Grid, words: seq<string>, word: string): (r: seq<Position>)
    requires Rect(g) && |words| < ROWS && |word| == COLS
    ensures |r| == COLS
  {
    seq(COLS, (col: int) requires 0 <= col < COLS => PreviousHint(g, words, |words|, col, word[col]))
  }

  /** The docs variant of the prefill: a cell that inherits nothing starts as NoSpot. */
  function InheritedRowOrNoSpot(g: Grid, words: seq<string>, word: string): (r: seq<Position>)
    requires Rect(g) && |words| < ROWS && |word| == COLS
    ensures |r| == COLS
    ensures forall col :: 0 <= col < COLS ==> r[col] != Unknown
  {
    seq(COLS, (col: int) requires 0 <= col < COLS =>
      var p := PreviousHint(g, words, |words|, col, word[col]);
      if p == Unknown then NoSpot else p)
  }

  /**
   * Appending a word whose row agrees with every hint it inherits keeps the
   * invariant, and leaves the rows after it blank.
   */
  lemma AppendKeepsInvariant(g: Grid, words: seq<string>, word: string, row: seq<Position>)
    requires Rect(g) && FullWords(words) && |words| < ROWS && |word| == COLS && |row| == COLS
    requires Inherits(g, words) && BlankFrom(g, |words|)
    requires forall col :: 0 <= col < COLS ==>
      var p := PreviousHint(g, words, |words|, col, word[col]); p == Unknown || row[col] == p
    ensures Rect(g[|words| := row]) && FullWords(words + [word])
    ensures Inherits(g[|words| := row], words + [word])
    ensures BlankFrom(g[|words| := row], |words| + 1)
  {
    var g' := g[|words| := row];
    var w' := words + [word];
    forall a, b | 0 <= a < |w'| && a < ROWS && 0 <= b < COLS
      ensures var p := PreviousHint(g', w', a, b, w'[a][b]); p == Unknown || g'[a][b] == p
    {
      assert w'[..a] == words[..a];
      PreviousHintEarlierRows(g', w', g, words, a, b, w'[a][b]);
    }
  }

  /** Both prefills agree with every inherited hint. */
  lemma PrefillsInherit(g: Grid, words: seq<string>, word: string)
    requires Rect(g) && |words| < ROWS && |word| == COLS
    ensures forall col :: 0 <= col < COLS ==>
      InheritedRow(g, words, word)[col] == PreviousHint(g, words, |words|, col, word[col])
    ensures forall col :: 0 <= col < COLS ==>
      var p := PreviousHint(g, words, |words|, col, word[col]);
      InheritedRowOrNoSpot(g, words, word)[col] == (if p == Unknown then NoSpot else p)
  {
  }

  /** Adding a word past the last row changes no cell and keeps the invariant on the rows that exist. */
  lemma OverflowKeepsInvariant(g: Grid, words: seq<string>, word: string)
    requires Rect(g) && FullWords(words) && |words| >= ROWS && |word| == COLS && Inherits(g, words)
    ensures FullWords(words + [word]) && Inherits(g, words + [word])
  {
    var w' := words + [word];
    forall a, b | 0 <= a < |w'| && a < ROWS && 0 <= b < COLS
      ensures var p := PreviousHint(g, w', a, b, w'[a][b]); p == Unknown || g[a][b] == p
    {
      assert w'[..a] == words[..a];
      PreviousHintEarlierRows(g, w', g, words, a, b, w'[a][b]);
    }
  }

  // ---------------------------------------------------------------------
  // The hint grid handed to a strategy
  // ---------------------------------------------------------------------

  /** One row of hints per word: letter, column and the cell's hint. */
  function GridHints(g: Grid, words: seq<string>): (r: seq<seq<Hint>>)
    requires Rect(g) && FullWords(words) && |words| <= ROWS
    ensures |r| == |words|
    ensures forall i :: 0 <= i < |words| ==> |r[i]| == COLS
    ensures forall i, j :: 0 <= i < |words| && 0 <= j < COLS ==> r[i][j] == Hint(words[i][j], j, g[i][j])
  {
    seq(|words|, (i: int) requires 0 <= i < |words| =>
      seq(COLS, (j: int) requires 0 <= j < COLS => Hint(words[i][j], j, g[i][j])))
  }

  /** Every cell of the row is CorrectSpot. */
  predicate AllCorrect(row: seq<Position>)
  {
    forall j :: 0 <= j < |row| ==> row[j] == CorrectSpot
  }

  /** A row of the assembled grid is a correct answer exactly when every cell of its row is CorrectSpot. */
  lemma SolvedRow(g: Grid, words: seq<string>, i: nat)
    requires Rect(g) && FullWords(words) && |words| <= ROWS && i < |words|
    ensures Hints.IsCorrectAnswer(GridHints(g, words)[i]) <==> AllCorrect(g[i])
  {
    var row := GridHints(g, words)[i];
    assert forall k :: 0 <= k < |row| ==> row[k].positionHint == g[i][k];
  }

  /** How a refresh of the word list ended. */
  datatype Refresh =
    | GridOverflow          // a row past the grid has a word: reading its cells throws
    | AlreadySolved         // the last row is all CorrectSpot: nothing to ask
    | NothingNew            // the last row holds only inherited hints: nothing to ask
    | Requested(id: nat, grid: seq<seq<Hint>>)  // a strategy was asked, under this refresh id
    | Stale                 // an answer arrived for a request that was superseded
    | NoWord                // the strategy had no word
    | RowOverflow(word: string)  // the word was added past the last row; prefilling its cells throws
    | Added(word: string)   // the word was added and its row prefilled
}
