/**
 * The hint-editing state of the published app: the same grid of hints and
 * list of words, edited by the same clicks, but every configuration change
 * resets the grid, a solved last row stops further requests, the strategy
 * is asked asynchronously under a refresh id so that only the answer to
 * the latest request is applied, and a new row's cells that inherit no
 * hint start as NoSpot.
 */
module DocsApp {
  import opened Wrappers
  import opened Model
  import opened Util
  import opened HintState
  import Hints

  /** The strategy and its options. */
  datatype AlgorithmConfig = AlgorithmConfig(algorithmId: string, options: AlgorithmOptions)

  /** The configuration the app starts with. */
  const INITIAL_CONFIG: AlgorithmConfig := AlgorithmConfig("SCORED", AlgorithmOptions(false))

  class App {
    /** The selected strategy and its options. */
    var config: AlgorithmConfig
    /** The hint the user gave each cell. */
    const hintState: array2<Position>
    /** The word shown in each row, top down. */
    var words: seq<string>
    /** The id of the latest request for a word. */
    var refreshId: nat

    /** The hint cells, row by row. */
    function Cells(): (g: Grid)
      reads hintState
      requires hintState.Length0 == ROWS && hintState.Length1 == COLS
      ensures Rect(g)
      ensures forall i, j :: 0 <= i < ROWS && 0 <= j < COLS ==> g[i][j] == hintState[i, j]
    {
      seq(ROWS, (i: int) requires 0 <= i < ROWS reads hintState =>
        seq(COLS, (j: int) requires 0 <= j < COLS reads hintState => hintState[i, j]))
    }

    /**
     * The app's invariant: a full grid, words of COLS letters, rows without
     * a word blank, and inherited hints never contradicted.
     */
    ghost predicate Valid()
      reads this`words, hintState
    {
      && hintState.Length0 == ROWS && hintState.Length1 == COLS
      && FullWords(words)
      && BlankFrom(Cells(), |words|)
      && Inherits(Cells(), words)
    }

    /**
     * The initial configuration, then a reset: an empty grid, no words, and
     * a request for the empty grid's word pending under refresh id 1.
     */
    constructor ()
      ensures Valid() && fresh(hintState)
      ensures config == INITIAL_CONFIG
      ensures Cells() == BlankGrid() && words == [] && refreshId == 1
    {
      hintState := new Position[ROWS, COLS];
      words := [];
      config := INITIAL_CONFIG;
      refreshId := 0;
      new;
      var outcome := Reset();
    }

    /** updateConfig: takes the newly selected strategy id and resets. */
    method UpdateConfig(algorithmId: string) returns (outcome: Refresh)
      requires hintState.Length0 == ROWS && hintState.Length1 == COLS
      modifies this`config, this`words, this`refreshId, hintState
      ensures config == old(config).(algorithmId := algorithmId)
      ensures Valid() && Cells() == BlankGrid() && words == []
      ensures refreshId == old(refreshId) + 1 && outcome == Requested(refreshId, [])
    {
      config := config.(algorithmId := algorithmId);
      outcome := Reset();
    }

    /** reset: every cell unknown, no words, and a request for the empty grid's word. */
    method Reset() returns (outcome: Refresh)
      requires hintState.Length0 == ROWS && hintState.Length1 == COLS
      modifies this`words, this`refreshId, hintState
      ensures Valid() && Cells() == BlankGrid() && words == []
      ensures refreshId == old(refreshId) + 1 && outcome == Requested(refreshId, [])
    {
      for i := 0 to ROWS
        invariant refreshId == old(refreshId)
        invariant forall r, c :: 0 <= r < i && 0 <= c < COLS ==> hintState[r, c] == Unknown
      {
        for j := 0 to COLS
          invariant refreshId == old(refreshId)
          invariant forall r, c :: 0 <= r < i && 0 <= c < COLS ==> hintState[r, c] == Unknown
          invariant forall c :: 0 <= c < j ==> hintState[i, c] == Unknown
        {
          hintState[i, j] := Unknown;
        }
      }
      words := [];
      GridExt(Cells(), BlankGrid());
      assert GridHints(Cells(), words) == [];
      outcome := RefreshWords();
    }

    /** getPreviousHint: the hint cell (row, col) inherits for letter `ch`. */
    method GetPreviousHint(row: nat, col: nat, ch: char) returns (r: Position)
      requires hintState.Length0 == ROWS && hintState.Length1 == COLS
      requires row <= |words| && row <= ROWS && col < COLS
      ensures r == PreviousHint(Cells(), words, row, col, ch)
    {
      for i := 0 to row
        invariant FirstRowWith(words, row, col, ch) >= i
      {
        var word := words[i];
        if HasCharAt(word, col, ch) {
          return hintState[i, col];
        }
      }
      return Unknown;
    }

    /** clearStateAfterRow: keeps the words up to `rowIndex` and blanks every later row. */
    method ClearStateAfterRow(rowIndex: nat)
      requires hintState.Length0 == ROWS && hintState.Length1 == COLS
      requires rowIndex < |words| && rowIndex < ROWS
      modifies this`words, hintState
      ensures words == old(words)[..rowIndex + 1]
      ensures Cells() == ClearAfter(old(Cells()), rowIndex)
    {
      words := words[..rowIndex + 1];
      for i := rowIndex + 1 to ROWS
        invariant words == old(words)[..rowIndex + 1]
        invariant forall r, c :: 0 <= r < ROWS && 0 <= c < COLS ==>
          hintState[r, c] == if rowIndex < r < i then Unknown else old(hintState[r, c])
      {
        for j := 0 to COLS
          invariant words == old(words)[..rowIndex + 1]
          invariant forall r, c :: 0 <= r < ROWS && 0 <= c < COLS ==>
            hintState[r, c] == if rowIndex < r < i || (r == i && c < j) then Unknown else old(hintState[r, c])
        {
          hintState[i, j] := Unknown;
        }
      }
      GridExt(Cells(), ClearAfter(old(Cells()), rowIndex));
    }

    /**
     * A click on cell (i, j): ignored for a row without a word or a cell
     * that inherits a hint; otherwise the cell moves one step along the
     * click cycle, the later rows are cleared, and a refresh is due.
     */
    method Click(i: nat, j: nat) returns (refresh: bool)
      requires Valid() && i < ROWS && j < COLS
      modifies this`words, hintState
      ensures Valid()
      ensures refresh == ClickAccepted(old(Cells()), old(words), i, j)
      ensures refresh ==> words == old(words)[..i + 1] && Cells() == ClearAfter(Cycle(old(Cells()), i, j), i)
      ensures !refresh ==> words == old(words) && Cells() == old(Cells())
    {
      if i >= |words| {
        return false;
      }
      var previous := GetPreviousHint(i, j, words[i][j]);
      if previous != Unknown {
        return false;
      }
      ApplyClick(i, j);
      refresh := true;
    }

    /** An accepted click: cell (i, j) moves one step along the click cycle and the later rows are cleared. */
    method ApplyClick(i: nat, j: nat)
      requires Valid() && i < ROWS && j < COLS && i < |words|
      requires ClickAccepted(Cells(), words, i, j)
      modifies this`words, hintState
      ensures Valid()
      ensures words == old(words)[..i + 1] && Cells() == ClearAfter(Cycle(old(Cells()), i, j), i)
    {
      ghost var before := Cells();
      var currentState := hintState[i, j];
      var index := IndexOfHint(currentState) + 1;
      hintState[i, j] := POSITION_HINTS[index % |POSITION_HINTS|];
      GridExt(Cells(), Cycle(before, i, j));
      ClearStateAfterRow(i);
      ClickKeepsInvariant(before, old(words), i, j);
    }

    /** The hint grid handed to the strategy: one row of hints per word. */
    method AssembleGrid() returns (hintGrid: seq<seq<Hint>>)
      requires hintState.Length0 == ROWS && hintState.Length1 == COLS
      requires FullWords(words) && |words| <= ROWS
      ensures hintGrid == GridHints(Cells(), words)
    {
      hintGrid := [];
      for i := 0 to |words|
        invariant |hintGrid| == i
        invariant forall r :: 0 <= r < i ==> hintGrid[r] == GridHints(Cells(), words)[r]
      {
        var wordHints := [];
        for j := 0 to COLS
          invariant |wordHints| == j
          invariant forall c :: 0 <= c < j ==> wordHints[c] == Hint(words[i][c], c, hintState[i, c])
        {
          var positionHint := hintState[i, j];
          var word := words[i];
          wordHints := wordHints + [Hint(word[j], j, positionHint)];
        }
        hintGrid := hintGrid + [wordHints];
      }
    }

    /** Whether some cell of the last row differs from the hint it would inherit. */
    method CheckNewHint() returns (hasHint: bool)
      requires hintState.Length0 == ROWS && hintState.Length1 == COLS
      requires FullWords(words) && 1 <= |words| <= ROWS
      ensures hasHint == HasNewHint(Cells(), words)
    {
      hasHint := false;
      var lastRow := |words| - 1;
      for i := 0 to COLS
        invariant !hasHint
        invariant forall c :: 0 <= c < i ==> !NewHintAt(Cells(), words, c)
      {
        var ch := words[lastRow][i];
        var positionHint := hintState[lastRow, i];
        var previous := GetPreviousHint(lastRow, i, ch);
        if positionHint != previous {
          assert NewHintAt(Cells(), words, i);
          hasHint := true;
          break;
        }
      }
    }

    /** Fills the last row, just added for `word`, with inherited hints, NoSpot where a cell inherits none. */
    method Prefill(word: string)
      requires hintState.Length0 == ROWS && hintState.Length1 == COLS
      requires 1 <= |words| <= ROWS && |word| == COLS && words[|words| - 1] == word
      modifies hintState
      ensures Cells() == old(Cells())[|words| - 1 := InheritedRowOrNoSpot(old(Cells()), words[..|words| - 1], word)]
    {
      ghost var before := Cells();
      ghost var row := |words| - 1;
      ghost var expected := InheritedRowOrNoSpot(before, words[..row], word);
      for col := 0 to COLS
        invariant forall r, c :: 0 <= r < ROWS && 0 <= c < COLS ==>
          hintState[r, c] == if r == row && c < col then expected[c] else before[r][c]
      {
        PrefillCell(word, col, before);
      }
      GridExt(Cells(), before[row := expected]);
    }

    /** One pass of the prefill loop: cell `col` of the last row takes its inherited hint, or NoSpot. */
    method PrefillCell(word: string, col: nat, ghost before: Grid)
      requires hintState.Length0 == ROWS && hintState.Length1 == COLS && Rect(before)
      requires 1 <= |words| <= ROWS && |word| == COLS && words[|words| - 1] == word && col < COLS
      requires forall r, c :: 0 <= r < ROWS && 0 <= c < COLS ==>
        hintState[r, c] == if r == |words| - 1 && c < col
                           then InheritedRowOrNoSpot(before, words[..|words| - 1], word)[c] else before[r][c]
      modifies hintState
      ensures forall r, c :: 0 <= r < ROWS && 0 <= c < COLS ==>
        hintState[r, c] == if r == |words| - 1 && c < col + 1
                           then InheritedRowOrNoSpot(before, words[..|words| - 1], word)[c] else before[r][c]
    {
      var ch := word[col];
      var row := |words| - 1;
      ghost var expected := InheritedRowOrNoSpot(before, words[..row], word);
      var previousHint := GetPreviousHint(row, col, ch);
      PreviousHintEarlierRows(Cells(), words, before, words[..row], row, col, ch);
      hintState[row, col] := if previousHint == Unknown then NoSpot else previousHint;
      forall r, c | 0 <= r < ROWS && 0 <= c < COLS
        ensures hintState[r, c] == if r == row && c < col + 1 then expected[c] else before[r][c]
      {
        if r != row || c != col {
          assert hintState[r, c] == old(hintState[r, c]);
        }
      }
    }

    /**
     * _refreshWords: no request when the last row is solved or, with some
     * word shown, holds only inherited hints; otherwise a request for the
     * next word goes out under a new refresh id. A word list already past
     * the last row makes assembling the grid throw.
     */
    method RefreshWords() returns (outcome: Refresh)
      requires hintState.Length0 == ROWS && hintState.Length1 == COLS && FullWords(words)
      modifies this`refreshId
      ensures outcome.GridOverflow? <==> |words| > ROWS
      ensures outcome.AlreadySolved? <==> 1 <= |words| <= ROWS && AllCorrect(Cells()[|words| - 1])
      ensures outcome.NothingNew? <==> 1 <= |words| <= ROWS && !AllCorrect(Cells()[|words| - 1]) && !HasNewHint(Cells(), words)
      ensures outcome.GridOverflow? || outcome.AlreadySolved? || outcome.NothingNew? || outcome.Requested?
      ensures outcome.Requested? ==> refreshId == old(refreshId) + 1 && outcome == Requested(refreshId, GridHints(Cells(), words))
      ensures !outcome.Requested? ==> refreshId == old(refreshId)
    {
      if |words| > ROWS {
        return GridOverflow;
      }
      var hintGrid := AssembleGrid();
      if |hintGrid| > 0 {
        SolvedRow(Cells(), words, |hintGrid| - 1);
        if Hints.IsCorrectAnswer(hintGrid[|hintGrid| - 1]) {
          return AlreadySolved;
        }
      }
      if |words| > 0 {
        var hasHint := CheckNewHint();
        if !hasHint {
          return NothingNew;
        }
      }
      refreshId := refreshId + 1;
      outcome := Requested(refreshId, hintGrid);
    }

    /**
     * The answer to request `id` arrives: ignored unless `id` is the latest
     * refresh id and the word is not empty; otherwise the word is appended
     * and its row prefilled.
     */
    method Receive(id: nat, newWord: Option<string>) returns (outcome: Refresh)
      requires Valid() && (!Falsy(newWord) ==> |newWord.value| == COLS)
      modifies this`words, hintState
      ensures Valid()
      ensures id != refreshId ==> outcome == Stale
      ensures id == refreshId && Falsy(newWord) ==> outcome == NoWord
      ensures id != refreshId || Falsy(newWord) ==> words == old(words) && Cells() == old(Cells())
      ensures id == refreshId && !Falsy(newWord) ==> words == old(words) + [newWord.value]
      ensures id == refreshId && !Falsy(newWord) && |old(words)| >= ROWS ==>
        outcome == RowOverflow(newWord.value) && Cells() == old(Cells())
      ensures id == refreshId && !Falsy(newWord) && |old(words)| < ROWS ==>
        (outcome == Added(newWord.value) &&
         Cells() == old(Cells())[|old(words)| := InheritedRowOrNoSpot(old(Cells()), old(words), newWord.value)])
    {
      if id != refreshId {
        return Stale;
      }
      if Falsy(newWord) {
        return NoWord;
      }
      outcome := AppendWord(newWord.value);
    }

    /**
     * Appends the received word and prefills its row; past the last row
     * there are no cells to prefill and the write throws.
     */
    method AppendWord(word: string) returns (outcome: Refresh)
      requires Valid() && |word| == COLS
      modifies this`words, hintState
      ensures Valid() && words == old(words) + [word]
      ensures |old(words)| >= ROWS ==> outcome == RowOverflow(word) && Cells() == old(Cells())
      ensures |old(words)| < ROWS ==>
        (outcome == Added(word) &&
         Cells() == old(Cells())[|old(words)| := InheritedRowOrNoSpot(old(Cells()), old(words), word)])
    {
      ghost var before := Cells();
      ghost var oldWords := words;
      words := words + [word];
      if |words| > ROWS {
        OverflowKeepsInvariant(before, oldWords, word);
        return RowOverflow(word);
      }
      assert words[..|words| - 1] == oldWords;
      Prefill(word);
      PrefillsInherit(before, oldWords, word);
      AppendKeepsInvariant(before, oldWords, word, InheritedRowOrNoSpot(before, oldWords, word));
      outcome := Added(word);
    }
  }
}
