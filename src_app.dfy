/**
 * The hint-editing state of the solver app (the version that asks its
 * strategy directly): a ROWS x COLS array of hints and the list of words
 * shown, changed in place by cell clicks, by clearing the rows after an
 * edited one and by refreshing the word list with the strategy's next word.
 */
module SrcApp {
  import opened Wrappers
  import opened Model
  import opened Util
  import opened HintState

  /** The id of the strategy an unknown id falls back to. */
  const FIRST: string := "FIRST"

  /** A strategy whose words, when it has one, have COLS letters. */
  ghost predicate OffersFullWords(s: Strategy)
  {
    forall g :: !Falsy(s(g)) ==> |s(g).value| == COLS
  }

  /** The strategy registry: FIRST is registered and every strategy offers full words. */
  ghost predicate ValidRegistry(algorithms: map<string, Strategy>)
  {
    FIRST in algorithms && forall id :: id in algorithms ==> OffersFullWords(algorithms[id])
  }

  /** The next word from the selected strategy, or from FIRST when the id is not registered. */
  function ProvideNextWord(algorithms: map<string, Strategy>, algorithmId: string, grid: seq<seq<Hint>>): (r: Option<string>)
    requires FIRST in algorithms
    ensures algorithmId in algorithms ==> r == algorithms[algorithmId](grid)
    ensures algorithmId !in algorithms ==> r == algorithms[FIRST](grid)
  {
    var provideNextWord := if algorithmId in algorithms then algorithms[algorithmId] else algorithms[FIRST];
    provideNextWord(grid)
  }

  /** Whatever the selected id, a word the app receives has COLS letters. */
  lemma ProvideNextWordIsFull(algorithms: map<string, Strategy>, algorithmId: string, grid: seq<seq<Hint>>)
    requires ValidRegistry(algorithms)
    ensures !Falsy(ProvideNextWord(algorithms, algorithmId, grid)) ==>
      |ProvideNextWord(algorithms, algorithmId, grid).value| == COLS
  {
    var s := if algorithmId in algorithms then algorithms[algorithmId] else algorithms[FIRST];
    assert OffersFullWords(s);
  }

  /*
   * Cells, GetPreviousHint, AssembleGrid and CheckNewHint are the same as in
   * DocsApp.App on purpose: src/App.js and docs/App.js each carry their own
   * copy of these functions.
   */
  class App {
    /** The strategy registry, by id. */
    const algorithms: map<string, Strategy>
    /** The selected strategy's id. */
    var algorithmId: string
    /** The hint the user gave each cell. */
    const hintState: array2<Position>
    /** The word shown in each row, top down. */
    var words: seq<string>

    /** The hint cells, row by row. */
    function Cells(): (g: Grid)
      reads hintState
      requires hintState.Length0 == ROWS && hintState.Length1 == COLS
      ensures Rect(g)
      ensures forall i, j :: 0 <= i < ROWS && 0 <= j < COLS ==> g[i][j] == hintState[i, j]
    {
      seq(ROWS, (i: int) requires 0 <= i < ROWS reads hintState =>
        seq(COLS, (j: int) requires 0 <= j < COLS reads hintState => hintState[i, j]))
    }

    /**
     * The app's invariant: a full grid, between one word and one word past
     * the last row, words of COLS letters, rows without a word blank, and
     * inherited hints never contradicted.
     */
    ghost predicate Valid()
      reads this`words, hintState
    {
      && hintState.Length0 == ROWS && hintState.Length1 == COLS
      && ValidRegistry(algorithms)
      && 1 <= |words| <= ROWS + 1
      && FullWords(words)
      && BlankFrom(Cells(), |words|)
      && Inherits(Cells(), words)
    }

    /** An empty grid, FIRST selected, and FIRST's word for the empty grid in the first row. */
    constructor (algorithms: map<string, Strategy>)
      requires ValidRegistry(algorithms) && !Falsy(algorithms[FIRST]([]))
      ensures Valid() && fresh(hintState)
      ensures this.algorithms == algorithms && algorithmId == FIRST
      ensures Cells() == BlankGrid()
      ensures words == [algorithms[FIRST]([]).value]
    {
      this.algorithms := algorithms;
      algorithmId := FIRST;
      var grid := new Position[ROWS, COLS];
      for i := 0 to ROWS
        invariant forall r, c :: 0 <= r < i && 0 <= c < COLS ==> grid[r, c] == Unknown
      {
        for j := 0 to COLS
          invariant forall r, c :: 0 <= r < i && 0 <= c < COLS ==> grid[r, c] == Unknown
          invariant forall c :: 0 <= c < j ==> grid[i, c] == Unknown
        {
          grid[i, j] := Unknown;
        }
      }
      hintState := grid;
      var first := ProvideNextWord(algorithms, FIRST, []);
      assert OffersFullWords(algorithms[FIRST]);
      words := [first.value];
      new;
      GridExt(Cells(), BlankGrid());
    }

    /** The strategy selector changed: later refreshes ask the newly selected strategy. */
    method SelectAlgorithm(id: string)
      requires Valid()
      modifies this`algorithmId
      ensures Valid() && algorithmId == id
    {
      algorithmId := id;
    }

    /** getPreviousHint: the hint cell (row, col) inherits for letter `ch`. */
    method GetPreviousHint(row: nat, col: nat, ch: char) returns (r: Position)
      requires hintState.Length0 == ROWS && hintState.Length1 == COLS
      requires row <= |words| && row <= ROWS && col < COLS
      ensures r == PreviousHint(Cells(), words, row, col, ch)
    {
      for i := 0 to row
        invariant FirstRowWith(words, row, col, ch) >= i
      {
        var word := words[i];
        if HasCharAt(word, col, ch) {
          return hintState[i, col];
        }
      }
      return Unknown;
    }

    /** clearStateAfterRow: keeps the words up to `rowIndex` and blanks every later row. */
    method ClearStateAfterRow(rowIndex: nat)
      requires hintState.Length0 == ROWS && hintState.Length1 == COLS
      requires rowIndex < |words| && rowIndex < ROWS
      modifies this`words, hintState
      ensures words == old(words)[..rowIndex + 1]
      ensures Cells() == ClearAfter(old(Cells()), rowIndex)
    {
      words := words[..rowIndex + 1];
      for i := rowIndex + 1 to ROWS
        invariant words == old(words)[..rowIndex + 1]
        invariant forall r, c :: 0 <= r < ROWS && 0 <= c < COLS ==>
          hintState[r, c] == if rowIndex < r < i then Unknown else old(hintState[r, c])
      {
        for j := 0 to COLS
          invariant words == old(words)[..rowIndex + 1]
          invariant forall r, c :: 0 <= r < ROWS && 0 <= c < COLS ==>
            hintState[r, c] == if rowIndex < r < i || (r == i && c < j) then Unknown else old(hintState[r, c])
        {
          hintState[i, j] := Unknown;
        }
      }
      GridExt(Cells(), ClearAfter(old(Cells()), rowIndex));
    }

    /**
     * A click on cell (i, j): ignored for a row without a word or a cell
     * that inherits a hint; otherwise the cell moves one step along the
     * click cycle, the later rows are cleared, and a refresh is due.
     */
    method Click(i: nat, j: nat) returns (refresh: bool)
      requires Valid() && i < ROWS && j < COLS
      modifies this`words, hintState
      ensures Valid()
      ensures refresh == ClickAccepted(old(Cells()), old(words), i, j)
      ensures refresh ==> words == old(words)[..i + 1] && Cells() == ClearAfter(Cycle(old(Cells()), i, j), i)
      ensures !refresh ==> words == old(words) && Cells() == old(Cells())
    {
      if i >= |words| {
        return false;
      }
      var previous := GetPreviousHint(i, j, words[i][j]);
      if previous != Unknown {
        return false;
      }
      ApplyClick(i, j);
      refresh := true;
    }

    /** An accepted click: cell (i, j) moves one step along the click cycle and the later rows are cleared. */
    method ApplyClick(i: nat, j: nat)
      requires Valid() && i < ROWS && j < COLS && i < |words|
      requires ClickAccepted(Cells(), words, i, j)
      modifies this`words, hintState
      ensures Valid()
      ensures words == old(words)[..i + 1] && Cells() == ClearAfter(Cycle(old(Cells()), i, j), i)
    {
      ghost var before := Cells();
      var currentState := hintState[i, j];
      var index := IndexOfHint(currentState) + 1;
      hintState[i, j] := POSITION_HINTS[index % |POSITION_HINTS|];
      GridExt(Cells(), Cycle(before, i, j));
      ClearStateAfterRow(i);
      ClickKeepsInvariant(before, old(words), i, j);
    }

    /** The hint grid handed to the strategy: one row of hints per word. */
    method AssembleGrid() returns (hintGrid: seq<seq<Hint>>)
      requires hintState.Length0 == ROWS && hintState.Length1 == COLS
      requires FullWords(words) && |words| <= ROWS
      ensures hintGrid == GridHints(Cells(), words)
    {
      hintGrid := [];
      for i := 0 to |words|
        invariant |hintGrid| == i
        invariant forall r :: 0 <= r < i ==> hintGrid[r] == GridHints(Cells(), words)[r]
      {
        var wordHints := [];
        for j := 0 to COLS
          invariant |wordHints| == j
          invariant forall c :: 0 <= c < j ==> wordHints[c] == Hint(words[i][c], c, hintState[i, c])
        {
          var positionHint := hintState[i, j];
          var word := words[i];
          wordHints := wordHints + [Hint(word[j], j, positionHint)];
        }
        hintGrid := hintGrid + [wordHints];
      }
    }

    /** Whether some cell of the last row differs from the hint it would inherit. */
    method CheckNewHint() returns (hasHint: bool)
      requires hintState.Length0 == ROWS && hintState.Length1 == COLS
      requires FullWords(words) && 1 <= |words| <= ROWS
      ensures hasHint == HasNewHint(Cells(), words)
    {
      hasHint := false;
      var lastRow := |words| - 1;
      for i := 0 to COLS
        invariant !hasHint
        invariant forall c :: 0 <= c < i ==> !NewHintAt(Cells(), words, c)
      {
        var ch := words[lastRow][i];
        var positionHint := hintState[lastRow, i];
        var previous := GetPreviousHint(lastRow, i, ch);
        if positionHint != previous {
          assert NewHintAt(Cells(), words, i);
          hasHint := true;
          break;
        }
      }
    }

    /** Fills the last row, just added for `word`, with the hints its cells inherit. */
    method Prefill(word: string)
      requires hintState.Length0 == ROWS && hintState.Length1 == COLS
      requires 1 <= |words| <= ROWS && |word| == COLS && words[|words| - 1] == word
      modifies hintState
      ensures Cells() == old(Cells())[|words| - 1 := InheritedRow(old(Cells()), words[..|words| - 1], word)]
    {
      ghost var before := Cells();
      ghost var row := |words| - 1;
      ghost var expected := InheritedRow(before, words[..row], word);
      for col := 0 to COLS
        invariant forall r, c :: 0 <= r < ROWS && 0 <= c < COLS ==>
          hintState[r, c] == if r == row && c < col then expected[c] else before[r][c]
      {
        var ch := word[col];
        var row := |words| - 1;
        var previous := GetPreviousHint(row, col, ch);
        PreviousHintEarlierRows(Cells(), words, before, words[..row], row, col, ch);
        hintState[row, col] := previous;
      }
      GridExt(Cells(), before[row := expected]);
    }

    /**
     * _refreshWords: when the last row holds new information, asks the
     * selected strategy for the next word, appends it and prefills its row.
     * A word list already past the last row makes assembling the grid
     * throw; a word appended past the last row makes prefilling throw.
     */
    method RefreshWords() returns (outcome: Refresh)
      requires Valid()
      modifies this`words, hintState
      ensures Valid()
      ensures outcome.GridOverflow? <==> |old(words)| > ROWS
      ensures outcome.NothingNew? <==> |old(words)| <= ROWS && !HasNewHint(old(Cells()), old(words))
      ensures outcome.GridOverflow? || outcome.NothingNew? || outcome.NoWord? ==>
        words == old(words) && Cells() == old(Cells())
      ensures |old(words)| <= ROWS && HasNewHint(old(Cells()), old(words)) ==>
        var newWord := ProvideNextWord(algorithms, algorithmId, GridHints(old(Cells()), old(words)));
        && (Falsy(newWord) <==> outcome.NoWord?)
        && (!Falsy(newWord) ==> words == old(words) + [newWord.value])
        && (!Falsy(newWord) && |old(words)| == ROWS ==> outcome == RowOverflow(newWord.value) && Cells() == old(Cells()))
        && (!Falsy(newWord) && |old(words)| < ROWS ==>
              (outcome == Added(newWord.value) &&
               Cells() == old(Cells())[|old(words)| := InheritedRow(old(Cells()), old(words), newWord.value)]))
    {
      if |words| > ROWS {
        return GridOverflow;
      }
      var hintGrid := AssembleGrid();
      var hasHint := CheckNewHint();
      if !hasHint {
        return NothingNew;
      }
      var newWord := ProvideNextWord(algorithms, algorithmId, hintGrid);
      if Falsy(newWord) {
        return NoWord;
      }
      ProvideNextWordIsFull(algorithms, algorithmId, hintGrid);
      outcome := AppendWord(newWord.value);
    }

    /**
     * Appends the strategy's word and prefills its row with inherited hints;
     * past the last row there are no cells to prefill and the write throws.
     */
    method AppendWord(word: string) returns (outcome: Refresh)
      requires Valid() && |words| <= ROWS && |word| == COLS
      modifies this`words, hintState
      ensures Valid() && words == old(words) + [word]
      ensures |old(words)| == ROWS ==> outcome == RowOverflow(word) && Cells() == old(Cells())
      ensures |old(words)| < ROWS ==>
        (outcome == Added(word) &&
         Cells() == old(Cells())[|old(words)| := InheritedRow(old(Cells()), old(words), word)])
    {
      ghost var before := Cells();
      ghost var oldWords := words;
      words := words + [word];
      if |words| > ROWS {
        OverflowKeepsInvariant(before, oldWords, word);
        return RowOverflow(word);
      }
      assert words[..|words| - 1] == oldWords;
      Prefill(word);
      PrefillsInherit(before, oldWords, word);
      AppendKeepsInvariant(before, oldWords, word, InheritedRow(before, oldWords, word));
      outcome := Added(word);
    }
  }
}
