/**
 * Common model definitions of the solver: the grid size, the four hint
 * values a cell can hold, the cycle a click walks through and the shape of
 * one hint.
 */
module Model {
  import opened Wrappers

  /** Number of letters in a word (columns of the grid). */
  const COLS: nat := 5
  /** Number of guesses in a game (rows of the grid). */
  const ROWS: nat := 6

  /** The hint a column of a guess receives. */
  datatype Position = Unknown | CorrectSpot | WrongSpot | NoSpot
  {
    /** The numeric value the enumeration gives each hint. */
    function Code(): (n: nat)
      ensures n < 4
    {
      match this
      case Unknown => 0
      case CorrectSpot => 1
      case WrongSpot => 2
      case NoSpot => 3
    }

    /** A hint that says the letter occurs in the answer. */
    predicate IsPositive() {
      this == CorrectSpot || this == WrongSpot
    }
  }

  /** The hints a click cycles through, in order. */
  const POSITION_HINTS: seq<Position> := [NoSpot, WrongSpot, CorrectSpot]

  /** Options handed to a strategy; no strategy reads them. */
  datatype AlgorithmOptions = AlgorithmOptions(hardMode: bool)

  /** One letter of a guess with its column and the hint it received. */
  datatype Hint = Hint(ch: char, index: nat, positionHint: Position)

  /** A strategy (WordleAlgorithm): the next word for the hint grid so far, or none. */
  type Strategy = seq<seq<Hint>> -> Option<string>

  /** A word JavaScript treats as false: none at all, or the empty word. */
  predicate Falsy(word: Option<string>)
  {
    word.None? || word.value == ""
  }

  /** The position of `p` in POSITION_HINTS, or -1 (Array.prototype.indexOf). */
  function IndexOfHint(p: Position): (k: int)
    ensures -1 <= k < |POSITION_HINTS|
    ensures k >= 0 ==> POSITION_HINTS[k] == p
    ensures k == -1 <==> p !in POSITION_HINTS
  {
    match p
    case NoSpot => 0
    case WrongSpot => 1
    case CorrectSpot => 2
    case Unknown => -1
  }

  /** The hint a click moves a cell to: the next entry of POSITION_HINTS, wrapping. */
  function NextHint(p: Position): (q: Position)
    ensures q in POSITION_HINTS
    ensures q != p
  {
    POSITION_HINTS[(IndexOfHint(p) + 1) % |POSITION_HINTS|]
  }

  /** The four hint values carry four distinct codes, 0 to 3 in declaration order. */
  lemma PositionCodes()
    ensures Unknown.Code() == 0 && CorrectSpot.Code() == 1
    ensures WrongSpot.Code() == 2 && NoSpot.Code() == 3
    ensures forall p: Position, q: Position :: p.Code() == q.Code() ==> p == q
  {
  }

  /** Clicking walks Unknown -> NoSpot -> WrongSpot -> CorrectSpot -> NoSpot. */
  lemma NextHintCycle()
    ensures NextHint(Unknown) == NoSpot
    ensures NextHint(NoSpot) == WrongSpot
    ensures NextHint(WrongSpot) == CorrectSpot
    ensures NextHint(CorrectSpot) == NoSpot
  {
  }
}
