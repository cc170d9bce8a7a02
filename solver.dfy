/** The second Letter Boxed program. Its board, moves, neighbour rules and
    vocabulary loading are the same code as in `LetterBoxed` and are modelled
    there once; what differs is that the game is built from a ready board and
    that the vocabulary keeps the words' case (`LetterBoxed.AsWritten`). */
module Solver {
  import LB = LetterBoxed
  import PT = PrefixTree

  /** `LettersBoxedGame` of this program. */
  class Game {
    const letters: LB.Board<char>
    const vocabulary: PT.Tree<char, nat>

    /** `LettersBoxedGame::new`: takes the board as given
        (solver/src/main.rs:89-94) and loads the words as written
        (solver/src/main.rs:96-115). */
    constructor New(board: LB.Board<char>, list: seq<LB.Line>)
      requires LB.Shaped(board)
      ensures letters == board
      ensures fresh(vocabulary) && vocabulary.Valid() && vocabulary.entries == LB.Selected(list, LB.AsWritten)
    {
      letters := board;
      var v := LB.LoadVocabulary(list, LB.AsWritten);
      vocabulary := v;
    }
  }
}
