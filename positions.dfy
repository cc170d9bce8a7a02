/** A square's place on a crossword board. Both coordinates are unsigned, so
    stepping left from column 0 or up from row 0 underflows; the model makes
    that the caller's obligation. */
module Positions {
  datatype Position = Position(row: nat, col: nat)

  /** `Position::right` (crossword/src/main.rs:17-22). */
  function Right(p: Position): (r: Position)
    ensures r.row == p.row && r.col == p.col + 1
  {
    Position(p.row, p.col + 1)
  }

  /** `Position::left`; column 0 has no left neighbour (crossword/src/main.rs:24-29). */
  function Left(p: Position): (r: Position)
    requires p.col >= 1
    ensures r.row == p.row && r.col + 1 == p.col
  {
    Position(p.row, p.col - 1)
  }

  /** `Position::up`; row 0 has no neighbour above (crossword/src/main.rs:31-36). */
  function Up(p: Position): (r: Position)
    requires p.row >= 1
    ensures r.col == p.col && r.row + 1 == p.row
  {
    Position(p.row - 1, p.col)
  }

  /** `Position::down` (crossword/src/main.rs:38-43). */
  function Down(p: Position): (r: Position)
    ensures r.col == p.col && r.row == p.row + 1
  {
    Position(p.row + 1, p.col)
  }

  /** Left undoes right, and right undoes left. */
  lemma LeftRightInverse(p: Position)
    ensures Left(Right(p)) == p
    ensures p.col >= 1 ==> Right(Left(p)) == p
  {
  }

  /** Up undoes down, and down undoes up. */
  lemma UpDownInverse(p: Position)
    ensures Up(Down(p)) == p
    ensures p.row >= 1 ==> Down(Up(p)) == p
  {
  }

  /** Moves along different axes commute. */
  lemma MovesCommute(p: Position)
    ensures Right(Down(p)) == Down(Right(p))
  {
  }
}
