/** A crossword clue: a direction, a starting square and a length. The
    positions it covers, as written, take the across column from the start's
    row and the down row from the start's column; a clue is meant to cover
    `length` consecutive squares from its start, rightwards or downwards. */
module Clues {
  import P = Positions

  datatype Direction = Across | Down

  datatype Clue = Clue(direction: Direction, start: P.Position, length: nat)

  /** `Clue::len` (crossword/src/clue.rs:17-19). */
  function Len(c: Clue): (r: nat)
    ensures r == c.length
  {
    c.length
  }

  /** `Clue::positions` as written (crossword/src/clue.rs:22-35). */
  function PositionsAsWritten(c: Clue): (r: seq<P.Position>)
    ensures |r| == c.length
    ensures forall i :: 0 <= i < |r| ==>
      (c.direction == Across ==> r[i] == P.Position(c.start.row, c.start.row + i))
    ensures forall i :: 0 <= i < |r| ==>
      (c.direction == Down ==> r[i] == P.Position(c.start.col + i, c.start.col))
  {
    seq(c.length, i requires 0 <= i < c.length =>
      match c.direction
      case Across => P.Position(c.start.row, c.start.row + i)
      case Down => P.Position(c.start.col + i, c.start.col))
  }

  /** An across clue of two squares starting at row 0, column 2 starts, as
      written, at column 0: its first position is not its start. */
  lemma AsWrittenMissesStart()
    ensures PositionsAsWritten(Clue(Across, P.Position(0, 2), 2))[0] != P.Position(0, 2)
    ensures Positions(Clue(Across, P.Position(0, 2), 2))[0] == P.Position(0, 2)
  {
  }

  /** The squares a clue covers: the start, then each next one to the right
      (across) or below (down). */
  function Positions(c: Clue): (r: seq<P.Position>)
    ensures |r| == c.length
    ensures forall i :: 0 <= i < |r| ==>
      (c.direction == Across ==> r[i] == P.Position(c.start.row, c.start.col + i))
    ensures forall i :: 0 <= i < |r| ==>
      (c.direction == Down ==> r[i] == P.Position(c.start.row + i, c.start.col))
  {
    seq(c.length, i requires 0 <= i < c.length =>
      match c.direction
      case Across => P.Position(c.start.row, c.start.col + i)
      case Down => P.Position(c.start.row + i, c.start.col))
  }

  /** One step along a clue's direction. */
  function Advance(d: Direction, p: P.Position): P.Position
  {
    match d
    case Across => P.Right(p)
    case Down => P.Down(p)
  }

  /** The corrected positions start at the clue's start and each is one step
      on from the one before, in the clue's direction. */
  lemma PositionsAreConsecutive(c: Clue)
    ensures c.length > 0 ==> Positions(c)[0] == c.start
    ensures forall i :: 0 < i < c.length ==>
      Positions(c)[i] == Advance(c.direction, Positions(c)[i - 1])
  {
  }

  /** The corrected positions are pairwise distinct. */
  lemma PositionsDistinct(c: Clue)
    ensures forall i, j :: 0 <= i < j < c.length ==> Positions(c)[i] != Positions(c)[j]
  {
  }

  /** Whenever the start lies on the diagonal the written version agrees with
      the corrected one; off the diagonal the two differ on every nonempty clue. */
  lemma AsWrittenAgreesOnDiagonal(c: Clue)
    ensures c.start.row == c.start.col ==> PositionsAsWritten(c) == Positions(c)
    ensures c.start.row != c.start.col && c.length > 0 ==>
      PositionsAsWritten(c)[0] != Positions(c)[0]
  {
    if c.start.row == c.start.col {
      assert forall i :: 0 <= i < c.length ==> PositionsAsWritten(c)[i] == Positions(c)[i];
    }
  }
}
