/** Grid coordinates and the four movement directions (Direction.java).
    A `Cell` is a (row, col) pair; rows grow downwards, columns to the right. */
module Directions {

  datatype Direction = Up | Down | Left | Right

  datatype Cell = Cell(row: int, col: int)

  /** The direction 180 degrees away. */
  function Opposite(d: Direction): Direction {
    match d
    case Up => Down
    case Down => Up
    case Left => Right
    case Right => Left
  }

  /** Row index after one move from `row` in direction `d`. */
  function NewRow(d: Direction, row: int): int {
    match d
    case Up => row - 1
    case Down => row + 1
    case _ => row
  }

  /** Column index after one move from `col` in direction `d`. */
  function NewCol(d: Direction, col: int): int {
    match d
    case Left => col - 1
    case Right => col + 1
    case _ => col
  }

  /** The neighbouring cell in direction `d` (no wrapping). */
  function Step(c: Cell, d: Direction): Cell {
    Cell(NewRow(d, c.row), NewCol(d, c.col))
  }

  function Abs(x: int): nat {
    if x < 0 then -x else x
  }

  function Manhattan(a: Cell, b: Cell): nat {
    Abs(a.row - b.row) + Abs(a.col - b.col)
  }

  lemma OppositeIsInvolution(d: Direction)
    ensures Opposite(Opposite(d)) == d
    ensures Opposite(d) != d
  {
  }

  /** Vertical moves change only the row, horizontal moves only the column. */
  lemma StepDeltas(c: Cell, d: Direction)
    ensures Step(c, d).row == c.row + (if d == Down then 1 else if d == Up then -1 else 0)
    ensures Step(c, d).col == c.col + (if d == Right then 1 else if d == Left then -1 else 0)
  {
  }

  /** Every step moves to a 4-neighbour: Manhattan distance exactly one. */
  lemma StepIsUnit(c: Cell, d: Direction)
    ensures Manhattan(c, Step(c, d)) == 1
  {
  }

  /** Stepping in `d` and then in the opposite direction returns to the start. */
  lemma StepBack(c: Cell, d: Direction)
    ensures Step(Step(c, d), Opposite(d)) == c
  {
  }

  /** Distinct directions lead to distinct neighbours. */
  lemma StepInjective(c: Cell, d1: Direction, d2: Direction)
    ensures Step(c, d1) == Step(c, d2) <==> d1 == d2
  {
  }
}
