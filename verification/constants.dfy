/** Fixed configuration of the game (Constants.java), plus the pixel/cell
    conversions the source performs with `(int) pixel / SQUARE_SIZE`.

    Timers: the source keeps its mode counters as doubles advanced by
    TIME_COUNTER_INCREMENT = 0.25 and compared with whole-number thresholds.
    Here every counter is a natural number of quarter ticks, so a threshold
    `T` seconds becomes `4 * T` quarter ticks. */
module Constants {
  import opened Directions

  const MazeDimension: int := 23
  /** Index of the bottom row (and rightmost column). */
  const LastIndex: int := MazeDimension - 1
  const SquareSize: int := 25
  const PacmanRadius: int := SquareSize / 2
  const DotRadius: int := 2
  const EnergizerRadius: int := 7
  const DotOffset: int := SquareSize / 2

  const DotScore: int := 10
  const EnergizerScore: int := 100
  const GhostScore: int := 200

  const GameOverCounter: int := 186
  const LivesCounter: int := 3

  const PacmanStartX: int := 287
  const PacmanStartY: int := 437
  const BlinkyStartX: int := 11 * SquareSize
  const BlinkyStartY: int := 8 * SquareSize
  const InkyStartX: int := 11 * SquareSize
  const InkyStartY: int := 10 * SquareSize
  const ClydeStartX: int := 12 * SquareSize
  const ClydeStartY: int := 10 * SquareSize
  const PinkyStartX: int := 10 * SquareSize
  const PinkyStartY: int := 10 * SquareSize

  const ChaseTime: int := 100
  const ScatterTime: int := 35
  const FrightenedChangeColorTime: int := 28
  const FrightenedTime: int := 35
  const TimeCounterIncrement: real := 0.25

  /** Number of TIME_COUNTER_INCREMENT steps in one whole time unit. */
  const QuartersPerUnit: nat := 4

  const InkyScatterCoord: Cell := Cell(21, 21)
  const ClydeScatterCoord: Cell := Cell(21, 1)
  const PinkyScatterCoord: Cell := Cell(1, 1)
  const BlinkyScatterCoord: Cell := Cell(1, 21)
  const InkyChaseOffset: int := 2
  const ClydeChaseOffset: int := 4
  const PinkyChaseOffsetX: int := 3
  const PinkyChaseOffsetY: int := 1

  /** The cells the start pixels above denote (see StartCells). */
  const PacmanStartCell: Cell := Cell(17, 11)
  const BlinkyStartCell: Cell := Cell(8, 11)
  const InkyStartCell: Cell := Cell(10, 11)
  const ClydeStartCell: Cell := Cell(10, 12)
  const PinkyStartCell: Cell := Cell(10, 10)

  /** The row on which Pac-Man wraps horizontally: MAZE_DIMENSION / 2. */
  const TunnelRow: int := MazeDimension / 2

  /** The source's quarter-tick thresholds. */
  const ChaseQuarters: nat := QuartersPerUnit * ChaseTime as nat
  const ScatterQuarters: nat := QuartersPerUnit * ScatterTime as nat
  const FrightenedQuarters: nat := QuartersPerUnit * FrightenedTime as nat
  const WarningQuarters: nat := QuartersPerUnit * FrightenedChangeColorTime as nat

  predicate InGrid(c: Cell) {
    0 <= c.row < MazeDimension && 0 <= c.col < MazeDimension
  }

  /** Java's integer division, which truncates towards zero. */
  function JavaDiv(a: int, b: int): (q: int)
    requires b > 0
    ensures a >= 0 ==> 0 <= a - q * b < b
    ensures a < 0 ==> -b < a - q * b <= 0
  {
    if a >= 0 then a / b else -((-a) / b)
  }

  /** The maze cell containing a pixel position (y, x). */
  function CellOfPixel(y: int, x: int): Cell {
    Cell(JavaDiv(y, SquareSize), JavaDiv(x, SquareSize))
  }

  /** Top-left pixel of a cell, as used for squares and ghosts: (y, x). */
  function CornerY(c: Cell): int { c.row * SquareSize }
  function CornerX(c: Cell): int { c.col * SquareSize }

  /** Centre pixel of a cell, as used for Pac-Man, dots and energizers. */
  function CentreY(c: Cell): int { c.row * SquareSize + DotOffset }
  function CentreX(c: Cell): int { c.col * SquareSize + DotOffset }

  lemma SizeTagsDistinct()
    ensures DotRadius == 2 && EnergizerRadius == 7 && SquareSize == 25
    ensures DotRadius != EnergizerRadius && DotRadius != SquareSize && EnergizerRadius != SquareSize
  {
  }

  /** A counter kept as `k` increments of 0.25 passes a whole threshold `t`
      exactly when `k` passes `4 * t`: the quarter-tick encoding loses nothing. */
  lemma QuarterTicksFaithful(k: nat, t: int)
    ensures (k as real) * TimeCounterIncrement > t as real <==> k > QuartersPerUnit * t
  {
  }

  lemma ThresholdsInQuarters()
    ensures ChaseQuarters == 400 && ScatterQuarters == 140
    ensures FrightenedQuarters == 140 && WarningQuarters == 112
    ensures (ChaseQuarters as real) * TimeCounterIncrement == ChaseTime as real
    ensures (ScatterQuarters as real) * TimeCounterIncrement == ScatterTime as real
    ensures (FrightenedQuarters as real) * TimeCounterIncrement == FrightenedTime as real
    ensures (WarningQuarters as real) * TimeCounterIncrement == FrightenedChangeColorTime as real
  {
  }

  /** A cell's corner pixel maps back to that cell, for every (even negative) index. */
  lemma CornerRoundTrip(c: Cell)
    ensures CellOfPixel(CornerY(c), CornerX(c)) == c
  {
    CornerAxis(c.row);
    CornerAxis(c.col);
  }

  lemma CornerAxis(k: int)
    ensures JavaDiv(k * SquareSize, SquareSize) == k
  {
    if k < 0 {
      assert -(k * SquareSize) == (-k) * SquareSize;
    }
  }

  /** A cell's centre pixel maps back to that cell when its indices are non-negative. */
  lemma CentreRoundTrip(c: Cell)
    requires c.row >= 0 && c.col >= 0
    ensures CellOfPixel(CentreY(c), CentreX(c)) == c
  {
  }

  /** The start pixels land on the documented cells. */
  lemma StartCells()
    ensures CellOfPixel(PacmanStartY, PacmanStartX) == PacmanStartCell == Cell(17, 11)
    ensures CellOfPixel(BlinkyStartY, BlinkyStartX) == BlinkyStartCell == Cell(8, 11)
    ensures CellOfPixel(InkyStartY, InkyStartX) == InkyStartCell == Cell(10, 11)
    ensures CellOfPixel(ClydeStartY, ClydeStartX) == ClydeStartCell == Cell(10, 12)
    ensures CellOfPixel(PinkyStartY, PinkyStartX) == PinkyStartCell == Cell(10, 10)
    ensures PacmanStartY == CentreY(PacmanStartCell) && PacmanStartX == CentreX(PacmanStartCell)
  {
  }

  lemma ScatterCornersInside()
    ensures forall c :: c in [InkyScatterCoord, ClydeScatterCoord, PinkyScatterCoord, BlinkyScatterCoord] ==>
              c.row in {1, 21} && c.col in {1, 21}
    ensures TunnelRow == 11
  {
  }
}
