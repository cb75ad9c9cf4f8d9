/** Pac-Man (Pacman.java): a position, the direction of the last move and the
    direction queued by the player.

    The source keeps Pac-Man as a circle whose centre is the pixel
    (row * 25 + 12, col * 25 + 12) and recovers the cell with
    `(int) centre / SQUARE_SIZE`; here the cell is kept, and the pixel centre
    is `CentreY/CentreX` of it (CentreRoundTrip shows nothing is lost). */
module PacmanAgent {
  import opened Directions
  import opened Constants
  import opened Mazes

  datatype Pacman = Pacman(pos: Cell, cur: Direction, next: Direction)

  /** The Pacman constructor: the circle is centred DOT_OFFSET into the square
      whose corner is (y, x); both directions start RIGHT. createMaze passes the
      corner of the start square, a multiple of the square size. */
  function NewPacman(y: int, x: int): (p: Pacman)
    requires y >= 0 && x >= 0 && y % SquareSize == 0 && x % SquareSize == 0
    ensures p.cur == Right && p.next == Right
    ensures CentreY(p.pos) == y + DotOffset && CentreX(p.pos) == x + DotOffset
  {
    Pacman(CellOfPixel(y + DotOffset, x + DotOffset), Right, Right)
  }

  /** The cell the source reads back from Pac-Man's centre pixel. */
  function CurrentCell(p: Pacman): (c: Cell)
    requires InGrid(p.pos)
    ensures c == p.pos
  {
    CentreRoundTrip(p.pos);
    CellOfPixel(CentreY(p.pos), CentreX(p.pos))
  }

  /** Where Pac-Man may stand when the source looks up its neighbours: on the
      board, and off the top and bottom rows (whose neighbours would lie
      outside the array). Every open cell qualifies (OpenIsInner). */
  predicate OnBoard(p: Pacman) {
    InGrid(p.pos) && 1 <= p.pos.row <= MazeDimension - 2
  }

  /** changeDirection: a request for a new direction is queued exactly when it
      differs from the current direction and the (unwrapped) neighbour that
      way is open; otherwise nothing changes. */
  function ChangeDirection(m: Maze, p: Pacman, d: Direction): (q: Pacman)
    requires WellFormed(m) && OnBoard(p)
    ensures q.pos == p.pos && q.cur == p.cur
    ensures d != p.cur && Open(m, Step(p.pos, d)) ==> q.next == d
    ensures d == p.cur || !Open(m, Step(p.pos, d)) ==> q == p
  {
    if d != p.cur then
      var here := CurrentCell(p);
      var newRow := NewRow(d, here.row);
      var newCol := NewCol(d, here.col);
      OpenIffNoWall(m, Cell(newRow, newCol));
      if !IsThereWall(m, newRow, newCol) then p.(next := d) else p
    else p
  }

  /** wrapPacman: on the tunnel row, stepping off one side re-enters on the other. */
  function Wrap(row: int, col: int): (c: int)
    ensures row != TunnelRow || (col != MazeDimension && col != -1) ==> c == col
    ensures row == TunnelRow && col == MazeDimension ==> c == 0
    ensures row == TunnelRow && col == -1 ==> c == LastIndex
  {
    if row == MazeDimension / 2 && col == MazeDimension then col - MazeDimension
    else if row == MazeDimension / 2 && col == -1 then col + MazeDimension
    else col
  }

  /** The cell movePacman tries to enter: one step in the queued direction,
      wrapped through the tunnel. */
  function Destination(p: Pacman): Cell {
    var c := Step(p.pos, p.next);
    Cell(c.row, Wrap(c.row, c.col))
  }

  /** movePacman: the queued direction becomes the current one, and Pac-Man
      enters the destination exactly when it is open. */
  function MovePacman(m: Maze, p: Pacman): (q: Pacman)
    requires WellFormed(m) && OnBoard(p)
    ensures q.cur == p.next && q.next == p.next
    ensures Open(m, Destination(p)) ==> q.pos == Destination(p)
    ensures !Open(m, Destination(p)) ==> q.pos == p.pos
    ensures Open(m, p.pos) ==> Open(m, q.pos)
  {
    var here := CurrentCell(p);
    var newRow := NewRow(p.next, here.row);
    var newCol := Wrap(newRow, NewCol(p.next, here.col));
    OpenIffNoWall(m, Cell(newRow, newCol));
    if !IsThereWall(m, newRow, newCol) then p.(pos := Cell(newRow, newCol), cur := p.next)
    else p.(cur := p.next)
  }

  /** Pac-Man only ever moves to a grid neighbour, or through the tunnel from
      one end of the tunnel row to the other. */
  lemma MoveIsLocal(m: Maze, p: Pacman)
    requires WellFormed(m) && OnBoard(p)
    ensures var q := MovePacman(m, p);
            || q.pos == p.pos
            || q.pos == Step(p.pos, p.next)
            || (p.pos.row == TunnelRow && q.pos.row == TunnelRow &&
                ((p.pos.col == LastIndex && q.pos.col == 0) || (p.pos.col == 0 && q.pos.col == LastIndex)))
  {
  }

  /** Once the board is open on both tunnel ends, running right off the end
      of the tunnel row re-enters at its left end, and vice versa. */
  lemma TunnelWraps(m: Maze, p: Pacman)
    requires WellFormed(m) && p.pos.row == TunnelRow
    requires Open(m, Cell(TunnelRow, 0)) && Open(m, Cell(TunnelRow, LastIndex))
    ensures p.pos.col == LastIndex && p.next == Right ==> MovePacman(m, p).pos == Cell(TunnelRow, 0)
    ensures p.pos.col == 0 && p.next == Left ==> MovePacman(m, p).pos == Cell(TunnelRow, LastIndex)
  {
  }

  /** A queued turn is taken on the next move: if changeDirection accepted `d`,
      the following movePacman steps one cell in direction `d`. */
  lemma AcceptedTurnIsTaken(m: Maze, p: Pacman, d: Direction)
    requires WellFormed(m) && OnBoard(p)
    requires d != p.cur && Open(m, Step(p.pos, d))
    ensures var q := MovePacman(m, ChangeDirection(m, p, d));
            q.pos == Step(p.pos, d) && q.cur == d
  {
  }
}
