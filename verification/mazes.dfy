/** The grid (Maze.java, MazeSquare.java): a 23x23 array of squares, each with
    an occupant list, and the set of wall squares.

    The wall layout comes from a support map that is not part of this model;
    it is a parameter here, a 23x23 grid of `SquareType`. The source keeps the
    walls as a list of square objects and asks `wallList.contains(square)`;
    since no square is ever added to that list after the maze is built, the
    list is represented by a grid of booleans (`walls[r][c]` holds exactly when
    the square at (r, c) was built as a wall). */
module Mazes {
  import opened Directions
  import opened Constants
  import opened Collidables

  /** The kinds of cell the support map distinguishes. */
  datatype SquareType =
    | Wall
    | FreeSpace
    | DotSpace
    | EnergizerSpace
    | PacmanStartLocation
    | GhostStartLocation

  /** One square of the maze: its (row, col), fixed at construction, and its
      occupant list. */
  datatype MazeSquare = MazeSquare(row: int, col: int, occupants: seq<Collidable>)

  datatype Maze = Maze(squares: seq<seq<MazeSquare>>, walls: seq<seq<bool>>)

  /** The MazeSquare constructor: row and column derived from the pixel corner
      (y, x), empty occupant list. */
  function NewMazeSquare(y: int, x: int): (s: MazeSquare)
    ensures s.occupants == []
  {
    MazeSquare(JavaDiv(y, SquareSize), JavaDiv(x, SquareSize), [])
  }

  lemma SquareAtPixels(r: int, c: int)
    ensures NewMazeSquare(r * SquareSize, c * SquareSize) == MazeSquare(r, c, [])
  {
    CornerAxis(r);
    CornerAxis(c);
  }

  /** Replace one entry of a rectangular grid. */
  function Put<T>(g: seq<seq<T>>, r: int, c: int, v: T): (out: seq<seq<T>>)
    requires 0 <= r < |g| && 0 <= c < |g[r]|
    ensures |out| == |g|
    ensures forall i :: 0 <= i < |g| ==> |out[i]| == |g[i]|
    ensures forall i, j :: 0 <= i < |g| && 0 <= j < |g[i]| ==>
              out[i][j] == if i == r && j == c then v else g[i][j]
  {
    g[r := g[r][c := v]]
  }

  predicate Square<T>(g: seq<seq<T>>) {
    |g| == MazeDimension && forall r :: 0 <= r < MazeDimension ==> |g[r]| == MazeDimension
  }

  /** Shape of a maze: 23x23 squares that know their own position, a 23x23 wall
      grid, and a border of walls on the top and bottom rows (the source never
      range-checks the row, so every row it can be asked about lies inside). */
  predicate WellFormed(m: Maze) {
    && Square(m.squares)
    && Square(m.walls)
    && (forall r, c :: 0 <= r < MazeDimension && 0 <= c < MazeDimension ==>
          m.squares[r][c].row == r && m.squares[r][c].col == c)
    && (forall c :: 0 <= c < MazeDimension ==> m.walls[0][c])
    && (forall c :: 0 <= c < MazeDimension ==> m.walls[LastIndex][c])
  }

  /** isThereWall: every out-of-range column is a wall; otherwise the wall grid decides. */
  function IsThereWall(m: Maze, row: int, col: int): bool
    requires WellFormed(m)
    requires 0 <= row < MazeDimension
  {
    if col < 0 || col > MazeDimension - 1 then true else m.walls[row][col]
  }

  /** A cell inside the grid that is not a wall. */
  predicate Open(m: Maze, c: Cell)
    requires WellFormed(m)
  {
    InGrid(c) && !m.walls[c.row][c.col]
  }

  /** Open cells are never on the top or bottom row, so their vertical
      neighbours can always be looked up. */
  lemma OpenIsInner(m: Maze, c: Cell)
    requires WellFormed(m) && Open(m, c)
    ensures 1 <= c.row <= MazeDimension - 2 && 0 <= c.col < MazeDimension
  {
  }

  lemma OpenIffNoWall(m: Maze, c: Cell)
    requires WellFormed(m) && 0 <= c.row < MazeDimension
    ensures Open(m, c) <==> !IsThereWall(m, c.row, c.col)
  {
  }

  /** getArrayList: the live occupant list of a square. */
  function Occupants(m: Maze, r: int, c: int): seq<Collidable>
    requires WellFormed(m) && 0 <= r < MazeDimension && 0 <= c < MazeDimension
  {
    m.squares[r][c].occupants
  }

  /** Write back a square's occupant list. Because getArrayList hands out the
      live list, a caller's mutation is seen by every later lookup; here that is
      an update after which `Occupants` returns the new list, while every other
      square, every position and every wall stays as it was. */
  function SetOccupants(m: Maze, r: int, c: int, list: seq<Collidable>): (m': Maze)
    requires WellFormed(m) && 0 <= r < MazeDimension && 0 <= c < MazeDimension
    ensures WellFormed(m')
    ensures m'.walls == m.walls
    ensures Occupants(m', r, c) == list
    ensures forall i, j :: 0 <= i < MazeDimension && 0 <= j < MazeDimension && (i != r || j != c) ==>
              Occupants(m', i, j) == Occupants(m, i, j)
  {
    m.(squares := Put(m.squares, r, c, m.squares[r][c].(occupants := list)))
  }

  // ---------------------------------------------------------------------
  // Building the maze from the support map (createMaze)
  // ---------------------------------------------------------------------

  predicate LayoutShape(layout: seq<seq<SquareType>>) {
    Square(layout)
  }

  /** What the source needs of the support map: 23x23, top and bottom rows all
      walls, exactly one Pac-Man start `ps` and one ghost start `gs`, the ghost
      start far enough from the edges that the squares next to it and two rows
      above it exist, and every cell an agent is ever placed on free of walls
      (the ghosts' initial cells and the Constants start cells). */
  predicate LayoutOk(layout: seq<seq<SquareType>>, ps: Cell, gs: Cell) {
    && LayoutShape(layout)
    && (forall c :: 0 <= c < MazeDimension ==>
          layout[0][c] == Wall && layout[LastIndex][c] == Wall)
    && InGrid(ps) && InGrid(gs)
    && (forall r, c :: 0 <= r < MazeDimension && 0 <= c < MazeDimension ==>
          (layout[r][c] == PacmanStartLocation <==> r == ps.row && c == ps.col))
    && (forall r, c :: 0 <= r < MazeDimension && 0 <= c < MazeDimension ==>
          (layout[r][c] == GhostStartLocation <==> r == gs.row && c == gs.col))
    && 2 <= gs.row && 1 <= gs.col <= MazeDimension - 2
    && NotWallAt(layout, Cell(gs.row, gs.col + 1))
    && NotWallAt(layout, Cell(gs.row, gs.col - 1))
    && NotWallAt(layout, Cell(gs.row - 2, gs.col))
    && NotWallAt(layout, PacmanStartCell)
    && NotWallAt(layout, InkyStartCell)
    && NotWallAt(layout, ClydeStartCell)
    && NotWallAt(layout, PinkyStartCell)
    && NotWallAt(layout, BlinkyStartCell)
  }

  predicate NotWallAt(layout: seq<seq<SquareType>>, c: Cell)
    requires LayoutShape(layout)
  {
    InGrid(c) && layout[c.row][c.col] != Wall
  }

  /** The cells the game teleports agents to: the restart cells, the eaten-ghost
      cell (Clyde's start) and the release cell (Blinky's start). */
  function FixedCells(): seq<Cell> {
    [PacmanStartCell, InkyStartCell, ClydeStartCell, PinkyStartCell, BlinkyStartCell]
  }

  /** The ghosts' cells right after createMaze, in ghost-list order: inky on the
      ghost start, clyde to its right, pinky to its left, blinky two rows up. */
  function InitialGhostCells(gs: Cell): seq<Cell> {
    [gs, Cell(gs.row, gs.col + 1), Cell(gs.row, gs.col - 1), Cell(gs.row - 2, gs.col)]
  }

  /** The collectible a square starts with. */
  function BaseOccupants(t: SquareType): seq<Collidable> {
    match t
    case DotSpace => [Dot]
    case EnergizerSpace => [Energizer]
    case _ => []
  }

  /** The ghost entries createMaze leaves in a square's list. Clyde's entry is
      added to the square right of the ghost start, but the loop reaches that
      cell afterwards and replaces the square, so the entry does not survive. */
  function GhostsPlacedAt(gs: Cell, r: int, c: int): seq<Collidable> {
    if r == gs.row && c == gs.col then [Ghost(Inky)]
    else if r == gs.row && c == gs.col - 1 then [Ghost(Pinky)]
    else if r == gs.row - 2 && c == gs.col then [Ghost(Blinky)]
    else []
  }

  /** The maze createMaze builds, stated cell by cell. */
  function InitialMaze(layout: seq<seq<SquareType>>, gs: Cell): Maze
    requires LayoutShape(layout)
  {
    Maze(
      seq(MazeDimension, r requires 0 <= r < MazeDimension =>
        seq(MazeDimension, c requires 0 <= c < MazeDimension =>
          MazeSquare(r, c, BaseOccupants(layout[r][c]) + GhostsPlacedAt(gs, r, c)))),
      seq(MazeDimension, r requires 0 <= r < MazeDimension =>
        seq(MazeDimension, c requires 0 <= c < MazeDimension => layout[r][c] == Wall)))
  }

  /** Row-major progress: (r, c) was visited before the loop reached (row, col). */
  predicate Before(row: int, col: int, r: int, c: int) {
    r < row || (r == row && c < col)
  }

  /** A visited square's contents; ghost entries appear once the ghost start
      has been visited. */
  function Expected(layout: seq<seq<SquareType>>, gs: Cell, ghostsPlaced: bool, r: int, c: int): MazeSquare
    requires LayoutShape(layout) && 0 <= r < MazeDimension && 0 <= c < MazeDimension
  {
    MazeSquare(r, c, BaseOccupants(layout[r][c]) + (if ghostsPlaced then GhostsPlacedAt(gs, r, c) else []))
  }

  /** Append an occupant to the list of square (r, c). */
  function AddOccupant(g: seq<seq<MazeSquare>>, r: int, c: int, o: Collidable): (out: seq<seq<MazeSquare>>)
    requires 0 <= r < |g| && 0 <= c < |g[r]|
    ensures |out| == |g| && forall i :: 0 <= i < |g| ==> |out[i]| == |g[i]|
    ensures forall i, j :: 0 <= i < |g| && 0 <= j < |g[i]| ==>
              out[i][j] == if i == r && j == c then g[r][c].(occupants := g[r][c].occupants + [o]) else g[i][j]
  {
    Put(g, r, c, g[r][c].(occupants := g[r][c].occupants + [o]))
  }

  /** Every square visited before (row, col) holds its expected contents. */
  predicate SquaresDone(layout: seq<seq<SquareType>>, gs: Cell, row: int, col: int,
                        squares: seq<seq<MazeSquare>>)
    requires LayoutShape(layout)
  {
    && Square(squares)
    && forall r, c :: 0 <= r < MazeDimension && 0 <= c < MazeDimension && Before(row, col, r, c) ==>
         squares[r][c] == Expected(layout, gs, Before(row, col, gs.row, gs.col), r, c)
  }

  /** Visited cells carry the support map's wall flag; the others are still unset. */
  predicate WallsDone(layout: seq<seq<SquareType>>, row: int, col: int, walls: seq<seq<bool>>)
    requires LayoutShape(layout)
  {
    && Square(walls)
    && (forall r, c :: 0 <= r < MazeDimension && 0 <= c < MazeDimension && Before(row, col, r, c) ==>
          walls[r][c] == (layout[r][c] == Wall))
    && (forall r, c :: 0 <= r < MazeDimension && 0 <= c < MazeDimension && !Before(row, col, r, c) ==>
          !walls[r][c])
  }

  /** The loop state of createMaze once every cell before (row, col) in
      row-major order has been visited. */
  predicate Progress(layout: seq<seq<SquareType>>, ps: Cell, gs: Cell, row: int, col: int,
                     squares: seq<seq<MazeSquare>>, walls: seq<seq<bool>>,
                     pacmanStart: Cell, ghostCells: seq<Cell>)
    requires LayoutShape(layout)
  {
    && SquaresDone(layout, gs, row, col, squares)
    && WallsDone(layout, row, col, walls)
    && (Before(row, col, ps.row, ps.col) ==> pacmanStart == ps)
    && ghostCells == (if Before(row, col, gs.row, gs.col) then InitialGhostCells(gs) else [])
  }

  /** Visiting (row, col) sets its own wall flag and leaves every other one. */
  lemma WallsStep(layout: seq<seq<SquareType>>, row: int, col: int, walls0: seq<seq<bool>>, walls: seq<seq<bool>>)
    requires LayoutShape(layout) && 0 <= row < MazeDimension && 0 <= col < MazeDimension
    requires WallsDone(layout, row, col, walls0) && Square(walls)
    requires walls[row][col] == (layout[row][col] == Wall)
    requires forall r, c :: 0 <= r < MazeDimension && 0 <= c < MazeDimension && (r != row || c != col) ==>
               walls[r][c] == walls0[r][c]
    ensures WallsDone(layout, row, col + 1, walls)
  {
    forall r, c | 0 <= r < MazeDimension && 0 <= c < MazeDimension && Before(row, col + 1, r, c)
      ensures walls[r][c] == (layout[r][c] == Wall)
    {
      if r != row || c != col {
        assert Before(row, col, r, c);
      }
    }
    forall r, c | 0 <= r < MazeDimension && 0 <= c < MazeDimension && !Before(row, col + 1, r, c)
      ensures !walls[r][c]
    {
      assert !Before(row, col, r, c) && (r != row || c != col);
    }
  }

  /** Visiting a cell other than the ghost start builds its square from the
      support map alone and leaves every other square. */
  lemma SquaresStep(layout: seq<seq<SquareType>>, gs: Cell, row: int, col: int,
                    squares0: seq<seq<MazeSquare>>, squares: seq<seq<MazeSquare>>)
    requires LayoutShape(layout) && 0 <= row < MazeDimension && 0 <= col < MazeDimension
    requires row != gs.row || col != gs.col
    requires SquaresDone(layout, gs, row, col, squares0) && Square(squares)
    requires squares[row][col] == MazeSquare(row, col, BaseOccupants(layout[row][col]))
    requires forall r, c :: 0 <= r < MazeDimension && 0 <= c < MazeDimension && (r != row || c != col) ==>
               squares[r][c] == squares0[r][c]
    ensures SquaresDone(layout, gs, row, col + 1, squares)
  {
    var placed := Before(row, col, gs.row, gs.col);
    assert Before(row, col + 1, gs.row, gs.col) == placed;
    assert placed ==> GhostsPlacedAt(gs, row, col) == [];
    assert squares[row][col] == Expected(layout, gs, placed, row, col);
    forall r, c | 0 <= r < MazeDimension && 0 <= c < MazeDimension && Before(row, col + 1, r, c)
      ensures squares[r][c] == Expected(layout, gs, placed, r, c)
    {
      if r != row || c != col {
        assert Before(row, col, r, c);
      }
    }
  }

  /** Finishing a row is the same progress as starting the next one. */
  lemma NextRow(layout: seq<seq<SquareType>>, ps: Cell, gs: Cell, row: int,
                squares: seq<seq<MazeSquare>>, walls: seq<seq<bool>>,
                pacmanStart: Cell, ghostCells: seq<Cell>)
    requires LayoutOk(layout, ps, gs)
    requires Progress(layout, ps, gs, row, MazeDimension, squares, walls, pacmanStart, ghostCells)
    ensures Progress(layout, ps, gs, row + 1, 0, squares, walls, pacmanStart, ghostCells)
  {
    assert Before(row, MazeDimension, gs.row, gs.col) == Before(row + 1, 0, gs.row, gs.col);
    assert Before(row, MazeDimension, ps.row, ps.col) == Before(row + 1, 0, ps.row, ps.col);
    assert forall r, c :: 0 <= c < MazeDimension ==> Before(row, MazeDimension, r, c) == Before(row + 1, 0, r, c);
  }

  /** Before the loop nothing has been visited. */
  lemma ProgressStart(layout: seq<seq<SquareType>>, ps: Cell, gs: Cell)
    requires LayoutOk(layout, ps, gs)
    ensures Progress(layout, ps, gs, 0, 0,
                     seq(MazeDimension, r => seq(MazeDimension, c => MazeSquare(r, c, []))),
                     seq(MazeDimension, r => seq(MazeDimension, c => false)), Cell(0, 0), [])
  {
  }

  /** After the last row every cell holds its expected square. */
  lemma ProgressComplete(layout: seq<seq<SquareType>>, ps: Cell, gs: Cell,
                         squares: seq<seq<MazeSquare>>, walls: seq<seq<bool>>,
                         pacmanStart: Cell, ghostCells: seq<Cell>)
    requires LayoutOk(layout, ps, gs)
    requires Progress(layout, ps, gs, MazeDimension, 0, squares, walls, pacmanStart, ghostCells)
    ensures Maze(squares, walls) == InitialMaze(layout, gs)
    ensures pacmanStart == ps && ghostCells == InitialGhostCells(gs)
  {
    assert Before(MazeDimension, 0, gs.row, gs.col) && Before(MazeDimension, 0, ps.row, ps.col);
    var target := InitialMaze(layout, gs);
    forall r | 0 <= r < MazeDimension
      ensures squares[r] == target.squares[r] && walls[r] == target.walls[r]
    {
      assert forall c :: 0 <= c < MazeDimension ==> Before(MazeDimension, 0, r, c);
      assert forall c :: 0 <= c < MazeDimension ==> squares[r][c] == target.squares[r][c];
    }
  }

  /** One iteration of createMaze's inner loop: build the square at (row, col)
      according to its type. */
  method VisitCell(layout: seq<seq<SquareType>>, ghost ps: Cell, ghost gs: Cell, row: int, col: int,
                   squares0: seq<seq<MazeSquare>>, walls0: seq<seq<bool>>,
                   pacmanStart0: Cell, ghostCells0: seq<Cell>)
    returns (squares: seq<seq<MazeSquare>>, walls: seq<seq<bool>>, pacmanStart: Cell, ghostCells: seq<Cell>)
    requires LayoutOk(layout, ps, gs)
    requires 0 <= row < MazeDimension && 0 <= col < MazeDimension
    requires Progress(layout, ps, gs, row, col, squares0, walls0, pacmanStart0, ghostCells0)
    ensures Progress(layout, ps, gs, row, col + 1, squares, walls, pacmanStart, ghostCells)
  {
    if layout[row][col] == GhostStartLocation {
      squares, walls, pacmanStart, ghostCells :=
        VisitGhostStart(layout, ps, gs, row, col, squares0, walls0, pacmanStart0, ghostCells0);
    } else {
      squares, walls, pacmanStart, ghostCells :=
        VisitOrdinary(layout, ps, gs, row, col, squares0, walls0, pacmanStart0, ghostCells0);
    }
  }

  /** The WALL, FREE, DOT, ENERGIZER and PACMAN_START_LOCATION cases. */
  method VisitOrdinary(layout: seq<seq<SquareType>>, ghost ps: Cell, ghost gs: Cell, row: int, col: int,
                       squares0: seq<seq<MazeSquare>>, walls0: seq<seq<bool>>,
                       pacmanStart0: Cell, ghostCells0: seq<Cell>)
    returns (squares: seq<seq<MazeSquare>>, walls: seq<seq<bool>>, pacmanStart: Cell, ghostCells: seq<Cell>)
    requires LayoutOk(layout, ps, gs)
    requires 0 <= row < MazeDimension && 0 <= col < MazeDimension
    requires layout[row][col] != GhostStartLocation
    requires Progress(layout, ps, gs, row, col, squares0, walls0, pacmanStart0, ghostCells0)
    ensures Progress(layout, ps, gs, row, col + 1, squares, walls, pacmanStart, ghostCells)
  {
    squares, walls, pacmanStart, ghostCells := squares0, walls0, pacmanStart0, ghostCells0;
    var y := row * SquareSize;
    var x := col * SquareSize;
    SquareAtPixels(row, col);
    squares := Put(squares, row, col, NewMazeSquare(y, x));
    match layout[row][col] {
      case Wall =>
        walls := Put(walls, row, col, true);
      case FreeSpace =>
      case DotSpace =>
        squares := AddOccupant(squares, row, col, Dot);
      case EnergizerSpace =>
        squares := AddOccupant(squares, row, col, Energizer);
      case PacmanStartLocation =>
        CentreRoundTrip(Cell(row, col));
        pacmanStart := CellOfPixel(y + DotOffset, x + DotOffset);
    }
    OrdinaryStep(layout, ps, gs, row, col, squares0, walls0, pacmanStart0, ghostCells0,
                 squares, walls, pacmanStart);
  }

  /** The effect of a non-ghost-start cell: only square (row, col), its wall
      flag and possibly Pac-Man's start change. */
  lemma OrdinaryStep(layout: seq<seq<SquareType>>, ps: Cell, gs: Cell, row: int, col: int,
                     squares0: seq<seq<MazeSquare>>, walls0: seq<seq<bool>>,
                     pacmanStart0: Cell, ghostCells: seq<Cell>,
                     squares: seq<seq<MazeSquare>>, walls: seq<seq<bool>>, pacmanStart: Cell)
    requires LayoutOk(layout, ps, gs)
    requires 0 <= row < MazeDimension && 0 <= col < MazeDimension
    requires layout[row][col] != GhostStartLocation
    requires Progress(layout, ps, gs, row, col, squares0, walls0, pacmanStart0, ghostCells)
    requires Square(squares) && Square(walls)
    requires squares[row][col] == MazeSquare(row, col, BaseOccupants(layout[row][col]))
    requires walls[row][col] == (layout[row][col] == Wall)
    requires forall r, c :: 0 <= r < MazeDimension && 0 <= c < MazeDimension && (r != row || c != col) ==>
               squares[r][c] == squares0[r][c] && walls[r][c] == walls0[r][c]
    requires pacmanStart == if layout[row][col] == PacmanStartLocation then Cell(row, col) else pacmanStart0
    ensures Progress(layout, ps, gs, row, col + 1, squares, walls, pacmanStart, ghostCells)
  {
    assert row != gs.row || col != gs.col;
    SquaresStep(layout, gs, row, col, squares0, squares);
    WallsStep(layout, row, col, walls0, walls);
    assert Before(row, col + 1, gs.row, gs.col) == Before(row, col, gs.row, gs.col);
  }

  /** The GHOST_START_LOCATION case: the square itself, a fresh square to its
      right, and the four ghosts added to the lists of the squares they stand on. */
  method VisitGhostStart(layout: seq<seq<SquareType>>, ghost ps: Cell, ghost gs: Cell, row: int, col: int,
                         squares0: seq<seq<MazeSquare>>, walls0: seq<seq<bool>>,
                         pacmanStart0: Cell, ghostCells0: seq<Cell>)
    returns (squares: seq<seq<MazeSquare>>, walls: seq<seq<bool>>, pacmanStart: Cell, ghostCells: seq<Cell>)
    requires LayoutOk(layout, ps, gs)
    requires 0 <= row < MazeDimension && 0 <= col < MazeDimension
    requires layout[row][col] == GhostStartLocation
    requires Progress(layout, ps, gs, row, col, squares0, walls0, pacmanStart0, ghostCells0)
    ensures Progress(layout, ps, gs, row, col + 1, squares, walls, pacmanStart, ghostCells)
  {
    walls, pacmanStart := walls0, pacmanStart0;
    assert row == gs.row && col == gs.col;
    squares := BuildGhostStart(squares0, row, col);
    var y := row * SquareSize;
    var x := col * SquareSize;
    assert x + SquareSize == (col + 1) * SquareSize;
    assert x - SquareSize == (col - 1) * SquareSize;
    assert y - SquareSize * 2 == (row - 2) * SquareSize;
    CornerRoundTrip(Cell(row, col + 1));
    CornerRoundTrip(Cell(row, col - 1));
    CornerRoundTrip(Cell(row - 2, col));
    CornerRoundTrip(Cell(row, col));
    ghostCells := [CellOfPixel(y, x), CellOfPixel(y, x + SquareSize),
                   CellOfPixel(y, x - SquareSize), CellOfPixel(y - SquareSize * 2, x)];
    GhostStep(layout, ps, gs, squares0, walls0, pacmanStart0, ghostCells0, squares, ghostCells);
  }

  /** The square updates at the ghost start, in the source's order: inky's
      square, a fresh square to its right, then inky, clyde, pinky and blinky
      appended to the lists of the squares they stand on. */
  method BuildGhostStart(squares0: seq<seq<MazeSquare>>, row: int, col: int) returns (squares: seq<seq<MazeSquare>>)
    requires Square(squares0) && 2 <= row < MazeDimension && 1 <= col <= MazeDimension - 2
    ensures Square(squares)
    ensures squares[row][col] == MazeSquare(row, col, [Ghost(Inky)])
    ensures squares[row][col - 1] ==
              squares0[row][col - 1].(occupants := squares0[row][col - 1].occupants + [Ghost(Pinky)])
    ensures squares[row - 2][col] ==
              squares0[row - 2][col].(occupants := squares0[row - 2][col].occupants + [Ghost(Blinky)])
    ensures forall r, c :: 0 <= r < MazeDimension && 0 <= c < MazeDimension && !NearGhostStart(Cell(row, col), r, c) ==>
              squares[r][c] == squares0[r][c]
  {
    var y := row * SquareSize;
    var x := col * SquareSize;
    SquareAtPixels(row, col);
    SquareAtPixels(row, col + 1);
    CornerAxis(col + 1);
    CornerAxis(col - 1);
    CornerAxis(row - 2);
    assert x + SquareSize == (col + 1) * SquareSize;
    assert x - SquareSize == (col - 1) * SquareSize;
    assert y - SquareSize * 2 == (row - 2) * SquareSize;
    var s1 := Put(squares0, row, col, NewMazeSquare(y, x));
    var newCol2 := JavaDiv(x + SquareSize, SquareSize);
    var s2 := Put(s1, row, newCol2, NewMazeSquare(y, x + SquareSize));
    var s3 := AddOccupant(s2, row, col, Ghost(Inky));
    var s4 := AddOccupant(s3, row, JavaDiv(x + SquareSize, SquareSize), Ghost(Clyde));
    var s5 := AddOccupant(s4, row, JavaDiv(x - SquareSize, SquareSize), Ghost(Pinky));
    squares := AddOccupant(s5, JavaDiv(y - SquareSize * 2, SquareSize), col, Ghost(Blinky));
  }

  /** The four cells createMaze touches when it reaches the ghost start. */
  predicate NearGhostStart(gs: Cell, r: int, c: int) {
    (r == gs.row && gs.col - 1 <= c <= gs.col + 1) || (r == gs.row - 2 && c == gs.col)
  }

  /** The effect of the ghost-start cell: inky's square is built, pinky and
      blinky are appended to the (already visited) squares left of it and two
      rows up, and the square to its right, not yet visited, may hold anything. */
  lemma GhostStep(layout: seq<seq<SquareType>>, ps: Cell, gs: Cell,
                  squares0: seq<seq<MazeSquare>>, walls: seq<seq<bool>>,
                  pacmanStart: Cell, ghostCells0: seq<Cell>,
                  squares: seq<seq<MazeSquare>>, ghostCells: seq<Cell>)
    requires LayoutOk(layout, ps, gs)
    requires Progress(layout, ps, gs, gs.row, gs.col, squares0, walls, pacmanStart, ghostCells0)
    requires Square(squares)
    requires squares[gs.row][gs.col] == MazeSquare(gs.row, gs.col, [Ghost(Inky)])
    requires squares[gs.row][gs.col - 1] ==
               squares0[gs.row][gs.col - 1].(occupants := squares0[gs.row][gs.col - 1].occupants + [Ghost(Pinky)])
    requires squares[gs.row - 2][gs.col] ==
               squares0[gs.row - 2][gs.col].(occupants := squares0[gs.row - 2][gs.col].occupants + [Ghost(Blinky)])
    requires forall r, c :: 0 <= r < MazeDimension && 0 <= c < MazeDimension && !NearGhostStart(gs, r, c) ==>
               squares[r][c] == squares0[r][c]
    requires ghostCells == InitialGhostCells(gs)
    ensures Progress(layout, ps, gs, gs.row, gs.col + 1, squares, walls, pacmanStart, ghostCells)
  {
    GhostSquares(layout, ps, gs, squares0, squares);
    assert !Before(gs.row, gs.col, gs.row, gs.col);
    WallsStep(layout, gs.row, gs.col, walls, walls);
    assert Before(gs.row, gs.col + 1, gs.row, gs.col);
    assert Before(gs.row, gs.col, ps.row, ps.col) == Before(gs.row, gs.col + 1, ps.row, ps.col);
  }

  /** The squares after the ghost-start cell: each visited one holds its
      collectible and, now that the ghosts exist, its ghost entries. */
  lemma GhostSquares(layout: seq<seq<SquareType>>, ps: Cell, gs: Cell,
                     squares0: seq<seq<MazeSquare>>, squares: seq<seq<MazeSquare>>)
    requires LayoutOk(layout, ps, gs)
    requires SquaresDone(layout, gs, gs.row, gs.col, squares0)
    requires Square(squares)
    requires squares[gs.row][gs.col] == MazeSquare(gs.row, gs.col, [Ghost(Inky)])
    requires squares[gs.row][gs.col - 1] ==
               squares0[gs.row][gs.col - 1].(occupants := squares0[gs.row][gs.col - 1].occupants + [Ghost(Pinky)])
    requires squares[gs.row - 2][gs.col] ==
               squares0[gs.row - 2][gs.col].(occupants := squares0[gs.row - 2][gs.col].occupants + [Ghost(Blinky)])
    requires forall r, c :: 0 <= r < MazeDimension && 0 <= c < MazeDimension && !NearGhostStart(gs, r, c) ==>
               squares[r][c] == squares0[r][c]
    ensures SquaresDone(layout, gs, gs.row, gs.col + 1, squares)
  {
    assert Before(gs.row, gs.col + 1, gs.row, gs.col) && !Before(gs.row, gs.col, gs.row, gs.col);
    assert Before(gs.row, gs.col, gs.row, gs.col - 1) && Before(gs.row, gs.col, gs.row - 2, gs.col);
    forall r, c | 0 <= r < MazeDimension && 0 <= c < MazeDimension && Before(gs.row, gs.col + 1, r, c)
      ensures squares[r][c] == Expected(layout, gs, true, r, c)
    {
      if Before(gs.row, gs.col, r, c) {
        assert squares0[r][c] == Expected(layout, gs, false, r, c);
      }
      GhostSquareAt(layout, ps, gs, r, c, squares0[r][c], squares[r][c]);
    }
  }

  /** One visited square after the ghost start, by cases on where it lies
      relative to the ghost start. */
  lemma GhostSquareAt(layout: seq<seq<SquareType>>, ps: Cell, gs: Cell, r: int, c: int, old0: MazeSquare, new0: MazeSquare)
    requires LayoutOk(layout, ps, gs)
    requires 0 <= r < MazeDimension && 0 <= c < MazeDimension && Before(gs.row, gs.col + 1, r, c)
    requires Before(gs.row, gs.col, r, c) ==> old0 == Expected(layout, gs, false, r, c)
    requires r == gs.row && c == gs.col ==> new0 == MazeSquare(gs.row, gs.col, [Ghost(Inky)])
    requires r == gs.row && c == gs.col - 1 ==> new0 == old0.(occupants := old0.occupants + [Ghost(Pinky)])
    requires r == gs.row - 2 && c == gs.col ==> new0 == old0.(occupants := old0.occupants + [Ghost(Blinky)])
    requires !NearGhostStart(gs, r, c) ==> new0 == old0
    ensures new0 == Expected(layout, gs, true, r, c)
  {
    if r == gs.row && c == gs.col {
      assert layout[r][c] == GhostStartLocation;
    } else {
      assert Before(gs.row, gs.col, r, c);
    }
  }

  /** createMaze, as the source writes it: a row-major pass over the support map
      that builds every square, records walls, places a dot or energizer on
      their squares, finds Pac-Man's start, and at the ghost start creates the
      four ghosts and adds them to the squares they stand on. */
  method CreateMaze(layout: seq<seq<SquareType>>, ghost ps: Cell, ghost gs: Cell)
    returns (maze: Maze, pacmanStart: Cell, ghostCells: seq<Cell>)
    requires LayoutOk(layout, ps, gs)
    ensures maze == InitialMaze(layout, gs)
    ensures pacmanStart == ps
    ensures ghostCells == InitialGhostCells(gs)
  {
    // Placeholders for the entries Java leaves null until the loop reaches them.
    var squares := seq(MazeDimension, r => seq(MazeDimension, c => MazeSquare(r, c, [])));
    var walls := seq(MazeDimension, r => seq(MazeDimension, c => false));
    pacmanStart := Cell(0, 0);
    ghostCells := [];
    var row := 0;
    ProgressStart(layout, ps, gs);
    while row < MazeDimension
      decreases MazeDimension - row
      invariant 0 <= row <= MazeDimension
      invariant Progress(layout, ps, gs, row, 0, squares, walls, pacmanStart, ghostCells)
    {
      var col := 0;
      while col < MazeDimension
        decreases MazeDimension - col
        invariant 0 <= col <= MazeDimension
        invariant Progress(layout, ps, gs, row, col, squares, walls, pacmanStart, ghostCells)
      {
        squares, walls, pacmanStart, ghostCells :=
          VisitCell(layout, ps, gs, row, col, squares, walls, pacmanStart, ghostCells);
        col := col + 1;
      }
      NextRow(layout, ps, gs, row, squares, walls, pacmanStart, ghostCells);
      row := row + 1;
    }
    ProgressComplete(layout, ps, gs, squares, walls, pacmanStart, ghostCells);
    maze := Maze(squares, walls);
  }

  // ---------------------------------------------------------------------
  // Facts about the maze createMaze builds
  // ---------------------------------------------------------------------

  lemma InitialMazeWellFormed(layout: seq<seq<SquareType>>, ps: Cell, gs: Cell)
    requires LayoutOk(layout, ps, gs)
    ensures WellFormed(InitialMaze(layout, gs))
  {
  }

  /** Wall status after construction: any out-of-range column is a wall, and an
      in-range cell is a wall exactly when the support map marks it WALL. */
  lemma InitialWalls(layout: seq<seq<SquareType>>, ps: Cell, gs: Cell, r: int, c: int)
    requires LayoutOk(layout, ps, gs) && 0 <= r < MazeDimension
    ensures WellFormed(InitialMaze(layout, gs))
    ensures c < 0 || c >= MazeDimension ==> IsThereWall(InitialMaze(layout, gs), r, c)
    ensures 0 <= c < MazeDimension ==> (IsThereWall(InitialMaze(layout, gs), r, c) <==> layout[r][c] == Wall)
  {
  }

  /** Every dot cell starts with exactly one dot and no energizer, every
      energizer cell with exactly one energizer and no dot, and no other cell
      holds a collectible. */
  lemma InitialCollectibles(layout: seq<seq<SquareType>>, ps: Cell, gs: Cell, r: int, c: int)
    requires LayoutOk(layout, ps, gs) && 0 <= r < MazeDimension && 0 <= c < MazeDimension
    ensures var occ := InitialMaze(layout, gs).squares[r][c].occupants;
            && multiset(occ)[Dot] == (if layout[r][c] == DotSpace then 1 else 0)
            && multiset(occ)[Energizer] == (if layout[r][c] == EnergizerSpace then 1 else 0)
  {
  }

  /** Where the ghost entries end up: inky on the ghost start, pinky to its left,
      blinky two rows above; clyde's entry is lost, so clyde starts in no list. */
  lemma InitialGhostEntries(layout: seq<seq<SquareType>>, ps: Cell, gs: Cell)
    requires LayoutOk(layout, ps, gs)
    ensures var m := InitialMaze(layout, gs);
            && Ghost(Inky) in m.squares[gs.row][gs.col].occupants
            && Ghost(Pinky) in m.squares[gs.row][gs.col - 1].occupants
            && Ghost(Blinky) in m.squares[gs.row - 2][gs.col].occupants
            && forall r, c :: 0 <= r < MazeDimension && 0 <= c < MazeDimension ==>
                 Ghost(Clyde) !in m.squares[r][c].occupants
  {
  }

  /** Pac-Man's start square and every ghost's initial square are open. */
  lemma StartsAreOpen(layout: seq<seq<SquareType>>, ps: Cell, gs: Cell)
    requires LayoutOk(layout, ps, gs)
    ensures WellFormed(InitialMaze(layout, gs))
    ensures Open(InitialMaze(layout, gs), ps)
    ensures forall c :: c in InitialGhostCells(gs) ==> Open(InitialMaze(layout, gs), c)
    ensures forall c :: c in FixedCells() ==> Open(InitialMaze(layout, gs), c)
  {
    assert layout[ps.row][ps.col] == PacmanStartLocation;
  }
}
