/** The tick state machine (Game.java): ghost modes and their timers, the
    collision pass over Pac-Man's square, score, lives and the count of
    collectibles left, the ghost pen, restart, and halting.

    The JavaFX timeline is reduced to the `running` flag: `Tick` is one
    keyframe (it runs `update` only while the timeline plays) and `KeyPress`
    is the gated part of handleKeyInput. */
module Games {
  import opened Directions
  import opened Constants
  import opened Collidables
  import opened Mazes
  import opened PacmanAgent
  import opened GhostAgent

  datatype Mode = Chased | Scattered | Frightened

  /** The game state. Mode timers count quarter ticks (see Constants).
      `ghosts` is the maze's ghost list: inky, clyde, pinky, blinky.
      `white[i]` records whether ghost i currently shows the warning colour. */
  datatype Game = Game(
    maze: Maze,
    pacman: Pacman,
    ghosts: seq<GhostState>,
    white: seq<bool>,
    mode: Mode,
    chaseCounter: nat,
    scatterCounter: nat,
    frightenedCounter: nat,
    ghostPenCounter: nat,
    score: int,
    lives: int,
    gameOverCounter: int,
    pen: seq<GhostId>,
    running: bool)

  /** The shape every operation relies on. */
  predicate Shape(g: Game) {
    WellFormed(g.maze) && |g.ghosts| == 4 && |g.white| == 4
  }

  /** The state invariant: Pac-Man, every ghost, and every cell the game
      teleports agents to are open squares. */
  predicate Inv(g: Game) {
    && Shape(g)
    && Open(g.maze, g.pacman.pos)
    && (forall i :: 0 <= i < 4 ==> Open(g.maze, g.ghosts[i].pos))
    && (forall c :: c in FixedCells() ==> Open(g.maze, c))
  }

  /** Open-ness depends on the walls alone. */
  lemma SameWallsSameOpen(m: Maze, m': Maze, c: Cell)
    requires WellFormed(m) && WellFormed(m') && m.walls == m'.walls
    ensures Open(m, c) == Open(m', c)
  {
  }

  const NoWhite: seq<bool> := [false, false, false, false]

  /** The pen as resetGhostPen builds it. */
  const InitialPen: seq<GhostId> := [Pinky, Inky, Clyde]

  /** The Game constructor on a support map with Pac-Man start `ps` and ghost
      start `gs`. */
  function NewGame(layout: seq<seq<SquareType>>, ps: Cell, gs: Cell): (g: Game)
    requires LayoutOk(layout, ps, gs)
    ensures Inv(g)
    ensures g.lives == LivesCounter && g.score == 0 && g.gameOverCounter == GameOverCounter
    ensures g.mode == Chased && g.pen == [Pinky, Inky, Clyde] && !g.running
    ensures g.maze == InitialMaze(layout, gs)
    ensures g.pacman.pos == ps && g.pacman.cur == Right && g.pacman.next == Right
    ensures forall i :: 0 <= i < 4 ==> g.ghosts[i] == GhostState(InitialGhostCells(gs)[i], Right)
    ensures g.white == NoWhite
    ensures g.chaseCounter == 0 && g.scatterCounter == 0 && g.frightenedCounter == 0 && g.ghostPenCounter == 0
  {
    StartsAreOpen(layout, ps, gs);
    var m := InitialMaze(layout, gs);
    var cells := InitialGhostCells(gs);
    CentreRoundTrip(ps);
    Game(m, NewPacman(CornerY(ps), CornerX(ps)),
         seq(4, i requires 0 <= i < 4 => GhostState(cells[i], Right)),
         NoWhite, Chased, 0, 0, 0, 0, 0, LivesCounter, GameOverCounter, InitialPen, false)
  }

  // ---------------------------------------------------------------------
  // Ghost modes
  // ---------------------------------------------------------------------

  /** scatterOrChase: outside SCATTERED (so also while FRIGHTENED) the chase
      timer runs, inside it the scatter timer; a timer past its threshold
      flips the mode and is zeroed. Nothing else changes. */
  function ScatterOrChase(g: Game): (h: Game)
    ensures h == g.(mode := h.mode, chaseCounter := h.chaseCounter, scatterCounter := h.scatterCounter)
    ensures g.mode != Scattered ==>
              && h.scatterCounter == g.scatterCounter
              && (if g.chaseCounter > ChaseQuarters then h.mode == Scattered && h.chaseCounter == 0
                  else h.mode == g.mode && h.chaseCounter == g.chaseCounter + 1)
    ensures g.mode == Scattered ==>
              && h.chaseCounter == g.chaseCounter
              && (if g.scatterCounter > ScatterQuarters then h.mode == Chased && h.scatterCounter == 0
                  else h.mode == Scattered && h.scatterCounter == g.scatterCounter + 1)
  {
    if g.mode != Scattered then
      if g.chaseCounter > ChaseQuarters then g.(mode := Scattered, chaseCounter := 0)
      else g.(chaseCounter := g.chaseCounter + 1)
    else
      if g.scatterCounter > ScatterQuarters then g.(mode := Chased, scatterCounter := 0)
      else g.(scatterCounter := g.scatterCounter + 1)
  }

  /** `n` consecutive calls of scatterOrChase. */
  function ScatterOrChaseTimes(g: Game, n: nat): Game
    decreases n
  {
    if n == 0 then g else ScatterOrChaseTimes(ScatterOrChase(g), n - 1)
  }

  /** A chase phase started with a zero counter lasts 401 more ticks (the
      counter must exceed 100 whole units) and flips to SCATTERED on the next. */
  lemma {:induction false} ChasePhase(g: Game, n: nat)
    requires g.mode == Chased && g.chaseCounter == 0
    requires n <= ChaseQuarters + 1
    ensures ScatterOrChaseTimes(g, n).mode == Chased && ScatterOrChaseTimes(g, n).chaseCounter == n
    ensures n == ChaseQuarters + 1 ==>
              ScatterOrChaseTimes(g, n + 1).mode == Scattered && ScatterOrChaseTimes(g, n + 1).chaseCounter == 0
  {
    if n > 0 {
      ChasePhaseFrom(g, n);
    }
    if n == ChaseQuarters + 1 {
      ChasePhaseFrom(g, n);
      ScatterOrChaseSplit(g, n, 1);
    }
  }

  lemma {:induction false} ChasePhaseFrom(g: Game, n: nat)
    requires g.mode == Chased && g.chaseCounter + n <= ChaseQuarters + 1
    ensures ScatterOrChaseTimes(g, n).mode == Chased
    ensures ScatterOrChaseTimes(g, n).chaseCounter == g.chaseCounter + n
    decreases n
  {
    if n > 0 {
      ChasePhaseFrom(ScatterOrChase(g), n - 1);
    }
  }

  lemma {:induction false} ScatterOrChaseSplit(g: Game, a: nat, b: nat)
    ensures ScatterOrChaseTimes(g, a + b) == ScatterOrChaseTimes(ScatterOrChaseTimes(g, a), b)
    decreases a
  {
    if a > 0 {
      ScatterOrChaseSplit(ScatterOrChase(g), a - 1, b);
    }
  }

  /** A scatter phase started with a zero counter lasts 141 ticks and flips
      back to CHASED on the next. */
  lemma {:induction false} ScatterPhaseFrom(g: Game, n: nat)
    requires g.mode == Scattered && g.scatterCounter + n <= ScatterQuarters + 1
    ensures ScatterOrChaseTimes(g, n).mode == Scattered
    ensures ScatterOrChaseTimes(g, n).scatterCounter == g.scatterCounter + n
    ensures g.scatterCounter + n == ScatterQuarters + 1 ==>
              ScatterOrChase(ScatterOrChaseTimes(g, n)).mode == Chased
    decreases n
  {
    if n > 0 {
      ScatterPhaseFrom(ScatterOrChase(g), n - 1);
    }
  }

  /** The chase timer keeps running while the ghosts are frightened, so a
      chase timeout can end FRIGHTENED early, straight into SCATTERED. */
  lemma ChaseTimeoutCutsFright(g: Game)
    requires g.mode == Frightened && g.chaseCounter > ChaseQuarters
    ensures ScatterOrChase(g).mode == Scattered
    ensures ScatterOrChase(g).frightenedCounter == g.frightenedCounter
  {
  }

  // ---------------------------------------------------------------------
  // Ghost movement for one tick (moveGhosts / frightenedMove)
  // ---------------------------------------------------------------------

  /** Move ghost `i` with the outcome of a ghostMove. */
  function WithMove(g: Game, i: nat, r: Moved): (h: Game)
    requires Shape(g) && i < 4 && WellFormed(r.maze)
    ensures Shape(h)
  {
    g.(maze := r.maze, ghosts := g.ghosts[i := r.agent])
  }

  /** frightenedMove for ghost `i` towards the random `target`: the ghost
      shows the warning colour exactly when the frightened timer has passed
      28 units; past 35 units FRIGHTENED ends (back to CHASED, every colour
      reset, timer zeroed), otherwise the timer advances. */
  function FrightenedMove(g: Game, i: nat, target: Cell): (h: Game)
    requires Inv(g) && i < 4
    ensures Inv(h) && h.maze.walls == g.maze.walls
    ensures h.ghosts == g.ghosts[i := GhostMove(g.maze, g.ghosts[i], GhostAt(i), target).agent]
    ensures g.frightenedCounter > FrightenedQuarters ==>
              h.mode == Chased && h.frightenedCounter == 0 && h.white == NoWhite
    ensures g.frightenedCounter <= FrightenedQuarters ==>
              && h.mode == g.mode && h.frightenedCounter == g.frightenedCounter + 1
              && h.white == g.white[i := g.frightenedCounter > WarningQuarters]
    ensures h.score == g.score && h.lives == g.lives && h.gameOverCounter == g.gameOverCounter
    ensures h.pen == g.pen && h.pacman == g.pacman && h.running == g.running
  {
    OpenIsInner(g.maze, g.ghosts[i].pos);
    var r := GhostMove(g.maze, g.ghosts[i], GhostAt(i), target);
    var g1 := WithMove(g, i, r);
    MoveKeepsInv(g, i, r);
    var g2 := g1.(white := g1.white[i := g.frightenedCounter > WarningQuarters]);
    if g.frightenedCounter > FrightenedQuarters then
      g2.(white := NoWhite, mode := Chased, frightenedCounter := 0)
    else
      g2.(frightenedCounter := g.frightenedCounter + 1)
  }

  /** A ghost move keeps the invariant: walls stay, and an open ghost lands open. */
  lemma MoveKeepsInv(g: Game, i: nat, r: Moved)
    requires Inv(g) && i < 4
    requires WellFormed(r.maze) && r.maze.walls == g.maze.walls && Open(g.maze, r.agent.pos)
    ensures Inv(WithMove(g, i, r))
  {
    var h := WithMove(g, i, r);
    forall c | c in FixedCells()
      ensures Open(h.maze, c)
    {
      SameWallsSameOpen(g.maze, h.maze, c);
    }
    forall j | 0 <= j < 4
      ensures Open(h.maze, h.ghosts[j].pos)
    {
      SameWallsSameOpen(g.maze, h.maze, h.ghosts[j].pos);
    }
    SameWallsSameOpen(g.maze, h.maze, h.pacman.pos);
  }

  /** One iteration of moveGhosts' loop for ghost `i`: the current mode,
      read afresh, picks the move. */
  function MoveOneGhost(g: Game, i: nat, pac: Cell, target: Cell): (h: Game)
    requires Inv(g) && i < 4
    ensures Inv(h) && h.maze.walls == g.maze.walls
    ensures h.score == g.score && h.lives == g.lives && h.gameOverCounter == g.gameOverCounter
    ensures h.pen == g.pen && h.pacman == g.pacman && h.running == g.running
    ensures forall j :: 0 <= j < 4 && j != i ==> h.ghosts[j] == g.ghosts[j]
    ensures g.mode == Chased ==>
              h.ghosts[i] == GhostMove(g.maze, g.ghosts[i], GhostAt(i), ChaseTarget(GhostAt(i), pac)).agent
    ensures g.mode == Scattered ==>
              h.ghosts[i] == GhostMove(g.maze, g.ghosts[i], GhostAt(i), ScatterCorner(GhostAt(i))).agent
    ensures g.mode != Frightened ==> h.mode == g.mode && h.frightenedCounter == g.frightenedCounter
    ensures g.mode == Frightened ==> h == FrightenedMove(g, i, target)
  {
    OpenIsInner(g.maze, g.ghosts[i].pos);
    match g.mode
    case Frightened => FrightenedMove(g, i, target)
    case Scattered =>
      var r := ScatterMove(g.maze, g.ghosts[i], i);
      MoveKeepsInv(g, i, r);
      WithMove(g, i, r)
    case Chased =>
      var r := ChaseMove(g.maze, g.ghosts[i], i, pac);
      MoveKeepsInv(g, i, r);
      WithMove(g, i, r)
  }

  /** moveGhosts: Pac-Man's cell is read once, then ghosts i, i+1, ..., 3
      move in list order; `targets[i]` is the random frightened target the
      source draws for ghost i. */
  function MoveGhostsFrom(g: Game, i: nat, pac: Cell, targets: seq<Cell>): (h: Game)
    requires Inv(g) && i <= 4 && |targets| == 4
    ensures Inv(h) && h.maze.walls == g.maze.walls
    ensures h.score == g.score && h.lives == g.lives && h.gameOverCounter == g.gameOverCounter
    ensures h.pen == g.pen && h.pacman == g.pacman && h.running == g.running
    ensures forall j :: 0 <= j < i ==> h.ghosts[j] == g.ghosts[j]
    decreases 4 - i
  {
    if i == 4 then g
    else MoveGhostsFrom(MoveOneGhost(g, i, pac, targets[i]), i + 1, pac, targets)
  }

  function MoveGhosts(g: Game, targets: seq<Cell>): (h: Game)
    requires Inv(g) && |targets| == 4
    ensures Inv(h) && h.maze.walls == g.maze.walls
    ensures h.score == g.score && h.lives == g.lives && h.gameOverCounter == g.gameOverCounter
    ensures h.pen == g.pen && h.pacman == g.pacman && h.running == g.running
  {
    MoveGhostsFrom(g, 0, CurrentCell(g.pacman), targets)
  }

  /** When FRIGHTENED times out at ghost `i`, the mode is CHASED for the
      rest of the loop, so by MoveOneGhost the later ghosts of the same tick
      already move towards their chase targets. */
  lemma FrightExitMidLoop(g: Game, i: nat, pac: Cell, t: Cell)
    requires Inv(g) && i < 4 && g.mode == Frightened && g.frightenedCounter > FrightenedQuarters
    ensures var h := MoveOneGhost(g, i, pac, t);
            h.mode == Chased && h.frightenedCounter == 0 && h.white == NoWhite
  {
    assert MoveOneGhost(g, i, pac, t) == FrightenedMove(g, i, t);
  }

  /** Outside FRIGHTENED every ghost follows its chase target or scatter
      corner and the mode is untouched by the loop. */
  lemma {:induction false} MoveGhostsKeepsCalmMode(g: Game, i: nat, pac: Cell, targets: seq<Cell>)
    requires Inv(g) && i <= 4 && |targets| == 4 && g.mode != Frightened
    ensures MoveGhostsFrom(g, i, pac, targets).mode == g.mode
    ensures MoveGhostsFrom(g, i, pac, targets).frightenedCounter == g.frightenedCounter
    decreases 4 - i
  {
    if i < 4 {
      MoveGhostsKeepsCalmMode(MoveOneGhost(g, i, pac, targets[i]), i + 1, pac, targets);
    }
  }

  // ---------------------------------------------------------------------
  // Score, pen, restart
  // ---------------------------------------------------------------------

  /** updateScores. */
  function UpdateScores(g: Game, increment: int): Game {
    g.(score := g.score + increment)
  }

  /** resetGhostPen: the pen becomes pinky, inky, clyde (blinky starts
      outside), colours are reset and the release counter is zeroed. */
  function ResetGhostPen(g: Game): (h: Game)
    ensures h == g.(pen := [Pinky, Inky, Clyde], white := NoWhite, ghostPenCounter := 0)
    ensures Blinky !in h.pen
  {
    g.(pen := InitialPen, white := NoWhite, ghostPenCounter := 0)
  }

  /** The cells setStartLoc puts the ghosts on, in ghost-list order. */
  function StartPositions(): seq<Cell> {
    [InkyStartCell, ClydeStartCell, PinkyStartCell, BlinkyStartCell]
  }

  /** setStartLoc: Pac-Man and every ghost back on their start cells;
      directions are left as they were. */
  function SetStartLoc(g: Game): (h: Game)
    requires |g.ghosts| == 4
    ensures |h.ghosts| == 4
    ensures h.pacman == g.pacman.(pos := PacmanStartCell)
    ensures forall i :: 0 <= i < 4 ==> h.ghosts[i] == g.ghosts[i].(pos := StartPositions()[i])
    ensures h == g.(pacman := h.pacman, ghosts := h.ghosts)
  {
    StartCells();
    g.(pacman := g.pacman.(pos := CellOfPixel(PacmanStartY, PacmanStartX)),
       ghosts := [g.ghosts[0].(pos := CellOfPixel(InkyStartY, InkyStartX)),
                  g.ghosts[1].(pos := CellOfPixel(ClydeStartY, ClydeStartX)),
                  g.ghosts[2].(pos := CellOfPixel(PinkyStartY, PinkyStartX)),
                  g.ghosts[3].(pos := CellOfPixel(BlinkyStartY, BlinkyStartX))])
  }

  /** restartGame: the timeline stops, the pen is reset, every agent returns
      to its start cell and one life is lost. Score, mode, timers other than
      the release counter, and the collectible count are untouched. */
  function RestartGame(g: Game): (h: Game)
    requires Inv(g)
    ensures Inv(h) && h.maze == g.maze
    ensures !h.running && h.lives == g.lives - 1
    ensures h.pen == [Pinky, Inky, Clyde] && h.ghostPenCounter == 0
    ensures h.pacman.pos == PacmanStartCell
    ensures forall i :: 0 <= i < 4 ==> h.ghosts[i].pos == StartPositions()[i]
    ensures h.score == g.score && h.gameOverCounter == g.gameOverCounter && h.mode == g.mode
    ensures h.chaseCounter == g.chaseCounter && h.scatterCounter == g.scatterCounter
    ensures h.frightenedCounter == g.frightenedCounter
    ensures h.white == NoWhite
    ensures h.pacman == g.pacman.(pos := PacmanStartCell)
    ensures forall i :: 0 <= i < 4 ==> h.ghosts[i] == g.ghosts[i].(pos := StartPositions()[i])
  {
    var h := SetStartLoc(ResetGhostPen(g.(running := false)));
    assert forall i :: 0 <= i < 4 ==> StartPositions()[i] in FixedCells();
    h.(lives := h.lives - 1)
  }

  /** letOutGhosts: every 20th tick the front ghost of a non-empty pen is
      released onto blinky's start cell. */
  function LetOutGhosts(g: Game): (h: Game)
    requires Inv(g)
    ensures Inv(h) && h.maze == g.maze && h.pacman == g.pacman
    ensures g.ghostPenCounter % 20 == 0 && |g.pen| > 0 ==>
              && h.pen == g.pen[1..]
              && h.ghosts == g.ghosts[GhostIndex(g.pen[0]) := g.ghosts[GhostIndex(g.pen[0])].(pos := BlinkyStartCell)]
    ensures !(g.ghostPenCounter % 20 == 0 && |g.pen| > 0) ==> h == g
    ensures h == g.(pen := h.pen, ghosts := h.ghosts)
  {
    if g.ghostPenCounter % 20 == 0 && |g.pen| != 0 then
      var removed := g.pen[0];
      var k := GhostIndex(removed);
      StartCells();
      assert RemoveFirst(g.pen, removed) == g.pen[1..] by {
        assert g.pen == [removed] + g.pen[1..];
      }
      assert BlinkyStartCell in FixedCells();
      g.(ghosts := g.ghosts[k := g.ghosts[k].(pos := CellOfPixel(BlinkyStartY, BlinkyStartX))],
         pen := RemoveFirst(g.pen, removed))
    else g
  }
  /** The pen is first in, first out: after a reset, the releases at pen
      counts 20, 40 and 60 put pinky, then inky, then clyde on the release
      cell (blinky starts outside), and the pen is then empty, so later
      releases change nothing. */
  lemma PenReleaseOrder(g: Game)
    requires Inv(g)
    ensures var p0 := ResetGhostPen(g);
            var p1 := LetOutGhosts(p0.(ghostPenCounter := 20));
            var p2 := LetOutGhosts(p1.(ghostPenCounter := 40));
            var p3 := LetOutGhosts(p2.(ghostPenCounter := 60));
            && p1.pen == [Inky, Clyde] && p1.ghosts[GhostIndex(Pinky)].pos == BlinkyStartCell
            && p2.pen == [Clyde] && p2.ghosts[GhostIndex(Inky)].pos == BlinkyStartCell
            && p3.pen == [] && p3.ghosts[GhostIndex(Clyde)].pos == BlinkyStartCell
            && forall n :: LetOutGhosts(p3.(ghostPenCounter := n)) == p3.(ghostPenCounter := n)
  {
  }


  // ---------------------------------------------------------------------
  // Collisions (checkCollisions, and collision() of each occupant)
  // ---------------------------------------------------------------------

  /** collision() of an occupant. A dot or energizer only removes its
      graphics. A ghost is eaten while FRIGHTENED (front of the pen, onto
      clyde's start cell, 200 points) and otherwise restarts the game. */
  function Collision(g: Game, o: Collidable): (h: Game)
    requires Inv(g)
    ensures Inv(h) && h.maze == g.maze
    ensures !o.Ghost? ==> h == g
    ensures o.Ghost? && g.mode == Frightened ==>
              && h.pen == [o.id] + g.pen
              && h.ghosts == g.ghosts[GhostIndex(o.id) := g.ghosts[GhostIndex(o.id)].(pos := ClydeStartCell)]
              && h == g.(pen := h.pen, ghosts := h.ghosts, score := g.score + GhostScore)
    ensures o.Ghost? && g.mode != Frightened ==> h == RestartGame(g)
  {
    match o
    case Ghost(id) =>
      if g.mode == Frightened then
        var k := GhostIndex(id);
        StartCells();
        assert ClydeStartCell in FixedCells();
        var h := g.(pen := [id] + g.pen,
                    ghosts := g.ghosts[k := g.ghosts[k].(pos := CellOfPixel(ClydeStartY, ClydeStartX))]);
        UpdateScores(h, GhostScore)
      else RestartGame(g)
    case _ => g
  }

  /** One iteration of checkCollisions' loop on the occupant `o` of the
      square `cell`: collision(), its increment added to the score, FRIGHTENED
      on an energizer, one collectible fewer for anything that is not a ghost,
      and `o` removed from the square's list. */
  function ProcessOccupant(g: Game, cell: Cell, o: Collidable): (h: Game)
    requires Inv(g) && InGrid(cell)
    ensures Inv(h) && h.maze.walls == g.maze.walls
    ensures Occupants(h.maze, cell.row, cell.col) == RemoveFirst(Occupants(g.maze, cell.row, cell.col), o)
    ensures forall r, c :: 0 <= r < MazeDimension && 0 <= c < MazeDimension && (r != cell.row || c != cell.col) ==>
              Occupants(h.maze, r, c) == Occupants(g.maze, r, c)
    ensures h.lives == (if o.Ghost? && g.mode != Frightened then g.lives - 1 else g.lives)
    ensures h.gameOverCounter == (if o.Ghost? then g.gameOverCounter else g.gameOverCounter - 1)
    ensures h.score >= g.score + DotScore
  {
    RemoveOccupant(Collect(g, o), cell, o)
  }

  /** `o` taken out of the live list of `cell`; nothing but that list changes. */
  function RemoveOccupant(g: Game, cell: Cell, o: Collidable): (h: Game)
    requires Inv(g) && InGrid(cell)
    ensures Inv(h) && h.maze.walls == g.maze.walls && h == g.(maze := h.maze)
    ensures Occupants(h.maze, cell.row, cell.col) == RemoveFirst(Occupants(g.maze, cell.row, cell.col), o)
    ensures forall r, c :: 0 <= r < MazeDimension && 0 <= c < MazeDimension && (r != cell.row || c != cell.col) ==>
              Occupants(h.maze, r, c) == Occupants(g.maze, r, c)
  {
    var list := Occupants(g.maze, cell.row, cell.col);
    var h := g.(maze := SetOccupants(g.maze, cell.row, cell.col, RemoveFirst(list, o)));
    OccupantsKeepInv(g, h);
    h
  }

  /** The loop body's effect on the game before the occupant is removed:
      collision(), the score increment, FRIGHTENED on an energizer, and one
      collectible fewer for anything that is not a ghost. */
  function Collect(g: Game, o: Collidable): (h: Game)
    requires Inv(g)
    ensures Inv(h) && h.maze == g.maze
    ensures h.lives == (if o.Ghost? && g.mode != Frightened then g.lives - 1 else g.lives)
    ensures h.gameOverCounter == (if o.Ghost? then g.gameOverCounter else g.gameOverCounter - 1)
    ensures h.score >= g.score + DotScore
  {
    SizeDispatch(o);
    var g1 := Collision(g, o);
    var g2 := UpdateScores(g1, Increment(o));
    var g3 := if Size(o) == EnergizerRadius then g2.(mode := Frightened) else g2;
    if Size(o) != SquareSize then g3.(gameOverCounter := g3.gameOverCounter - 1) else g3
  }

  /** What processing one occupant does, by kind: a dot scores 10 and an
      energizer 100, both count one collectible off and an energizer turns the
      ghosts FRIGHTENED (its timer is not reset); a frightened ghost is eaten
      for 200 from collision() plus its own increment of 200; any other ghost
      restarts the game, still scoring its increment. */
  lemma ProcessOccupantKinds(g: Game, cell: Cell, o: Collidable)
    requires Inv(g) && InGrid(cell)
    ensures var h := ProcessOccupant(g, cell, o);
            o == Dot ==>
              h == g.(maze := h.maze, score := g.score + DotScore, gameOverCounter := g.gameOverCounter - 1)
    ensures var h := ProcessOccupant(g, cell, o);
            o == Energizer ==>
              h == g.(maze := h.maze, score := g.score + EnergizerScore, mode := Frightened,
                      gameOverCounter := g.gameOverCounter - 1)
    ensures var h := ProcessOccupant(g, cell, o);
            o.Ghost? && g.mode == Frightened ==>
              && h.score == g.score + 2 * GhostScore
              && h.pen == [o.id] + g.pen
              && h.ghosts[GhostIndex(o.id)].pos == ClydeStartCell
              && h.lives == g.lives && h.gameOverCounter == g.gameOverCounter && h.mode == Frightened
              && h.running == g.running
    ensures var h := ProcessOccupant(g, cell, o);
            o.Ghost? && g.mode != Frightened ==>
              h == RestartGame(g).(maze := h.maze, score := g.score + GhostScore)
  {
    SizeDispatch(o);
  }

  /** Changing occupant lists keeps the invariant. */
  lemma OccupantsKeepInv(g: Game, h: Game)
    requires Inv(g) && WellFormed(h.maze) && h.maze.walls == g.maze.walls
    requires h == g.(maze := h.maze)
    ensures Inv(h)
  {
    forall c | c in FixedCells()
      ensures Open(h.maze, c)
    {
      SameWallsSameOpen(g.maze, h.maze, c);
    }
    forall j | 0 <= j < 4
      ensures Open(h.maze, h.ghosts[j].pos)
    {
      SameWallsSameOpen(g.maze, h.maze, h.ghosts[j].pos);
    }
    SameWallsSameOpen(g.maze, h.maze, h.pacman.pos);
  }

  /** checkCollisions' loop from index `i`, over the live list of `cell` (the
      square Pac-Man was on when the pass began, even if a restart moves him):
      the index advances while the processed occupant is removed. */
  function CollisionLoop(g: Game, cell: Cell, i: nat): (h: Game)
    requires Inv(g) && InGrid(cell)
    ensures Inv(h) && h.maze.walls == g.maze.walls
    ensures h.lives <= g.lives && h.gameOverCounter <= g.gameOverCounter && h.score >= g.score
    decreases |Occupants(g.maze, cell.row, cell.col)| - i
  {
    var list := Occupants(g.maze, cell.row, cell.col);
    if i >= |list| then g
    else
      var h := ProcessOccupant(g, cell, list[i]);
      CollisionLoop(h, cell, i + 1)
  }

  /** checkCollisions on the square under Pac-Man. */
  function CheckCollisions(g: Game): (h: Game)
    requires Inv(g)
    ensures Inv(h) && h.maze.walls == g.maze.walls
    ensures h.lives <= g.lives && h.gameOverCounter <= g.gameOverCounter && h.score >= g.score
  {
    CollisionLoop(g, CurrentCell(g.pacman), 0)
  }

  /** The collectibles among a list of occupants. */
  function Collectibles(s: seq<Collidable>): nat {
    if |s| == 0 then 0 else (if s[0].Ghost? then 0 else 1) + Collectibles(s[1..])
  }

  /** For a list without repeated entries, one pass processes exactly the
      entries at even positions (from position |p| on) and leaves the
      odd-positioned ones behind, in order; one collectible is counted off for
      every processed dot or energizer. */
  lemma {:induction false} SweepEvensOdds(g: Game, cell: Cell, p: seq<Collidable>, s: seq<Collidable>)
    requires Inv(g) && InGrid(cell)
    requires Occupants(g.maze, cell.row, cell.col) == p + s
    requires NoDuplicates(p + s)
    ensures var h := CollisionLoop(g, cell, |p|);
            && Occupants(h.maze, cell.row, cell.col) == p + Odds(s)
            && h.gameOverCounter == g.gameOverCounter - Collectibles(Evens(s))
    decreases |s|
  {
    if |s| > 0 {
      var o := s[0];
      HeadNotInPrefix(p, s);
      SweepStep(g, cell, p, o, s[1..]);
      var h := ProcessOccupant(g, cell, o);
      if |s| == 1 {
        assert p + s[1..] == p;
        assert Evens(s) == [o];
        assert Collectibles(Evens(s)) == (if o.Ghost? then 0 else 1);
      } else {
        NoDuplicatesShift(p, s);
        SweepEvensOdds(h, cell, p + [s[1]], s[2..]);
        EvensOddsStep(p, s);
      }
    }
  }

  /** checkCollisions on a square whose list has no repeated entry: the entries
      at even positions are processed, those at odd positions stay behind. */
  lemma CheckCollisionsSweep(g: Game)
    requires Inv(g) && NoDuplicates(Occupants(g.maze, g.pacman.pos.row, g.pacman.pos.col))
    ensures var list := Occupants(g.maze, g.pacman.pos.row, g.pacman.pos.col);
            var h := CheckCollisions(g);
            && Occupants(h.maze, g.pacman.pos.row, g.pacman.pos.col) == Odds(list)
            && h.gameOverCounter == g.gameOverCounter - Collectibles(Evens(list))
  {
    OpenIsInner(g.maze, g.pacman.pos);
    var list := Occupants(g.maze, g.pacman.pos.row, g.pacman.pos.col);
    assert [] + list == list;
    SweepEvensOdds(g, g.pacman.pos, [], list);
  }

  /** With no repetition, the first element of `s` does not occur in `p`. */
  lemma HeadNotInPrefix(p: seq<Collidable>, s: seq<Collidable>)
    requires |s| > 0 && NoDuplicates(p + s)
    ensures s[0] !in p && p + s == p + [s[0]] + s[1..]
  {
    forall j | 0 <= j < |p|
      ensures p[j] != s[0]
    {
      assert (p + s)[j] == p[j] && (p + s)[|p|] == s[0];
    }
  }

  /** How Evens, Odds and the collectible count unfold over two leading entries. */
  lemma EvensOddsStep(p: seq<Collidable>, s: seq<Collidable>)
    requires |s| >= 2
    ensures Collectibles(Evens(s)) == (if s[0].Ghost? then 0 else 1) + Collectibles(Evens(s[2..]))
    ensures p + [s[1]] + Odds(s[2..]) == p + Odds(s)
  {
    assert Evens(s) == [s[0]] + Evens(s[2..]);
    assert ([s[0]] + Evens(s[2..]))[1..] == Evens(s[2..]);
    assert Odds(s) == [s[1]] + Odds(s[2..]);
  }

  /** One turn of the loop at the first occurrence of `o`: the loop continues
      from the next index on the list with `o` spliced out. */
  lemma SweepStep(g: Game, cell: Cell, p: seq<Collidable>, o: Collidable, rest: seq<Collidable>)
    requires Inv(g) && InGrid(cell)
    requires Occupants(g.maze, cell.row, cell.col) == p + [o] + rest && o !in p
    ensures var h := ProcessOccupant(g, cell, o);
            && CollisionLoop(g, cell, |p|) == CollisionLoop(h, cell, |p| + 1)
            && Occupants(h.maze, cell.row, cell.col) == p + rest
            && h.gameOverCounter == g.gameOverCounter - (if o.Ghost? then 0 else 1)
  {
    assert (p + [o] + rest)[|p|] == o;
    RemoveFirstAt(p, o, rest);
  }

  lemma NoDuplicatesShift(p: seq<Collidable>, s: seq<Collidable>)
    requires |s| >= 2 && NoDuplicates(p + s)
    ensures NoDuplicates(p + s[1..])
    ensures p + s[1..] == p + [s[1]] + s[2..]
  {
    var t := p + s;
    var u := p + s[1..];
    forall i, j | 0 <= i < j < |u|
      ensures u[i] != u[j]
    {
      var i' := if i < |p| then i else i + 1;
      var j' := if j < |p| then j else j + 1;
      assert u[i] == t[i'] && u[j] == t[j'];
    }
  }

  // ---------------------------------------------------------------------
  // Ending the game and one tick (checkGameOver / update / handleKeyInput)
  // ---------------------------------------------------------------------

  /** checkGameOver(counter, win): a counter at or below zero stops the
      timeline; a win also resets the ghosts' colours. */
  function CheckGameOver(g: Game, counter: int, win: bool): (h: Game)
    ensures h == g.(running := h.running, white := h.white)
    ensures counter > 0 ==> h == g
    ensures counter <= 0 ==> !h.running
    ensures h.white == (if win && counter <= 0 then NoWhite else g.white)
  {
    if counter <= 0 then
      if win then g.(running := false, white := NoWhite) else g.(running := false)
    else g
  }

  /** update(): one keyframe. `targets` are the four random frightened
      targets drawn by frightenedMove this tick (ignored outside FRIGHTENED). */
  function Update(g: Game, targets: seq<Cell>): (h: Game)
    requires Inv(g) && |targets| == 4
    ensures Inv(h) && h.maze.walls == g.maze.walls
    ensures h.lives <= g.lives && h.gameOverCounter <= g.gameOverCounter && h.score >= g.score
    ensures h.gameOverCounter <= 0 || h.lives <= 0 ==> !h.running
  {
    var g2 := AdvanceTimers(g);
    var g3 := LetOutGhosts(g2);
    var g4 := PacmanStep(g3);
    var g5 := CheckCollisions(g4);
    var g6 := MoveGhosts(g5, targets);
    var g7 := CheckCollisions(g6);
    EndChecks(g7)
  }

  /** The start of update(): the release counter advances, then scatterOrChase. */
  function AdvanceTimers(g: Game): (h: Game)
    requires Inv(g)
    ensures Inv(h) && h.maze == g.maze
    ensures h.lives == g.lives && h.gameOverCounter == g.gameOverCounter && h.score == g.score
    ensures h.ghostPenCounter == g.ghostPenCounter + 1
  {
    var h := ScatterOrChase(g.(ghostPenCounter := g.ghostPenCounter + 1));
    InvFrame(g, h);
    h
  }

  /** movePacman as update() calls it. */
  function PacmanStep(g: Game): (h: Game)
    requires Inv(g)
    ensures Inv(h) && h == g.(pacman := MovePacman(g.maze, g.pacman))
  {
    OpenIsInner(g.maze, g.pacman.pos);
    var h := g.(pacman := MovePacman(g.maze, g.pacman));
    InvFrame(g, h);
    h
  }

  /** The two checkGameOver calls that end update(): first on the collectibles
      left (a win), then on the lives. */
  function EndChecks(g: Game): (h: Game)
    requires Inv(g)
    ensures Inv(h) && h.maze == g.maze
    ensures h.lives == g.lives && h.gameOverCounter == g.gameOverCounter && h.score == g.score
    ensures h.gameOverCounter <= 0 || h.lives <= 0 ==> !h.running
    ensures h.gameOverCounter > 0 && h.lives > 0 ==> h == g
    ensures h == g.(running := h.running, white := h.white)
    ensures h.running == (g.running && g.gameOverCounter > 0 && g.lives > 0)
    ensures h.white == (if g.gameOverCounter <= 0 then NoWhite else g.white)
  {
    var g1 := CheckGameOver(g, g.gameOverCounter, true);
    var h := CheckGameOver(g1, g1.lives, false);
    InvFrame(g, h);
    h
  }

  /** The invariant only concerns the maze, the agents' cells and the colours. */
  lemma InvFrame(g: Game, h: Game)
    requires Inv(g) && h.maze == g.maze && h.ghosts == g.ghosts && |h.white| == 4
    requires Open(g.maze, h.pacman.pos)
    ensures Inv(h)
  {
  }

  /** One keyframe of the timeline: update() runs only while it plays. */
  function Tick(g: Game, targets: seq<Cell>): (h: Game)
    requires Inv(g) && |targets| == 4
    ensures Inv(h) && h.maze.walls == g.maze.walls
    ensures h.lives <= g.lives && h.gameOverCounter <= g.gameOverCounter && h.score >= g.score
    ensures !g.running ==> h == g
  {
    if g.running then Update(g, targets) else g
  }

  /** handleKeyInput for a key press: `Some(d)` is an arrow key, `None` any
      other key. Only while neither counter has run out does a key start the
      timeline, and an arrow key is then passed to Pac-Man. */
  function KeyPress(g: Game, key: Option<Direction>): (h: Game)
    requires Inv(g)
    ensures Inv(h)
    ensures g.gameOverCounter > 0 && g.lives > 0 ==>
              h == g.(running := true,
                      pacman := if key.Some? then ChangeDirection(g.maze, g.pacman, key.value) else g.pacman)
    ensures g.gameOverCounter <= 0 || g.lives <= 0 ==> h == g
    ensures h.maze == g.maze && h.lives == g.lives && h.gameOverCounter == g.gameOverCounter && h.score == g.score
  {
    if g.gameOverCounter > 0 && g.lives > 0 then
      OpenIsInner(g.maze, g.pacman.pos);
      match key
      case Some(d) => g.(running := true, pacman := ChangeDirection(g.maze, g.pacman, d))
      case None => g.(running := true)
    else g
  }

  /** An input event: a key press or a keyframe with its random targets. */
  datatype Event = Key(key: Option<Direction>) | Frame(targets: seq<Cell>)

  predicate EventOk(e: Event) {
    e.Frame? ==> |e.targets| == 4
  }

  /** The game driven by a sequence of key presses and keyframes. */
  function Run(g: Game, events: seq<Event>): (h: Game)
    requires Inv(g) && forall i :: 0 <= i < |events| ==> EventOk(events[i])
    ensures Inv(h) && h.maze.walls == g.maze.walls
    ensures h.lives <= g.lives && h.gameOverCounter <= g.gameOverCounter && h.score >= g.score
    decreases |events|
  {
    if |events| == 0 then g
    else
      assert EventOk(events[0]);
      var g' := match events[0]
        case Key(k) => KeyPress(g, k)
        case Frame(t) => Tick(g, t);
      Run(g', events[1..])
  }

  /** Once the game has ended (no collectibles or no lives left) and the
      timeline has stopped, no further key press or keyframe changes anything. */
  lemma {:induction false} HaltedStaysHalted(g: Game, events: seq<Event>)
    requires Inv(g) && forall i :: 0 <= i < |events| ==> EventOk(events[i])
    requires (g.gameOverCounter <= 0 || g.lives <= 0) && !g.running
    ensures Run(g, events) == g
    decreases |events|
  {
    if |events| > 0 {
      HaltedStaysHalted(g, events[1..]);
    }
  }

  /** A tick that ends with no collectibles or no lives left stops the
      timeline, so the game is then halted for good. */
  lemma UpdateHalts(g: Game, targets: seq<Cell>, events: seq<Event>)
    requires Inv(g) && |targets| == 4 && forall i :: 0 <= i < |events| ==> EventOk(events[i])
    requires Update(g, targets).gameOverCounter <= 0 || Update(g, targets).lives <= 0
    ensures Run(Update(g, targets), events) == Update(g, targets)
  {
    HaltedStaysHalted(Update(g, targets), events);
  }
}
