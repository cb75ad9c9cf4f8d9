# Pac-Man grid engine, modelled in Dafny

This project models the game engine of a JavaFX Pac-Man. The engine covers:

- a 23x23 maze of squares, each holding a live list of occupants (dots, energizers, ghosts);
- Pac-Man, who buffers a turn and moves one square per tick, wrapping through the tunnel on row 11;
- four ghosts (inky, clyde, pinky, blinky). On every tick each one picks one step towards a target. The target is fixed by the shared ghost mode (CHASED, SCATTERED or FRIGHTENED);
- the tick (`update`):
  - mode timers;
  - releasing ghosts from the pen every 20 ticks;
  - Pac-Man's move and a collision pass;
  - the ghosts' moves and a second collision pass;
  - the win and loss checks that stop the timeline.

The model is functional. Every object is an immutable datatype, and every operation is a pure function from the old state to the new one. Pixels are replaced by cells:

- A square's or ghost's top-left corner is `row * 25`.
- Pac-Man's centre is `row * 25 + 12`.
- `CornerRoundTrip` and `CentreRoundTrip` prove that reading the cell back with Java's truncating division gives the same cell.

The `double` timers advance by 0.25, and every threshold is a multiple of 0.25. They are kept as natural numbers counting quarter ticks: 400, 140, 112 and 140 quarters stand for 100, 35, 28 and 35 units, and `QuarterTicksFaithful` justifies this. Euclidean distance only feeds a strict `>` comparison, so squared distance is used instead.

Two source loops are also written literally and proved equal to reference functions that the rest of the model uses:

- the nested `createMaze` loop (`Mazes.CreateMaze` equals `Mazes.InitialMaze`);
- the `ghostBFS` loop (`GhostAgent.GhostBfs` equals `GhostAgent.BestDirection`).

The model follows the code where it differs from the obvious design:

- The "BFS" enqueues only the ghost's four neighbours and never expands further. The choice is therefore one greedy step among the accepted neighbours.
- `validNeighborHelper` writes the direction table at `[col][row]` but tests `[row][col]`. On the diagonal row == col, this rejects RIGHT after DOWN and LEFT after UP. Off the diagonal it rejects nothing.
- The chase timer runs whenever the mode is not SCATTERED, so it also runs while FRIGHTENED. A chase timeout can therefore end FRIGHTENED directly in SCATTERED. An energizer never resets the frightened timer.
- `checkCollisions` advances its index while removing the processed entry from the same list. For a list without repeats, it processes the entries at even positions and leaves the odd ones behind.
- An eaten frightened ghost scores 400: 200 from `collision()` plus its increment of 200. A ghost that restarts the game still scores its 200.
- Releases, eaten ghosts and restarts move agents without updating any occupant list.
- Clyde's initial entry is lost, because `createMaze` later replaces the square to the right of the ghost start.
- A restart mid-tick does not end the tick: the rest of `update()` still runs.

## Model

| member | source | states |
|---|---|---|
| Directions.OppositeIsInvolution | Direction.java:14-25 | opposite undoes itself, and no direction is its own opposite |
| Directions.StepDeltas | Direction.java:35-63 | UP gives row-1 and DOWN row+1 with the column kept; LEFT gives col-1 and RIGHT col+1 with the row kept |
| Directions.StepIsUnit | Direction.java:35-63 | every step lands at Manhattan distance exactly 1 |
| Directions.StepBack | Direction.java:14-63 | a step in d followed by a step in opposite(d) returns to the start cell |
| Directions.StepInjective | Direction.java:35-63 | two directions reach the same neighbour only if they are the same direction |
| Constants.JavaDiv | Maze.java:75-80 | Java int division truncates toward zero: a non-negative dividend leaves a remainder in [0, b), a negative one a remainder in (-b, 0] |
| Constants.SizeTagsDistinct | Constants.java:32-35 | the size tags 2, 7 and 25 are pairwise distinct, so size-based dispatch is unambiguous |
| Constants.QuarterTicksFaithful | Constants.java:75-79 | k increments of 0.25 exceed a whole threshold t exactly when k exceeds 4t |
| Constants.ThresholdsInQuarters | Constants.java:75-79 | the thresholds 100, 35, 28, 35 are exactly 400, 140, 112, 140 quarter increments |
| Constants.CornerRoundTrip | MazeSquare.java:27-31 | a cell's corner pixel divided by the square size gives the cell back |
| Constants.CornerAxis | Maze.java:70-80 | k*25 divided by 25 is k, for every integer k |
| Constants.CentreRoundTrip | Pacman.java:52-84 | Pac-Man's centre pixel of a cell divided by the square size gives the cell back |
| Constants.StartCells | Constants.java:58-71 | the start pixels lie in cells (17,11), (8,11), (10,11), (10,12) and (10,10); Pac-Man's start pixel is the centre of its cell |
| Constants.ScatterCornersInside | Constants.java:80-83 | every scatter corner has row and column in {1, 21}, and the tunnel row is 11 |
| Collidables.GhostIndex | Maze.java:74-80 | the ghost list positions of inky, clyde, pinky and blinky are below 4 |
| Collidables.GhostIndexRoundTrip | Game.java:131-135 | ghost identities and list positions 0-3 correspond one to one |
| Collidables.SizeDispatch | Game.java:313-323 | size 7 means exactly an energizer; a size other than 25 means exactly a dot or energizer; increments are 10, 100 and 200 |
| Collidables.RemoveFirst | Game.java:325 | remove(Object) shortens the list by one if the element occurs, leaves it unchanged otherwise, and adds nothing |
| Collidables.RemoveFirstAt | Game.java:325 | when x does not occur in p, removing x from p + [x] + rest gives p + rest |
| Mazes.NewMazeSquare | MazeSquare.java:27-35 | a new square starts with an empty occupant list |
| Mazes.SquareAtPixels | MazeSquare.java:27-31 | a square built at pixel (row*25, col*25) reports (row, col) |
| Mazes.OpenIsInner | Maze.java:153-159 | an open cell is never on the top or bottom row, so its vertical neighbours exist |
| Mazes.OpenIffNoWall | Maze.java:153-159 | an in-range row's cell is open exactly when isThereWall says no wall |
| Mazes.SetOccupants | MazeSquare.java:65-67 | after a write to a square's live list, that square reads back the new list; every other square and every wall is unchanged |
| Mazes.VisitCell | Maze.java:44-85 | one iteration of the classification loop extends the row-major progress invariant by one cell |
| Mazes.VisitOrdinary | Maze.java:48-66 | a wall, free, dot, energizer or Pac-Man-start cell gets a fresh square, with a dot or energizer where the map says |
| Mazes.VisitGhostStart | Maze.java:67-82 | the ghost start places inky there, clyde to the right, pinky to the left and blinky two rows up, keeping the invariant |
| Mazes.BuildGhostStart | Maze.java:69-80 | the ghost start square holds inky alone, pinky and blinky are appended to the squares left of it and two rows up, and no square beyond those four changes |
| Mazes.GhostSquares | Maze.java:67-82 | after the ghost-start cell every visited square holds its collectible followed by its surviving ghost entry |
| Mazes.GhostSquareAt | Maze.java:67-82 | the same, one square at a time: inky's square, pinky's, blinky's, and every untouched square |
| Mazes.SquaresStep | Maze.java:48-66 | visiting any other cell makes its square exactly its collectible list and keeps every visited square correct |
| Mazes.WallsStep | Maze.java:49-53 | visiting a cell records its wall flag exactly when the map says WALL; unvisited cells stay unmarked |
| Mazes.CreateMaze | Maze.java:39-93 | the loop builds exactly InitialMaze, finds the Pac-Man start, and creates the ghosts at InitialGhostCells |
| Mazes.InitialMazeWellFormed | Maze.java:41-52 | the built maze is 23x23 with walls along the top and bottom rows |
| Mazes.InitialWalls | Maze.java:153-159 | after construction, an out-of-range column is a wall, and an in-range cell is a wall iff the map marks it WALL |
| Mazes.InitialCollectibles | Maze.java:57-62 | a DOT cell holds exactly one dot, an ENERGIZER cell exactly one energizer, and no other cell holds either |
| Mazes.InitialGhostEntries | Maze.java:67-80 | inky, pinky and blinky are listed in their squares, and clyde in none |
| Mazes.StartsAreOpen | Maze.java:63-80 | Pac-Man's start, the four ghost cells and every restart or release cell are open |
| PacmanAgent.NewPacman | Pacman.java:27-46 | Pac-Man starts facing RIGHT with RIGHT buffered, centred DOT_OFFSET into its start square |
| PacmanAgent.CurrentCell | Pacman.java:54-55 | reading the cell from the centre pixel gives Pac-Man's cell |
| PacmanAgent.ChangeDirection | Pacman.java:52-61 | a turn is buffered iff it differs from the current direction and its unwrapped neighbour is open; otherwise nothing changes |
| PacmanAgent.Wrap | Pacman.java:92-103 | on row 11, column 23 becomes 0 and column -1 becomes 22; elsewhere the column passes through |
| PacmanAgent.MovePacman | Pacman.java:66-84 | the buffered direction always becomes current; Pac-Man enters the wrapped neighbour iff it is open; an open position stays open |
| PacmanAgent.MoveIsLocal | Pacman.java:66-103 | Pac-Man stays, steps to a neighbour, or jumps between the two ends of the tunnel row |
| PacmanAgent.TunnelWraps | Pacman.java:92-103 | with both tunnel ends open, running off one end re-enters at the other |
| PacmanAgent.AcceptedTurnIsTaken | Pacman.java:52-71 | a turn accepted by changeDirection is the step taken by the next movePacman |
| GhostAgent.GhostCell | Ghost.java:176-177 | reading the cell from the ghost's corner pixel gives its cell |
| GhostAgent.LookupSemantics | Ghost.java:189 | the direction array reads like the Java array it models: a fresh one is null everywhere, and a write changes only the entry it names |
| GhostAgent.ValidNeighborHelper | Ghost.java:228-240 | a neighbour is queued and logged at the transposed index exactly when open, not the reversal, and its untransposed entry is empty |
| GhostAgent.Candidates | Ghost.java:207-240 | a direction is a candidate iff it is accepted (open, not a reversal, not shadowed); candidates appear in the order DOWN, UP, RIGHT, LEFT, without repeats |
| GhostAgent.Pick | Ghost.java:207-217 | a direction is kept iff its flag is set, and kept directions are strictly ordered DOWN, UP, RIGHT, LEFT |
| GhostAgent.HelperExtends | Ghost.java:228-240 | each helper call extends the queue and table invariant by exactly the accepted direction |
| GhostAgent.HelperAccepts | Ghost.java:234-237 | an accepting helper call enqueues the neighbour last and files its direction, so the invariant holds for the extended list |
| GhostAgent.KeyOfAppend | Ghost.java:237 | filing one more direction adds exactly its transposed neighbour to the keys |
| GhostAgent.VisitedTest | Ghost.java:232-237 | the transposed visited test fires exactly on the diagonal, for RIGHT after DOWN and LEFT after UP |
| GhostAgent.PartialHolds | Ghost.java:207-217 | after the first k helper calls, the queue and array hold exactly the accepted directions among the first k of DOWN, UP, RIGHT, LEFT, in that order |
| GhostAgent.PrefixMembers | Ghost.java:207-217 | one of the four directions is among those kept after k tries iff it is among the first k and accepted |
| GhostAgent.TryAccepted | Ghost.java:228-240 | the k-th helper call passes its test (open, not a reversal, not yet visited) iff its direction is accepted, and it is not already kept |
| GhostAgent.CheckValidNeighborsMatches | Ghost.java:180-189 | the queue lists the candidates' cells in order, and the transposed read recovers each cell's direction |
| GhostAgent.PrefixIsCandidates | Ghost.java:207-217 | the staged filter over all four tries yields exactly the candidates |
| GhostAgent.PartialIsFilter | Ghost.java:207-217 | the staged filter over all four tries is checkValidNeighbors |
| GhostAgent.OffDiagonalAcceptsAllAdmissible | Ghost.java:232 | off the diagonal, every open non-reversing direction is a candidate |
| GhostAgent.DiagonalShadowing | Ghost.java:232-237 | on the diagonal, DOWN excludes RIGHT and UP excludes LEFT, while DOWN and UP are never shadowed |
| GhostAgent.FirstMin | Ghost.java:192-195 | the chosen index has minimal distance, and every earlier index is strictly farther |
| GhostAgent.FirstMinExtend | Ghost.java:192-195 | extending the scanned prefix keeps the old minimum unless the new entry is strictly smaller |
| GhostAgent.FirstMinUnique | Ghost.java:192-195 | an index no farther than every entry and strictly nearer than every earlier one is the first minimum: the strict `>` keeps the first of equals |
| GhostAgent.SquareKeepsStrictOrder | Ghost.java:155-159 | for non-negative reals, the strict `>` between two square roots holds iff it holds between their squares, so squared distances pick the same winner as Math.sqrt |
| GhostAgent.BestDirection | Ghost.java:166-199 | null iff no direction is accepted; otherwise an accepted direction nearest the target, and no earlier candidate is as near |
| GhostAgent.NearestAmong | Ghost.java:182-196 | the first nearest candidate is no farther than any candidate and strictly nearer than every earlier one |
| GhostAgent.GhostBfs | Ghost.java:166-199 | the literal loop returns BestDirection |
| GhostAgent.DrainQueue | Ghost.java:182-196 | draining the queue yields null for no candidates, and otherwise the first nearest candidate's direction |
| GhostAgent.CheckMoveValidity | Ghost.java:134-147 | the ghost leaves its old list, moves iff the destination is open, is appended to the destination list regardless, and nothing else changes |
| GhostAgent.FallbackCell | Ghost.java:111-117 | the fallback cell is on the tunnel row, in column 22 when the ghost is in column 0 and in column 0 otherwise, so it is never the ghost's own cell |
| GhostAgent.GhostMove | Ghost.java:107-126 | with a direction, the ghost steps there without reversing onto an open cell; with null it keeps its direction and tries the fallback; the lists are updated |
| GhostAgent.GhostMoveStepsToward | Ghost.java:107-126 | with some direction accepted, the ghost takes an accepted direction and lands no farther from the target than any accepted step; with none, it keeps its direction and jumps to the fallback cell if open, else stays |
| GhostAgent.GhostMoveIsLocal | Ghost.java:107-147 | a ghost either steps to a neighbour without reversing, or keeps its direction and stays or takes the fallback |
| GhostAgent.ChaseOffsets | Ghost.java:276-301 | by list index, the chase targets are (r, c+2), (r-4, c), (r+1, c-3) and (r, c) from Pac-Man's cell (r, c); only blinky aims at Pac-Man himself, the others 2, 4 and 4 cells away |
| GhostAgent.ScatterCornersDistinct | Ghost.java:246-268 | by list index, the scatter corners are (21,21), (21,1), (1,1) and (1,21); no two ghosts share one, and each lies inside the grid |
| GhostAgent.ScatterMove | Ghost.java:246-268 | the i-th ghost moves as ghostMove towards its own scatter corner (fixed per index by ScatterCornersDistinct), and walls are kept |
| GhostAgent.ChaseMove | Ghost.java:276-301 | the i-th ghost moves as ghostMove towards its chase target (fixed per index by ChaseOffsets), and walls are kept |
| Games.NewGame | Game.java:56-153 | a new game holds the maze createMaze builds, has 3 lives, score 0, 186 collectibles to go, mode CHASED with every timer at 0, colours reset, pen [pinky, inky, clyde], and is not running; Pac-Man starts facing RIGHT, and every agent is on an open cell |
| Games.ScatterOrChase | Game.java:278-301 | outside SCATTERED only the chase timer moves, inside it only the scatter timer; past its threshold the mode flips and that timer is zeroed |
| Games.ChasePhase | Game.java:278-301 | from a zeroed chase timer, CHASED lasts 401 ticks and turns into SCATTERED on the next |
| Games.ChasePhaseFrom | Game.java:281-289 | each tick below the threshold keeps CHASED and adds one quarter to the chase timer |
| Games.ScatterOrChaseSplit | Game.java:278-301 | a+b timer ticks are a ticks followed by b ticks |
| Games.ScatterPhaseFrom | Game.java:292-299 | SCATTERED lasts until its timer passes 140 quarters, then flips back to CHASED |
| Games.ChaseTimeoutCutsFright | Game.java:280-285 | a chase timeout while FRIGHTENED switches to SCATTERED without touching the frightened timer |
| Games.FrightenedMove | Game.java:251-273 | the ghost makes its move; it shows white iff the timer is past 112 quarters; past 140 the mode becomes CHASED, all colours reset and the timer is zeroed, otherwise it grows by one quarter |
| Games.MoveOneGhost | Game.java:229-243 | the mode read at this iteration chooses a chase, scatter or frightened move for ghost i; the other ghosts are unchanged |
| Games.FrightExitMidLoop | Game.java:229-233 | when FRIGHTENED times out at ghost i, the mode is CHASED for the remaining ghosts of the same loop |
| Games.MoveGhostsFrom | Game.java:228-244 | the loop from ghost i leaves earlier ghosts, Pac-Man, score, lives, pen and walls unchanged, and keeps the invariant |
| Games.MoveGhosts | Game.java:226-245 | moving the ghosts keeps walls, counters, pen and Pac-Man, and keeps every agent on an open cell |
| Games.MoveGhostsKeepsCalmMode | Game.java:226-245 | outside FRIGHTENED, moving the ghosts never changes the mode |
| Games.ResetGhostPen | Game.java:398-405 | the pen becomes [pinky, inky, clyde], never holding blinky, with colours reset and the release counter zeroed |
| Games.PenReleaseOrder | Game.java:331-344 | after a reset, the releases at pen counts 20, 40 and 60 put pinky, inky and clyde on (8,11) in that order, first in first out; the pen is then empty and later releases change nothing |
| Games.SetStartLoc | Game.java:420-431 | Pac-Man and every ghost are placed on their start cells with directions kept |
| Games.RestartGame | Game.java:363-383 | the timeline stops, exactly one life is lost, the pen is reset with colours cleared, and everyone is on a start cell with directions kept; score, mode, timers and collectibles are untouched |
| Games.LetOutGhosts | Game.java:335-344 | on every 20th tick with a non-empty pen, the front ghost is popped and placed on (8,11); otherwise nothing changes |
| Games.Collision | Ghost.java:67-82 | a dot or energizer changes nothing; a frightened ghost goes to the front of the pen, onto (10,12), for 200; any other ghost restarts the game |
| Games.ProcessOccupant | Game.java:313-326 | one loop turn removes the occupant from the square's list; it costs a life only for a calm ghost and a collectible only for a dot or energizer, and always scores |
| Games.Collect | Game.java:314-324 | before removal: the maze is unchanged, a life is lost only to a calm ghost, a collectible is counted off only for a dot or energizer, and the score rises by at least 10 |
| Games.RemoveOccupant | Game.java:325 | the occupant is removed from that square's live list only; every other list and all other state stay as they were |
| Games.ProcessOccupantKinds | Game.java:313-326 | a dot scores 10, and an energizer scores 100 and forces FRIGHTENED; each costs one collectible; a frightened ghost scores 400 in total; a calm ghost restarts and scores 200 |
| Games.CollisionLoop | Game.java:313-327 | the pass keeps the invariant and walls; lives and collectibles never grow, and the score never drops |
| Games.CheckCollisions | Game.java:307-329 | a collision pass on Pac-Man's square keeps the invariant, and never raises lives or collectibles or lowers the score |
| Games.SweepEvensOdds | Game.java:313-327 | from position p, the pass processes the even-positioned entries and keeps the odd ones in order; collectibles drop by the number of processed dots and energizers |
| Games.SweepStep | Game.java:314-326 | one loop turn splices the processed entry out, and the loop resumes at the next index |
| Games.CheckCollisionsSweep | Game.java:307-329 | for a repeat-free list, exactly the even-positioned entries are consumed and the odd ones stay, in order |
| Games.AdvanceTimers | Game.java:200-205 | the release counter advances by one and scatterOrChase runs; score, lives and collectibles are unchanged |
| Games.PacmanStep | Game.java:215 | Pac-Man moves within the open cells |
| Games.EndChecks | Game.java:207-208 | the timeline keeps running iff both the collectibles and the lives are still positive; a win (no collectibles left) clears the colours; nothing else changes |
| Games.CheckGameOver | Game.java:440-459 | a counter at or below zero stops the timeline, and on a win also clears the colours; a positive counter changes nothing, and nothing but the running flag and colours ever changes |
| Games.Update | Game.java:200-219 | a tick keeps walls and the invariant, never raises lives or collectibles or lowers the score, and stops the timeline if either counter has run out |
| Games.Tick | Game.java:158-164 | a keyframe runs update() only while the timeline plays; it keeps the walls and the invariant, never raises lives or collectibles, and never lowers the score |
| Games.KeyPress | Game.java:172-194 | while both counters are positive, a key starts the timeline and an arrow key is passed to changeDirection; otherwise nothing changes; a key never touches the maze, lives, collectibles or score |
| Games.Run | Game.java:158-194 | any sequence of keys and keyframes keeps the invariant and the walls, never raises lives or collectibles, and never lowers the score |
| Games.HaltedStaysHalted | Game.java:172-174 | once a counter has run out and the timeline is stopped, no key or keyframe changes anything |
| Games.UpdateHalts | Game.java:440-459 | a tick that ends with no collectibles or no lives leaves a game that no later event changes |

## Left out

- Rendering (shapes, colours, labels, fonts, the score pane, the quit button, `removeGameLabelText`, `gameLabelDisCounter`, `setToFront`, `createCollidable` graphics) is not modelled, because it does not affect the game state. The ghosts' colours are kept only as one boolean per ghost: whether it shows the warning white.
- `Timeline`, `KeyFrame` and `KeyEvent` are not modelled; the timeline is the `running` flag and one keyframe is `Games.Tick`. Real-time scheduling is outside the model.
- `Math.random` in `frightenedMove` is not modelled. The four frightened targets of a tick are a parameter of `Games.Update`.
- `Math.pow` and `Math.sqrt` are replaced by squared integer distance. It only feeds a strict comparison, so the same candidate wins (`GhostAgent.SquareKeepsStrictOrder`). Floating-point rounding of the square root is not modelled.
- `CS15SupportMap` and `CS15SquareType` are not part of this model. The layout is a 23x23 parameter, with the assumptions `Mazes.LayoutOk` states:
  - the top and bottom rows are walls (isThereWall never checks the row);
  - there is exactly one Pac-Man start and one ghost start;
  - the ghost start leaves room for the three other ghost squares;
  - every cell an agent is placed on is not a wall.
- `BoardCoordinate` is not part of this model. It is taken to hold a (row, column) pair without checks.
- The `Collidable` interface has no behaviour. It becomes the `Collidables.Collidable` datatype.
- `App.java` and `PaneOrganizer.java` are not modelled: they only set up the scene.
- `Ghost.nextDirection` is only a temporary inside `ghostMove`, so it is not a field of the ghost state.
- Java object identity is not modelled. Occupants compare by value: a square holds at most one dot or energizer, and each ghost occurs once per identity, so `remove(Object)` removes the same entry.
- Games.SweepEvensOdds: stated only for occupant lists without repeats. With repeated entries the Java loop removes the first equal entry rather than the one at the index, and that case is not characterised.
- Games.Collision and Games.RestartGame: the teleported agents' occupant-list entries are left as they were, as in the source. The lemmas say nothing about the lists then agreeing with the positions.
- The initial value 186 of `gameOverCounter` is a constant of the source. The model does not relate it to the number of collectibles in a layout, because the layout is a parameter.
