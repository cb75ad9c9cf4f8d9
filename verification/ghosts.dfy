/** Ghost movement (Ghost.java): the neighbour filter, the nearest-candidate
    choice the source calls its BFS, the tunnel fallback, the occupant-list
    update of a move, and the per-ghost chase and scatter targets.

    A ghost is a rectangle whose corner pixel is (row * 25, col * 25); here it
    is kept as its cell (CornerRoundTrip shows the source recovers the same
    cell from the pixel). */
module GhostAgent {
  import opened Directions
  import opened Constants
  import opened Collidables
  import opened Mazes

  datatype Option<T> = None | Some(value: T)

  /** A ghost's cell and the direction of its last step. The source's
      nextDirection field is only a temporary inside ghostMove. */
  datatype GhostState = GhostState(pos: Cell, cur: Direction)

  /** A ghost the source can look around: in the grid and off the top and
      bottom rows. Every open cell qualifies (OpenIsInner). */
  predicate Placed(g: GhostState) {
    InGrid(g.pos) && 1 <= g.pos.row <= MazeDimension - 2
  }

  /** The cell the source computes from the ghost's corner pixel. */
  function GhostCell(g: GhostState): (c: Cell)
    ensures c == g.pos
  {
    CornerRoundTrip(g.pos);
    CellOfPixel(CornerY(g.pos), CornerX(g.pos))
  }

  // ---------------------------------------------------------------------
  // The neighbour filter (checkValidNeighbors / validNeighborHelper)
  // ---------------------------------------------------------------------

  /** The search state: the direction array, as a map from [first][second]
      index pairs written as cells, and the queue of board coordinates. */
  datatype Search = Search(table: map<Cell, Direction>, queue: seq<Cell>)

  /** Reading an entry of the direction array: None plays Java's null. */
  function Lookup(table: map<Cell, Direction>, key: Cell): Option<Direction> {
    if key in table then Some(table[key]) else None
  }

  /** The direction array as the source allocates and writes it: every entry
      of a fresh array is null, and a write changes the entry it names and
      no other. */
  lemma LookupSemantics(t: map<Cell, Direction>, k: Cell, d: Direction, k': Cell)
    ensures Lookup(map[], k') == None
    ensures Lookup(t[k := d], k') == if k' == k then Some(d) else Lookup(t, k')
  {
  }

  /** validNeighborHelper, as written: the visited test reads
      directionArray[newRow][newCol] while the entry is written at
      directionArray[newCol][newRow]. */
  function ValidNeighborHelper(m: Maze, newRow: int, newCol: int, opposite: Direction,
                               actual: Direction, s: Search): (s': Search)
    requires WellFormed(m) && 0 <= newRow < MazeDimension
    ensures Open(m, Cell(newRow, newCol)) && opposite != actual && Cell(newRow, newCol) !in s.table ==>
              s'.queue == s.queue + [Cell(newRow, newCol)] && s'.table == s.table[Cell(newCol, newRow) := actual]
    ensures !(Open(m, Cell(newRow, newCol)) && opposite != actual && Cell(newRow, newCol) !in s.table) ==>
              s' == s
  {
    OpenIffNoWall(m, Cell(newRow, newCol));
    if !IsThereWall(m, newRow, newCol) && opposite != actual && Lookup(s.table, Cell(newRow, newCol)) == None then
      Search(s.table[Cell(newCol, newRow) := actual], s.queue + [Cell(newRow, newCol)])
    else s
  }

  /** checkValidNeighbors from the ghost's cell, with a fresh array and queue:
      DOWN, UP, RIGHT, LEFT in that order. */
  function CheckValidNeighbors(m: Maze, g: GhostState): Search
    requires WellFormed(m) && Placed(g)
  {
    var root := GhostCell(g);
    var opposite := Opposite(g.cur);
    var s0 := Search(map[], []);
    var s1 := ValidNeighborHelper(m, root.row + 1, root.col, opposite, Down, s0);
    var s2 := ValidNeighborHelper(m, root.row - 1, root.col, opposite, Up, s1);
    var s3 := ValidNeighborHelper(m, root.row, root.col + 1, opposite, Right, s2);
    ValidNeighborHelper(m, root.row, root.col - 1, opposite, Left, s3)
  }

  /** The filter a ghost's step is meant to apply: the neighbour is open and
      the step does not reverse the ghost. */
  predicate Admissible(m: Maze, g: GhostState, d: Direction)
    requires WellFormed(m)
  {
    Open(m, Step(g.pos, d)) && d != Opposite(g.cur)
  }

  /** The extra rejections the transposed visited test causes: on the
      diagonal (row == col) the RIGHT neighbour's [row][col+1] is the entry
      DOWN wrote, and the LEFT neighbour's [row][col-1] is the entry UP wrote. */
  predicate Shadowed(m: Maze, g: GhostState, d: Direction)
    requires WellFormed(m)
  {
    g.pos.row == g.pos.col &&
    ((d == Right && Admissible(m, g, Down)) || (d == Left && Admissible(m, g, Up)))
  }

  predicate Accepted(m: Maze, g: GhostState, d: Direction)
    requires WellFormed(m)
  {
    Admissible(m, g, d) && !Shadowed(m, g, d)
  }

  /** The accepted directions in the order the source tries them. */
  function Candidates(m: Maze, g: GhostState): (ds: seq<Direction>)
    requires WellFormed(m)
    ensures forall d :: d in ds <==> Accepted(m, g, d)
    ensures forall i, j :: 0 <= i < j < |ds| ==> Rank(ds[i]) < Rank(ds[j])
    ensures forall i, j :: 0 <= i < j < |ds| ==> ds[i] != ds[j]
  {
    Pick(Accepted(m, g, Down), Accepted(m, g, Up), Accepted(m, g, Right), Accepted(m, g, Left))
  }

  /** The position of a direction in the order checkValidNeighbors tries them. */
  function Rank(d: Direction): nat {
    match d
    case Down => 0
    case Up => 1
    case Right => 2
    case Left => 3
  }

  /** DOWN, UP, RIGHT, LEFT in that order, each kept when its flag is set. */
  function Pick(down: bool, up: bool, right: bool, left: bool): (ds: seq<Direction>)
    ensures forall d :: d in ds <==> (d == Down && down) || (d == Up && up) || (d == Right && right) || (d == Left && left)
    ensures forall i, j :: 0 <= i < j < |ds| ==> Rank(ds[i]) < Rank(ds[j])
  {
    var a: seq<Direction> := if down then [Down] else [];
    var b: seq<Direction> := if up then [Up] else [];
    var c: seq<Direction> := if right then [Right] else [];
    var e: seq<Direction> := if left then [Left] else [];
    assert forall d :: d in a + b + c + e <==> d in a || d in b || d in c || d in e;
    a + b + c + e
  }

  /** The transposed key under which an accepted neighbour's direction lies. */
  function Transposed(c: Cell): Cell {
    Cell(c.col, c.row)
  }

  /** `c` is one of the array keys written for the directions `ds`. */
  predicate KeyOf(pos: Cell, ds: seq<Direction>, c: Cell) {
    || (Down in ds && c == Transposed(Step(pos, Down)))
    || (Up in ds && c == Transposed(Step(pos, Up)))
    || (Right in ds && c == Transposed(Step(pos, Right)))
    || (Left in ds && c == Transposed(Step(pos, Left)))
  }

  /** A search state that holds exactly the directions `ds`: each enqueued as
      its neighbour, in order, and each filed under its transposed key. */
  ghost predicate Holds(s: Search, pos: Cell, ds: seq<Direction>) {
    && |s.queue| == |ds|
    && (forall i :: 0 <= i < |ds| ==> s.queue[i] == Step(pos, ds[i]))
    && (forall c :: c in s.table <==> KeyOf(pos, ds, c))
    && (forall d :: d in ds ==> Transposed(Step(pos, d)) in s.table && s.table[Transposed(Step(pos, d))] == d)
  }

  /** Adding a direction adds exactly its transposed neighbour to the keys. */
  lemma KeyOfAppend(pos: Cell, ds: seq<Direction>, d: Direction, c: Cell)
    ensures KeyOf(pos, ds + [d], c) <==> KeyOf(pos, ds, c) || c == Transposed(Step(pos, d))
  {
    assert forall e :: e in ds + [d] <==> e in ds || e == d;
  }

  /** The accepting branch of the helper files `d` on top of the held directions. */
  lemma HelperAccepts(pos: Cell, d: Direction, s: Search, ds: seq<Direction>)
    requires Holds(s, pos, ds) && d !in ds
    ensures Holds(Search(s.table[Transposed(Step(pos, d)) := d], s.queue + [Step(pos, d)]), pos, ds + [d])
  {
    var n := Step(pos, d);
    var s' := Search(s.table[Transposed(n) := d], s.queue + [n]);
    var ds' := ds + [d];
    forall i | 0 <= i < |ds'|
      ensures s'.queue[i] == Step(pos, ds'[i])
    {
      if i < |ds| {
        assert s'.queue[i] == s.queue[i] && ds'[i] == ds[i];
      }
    }
    forall c
      ensures c in s'.table <==> KeyOf(pos, ds', c)
    {
      KeyOfAppend(pos, ds, d, c);
    }
    forall e | e in ds'
      ensures Transposed(Step(pos, e)) in s'.table && s'.table[Transposed(Step(pos, e))] == e
    {
      if e != d {
        assert e in ds;
        StepInjective(pos, e, d);
      }
    }
  }

  /** One call of the helper for direction `d` extends the held directions by
      `d` exactly when the neighbour is open, `d` is not the reversal, and the
      neighbour's own (untransposed) cell is not yet a key. */
  lemma HelperExtends(m: Maze, pos: Cell, opposite: Direction, d: Direction, s: Search, ds: seq<Direction>)
    requires WellFormed(m) && 0 <= Step(pos, d).row < MazeDimension
    requires Holds(s, pos, ds) && d !in ds
    ensures var ok := Open(m, Step(pos, d)) && opposite != d && !KeyOf(pos, ds, Step(pos, d));
            Holds(ValidNeighborHelper(m, Step(pos, d).row, Step(pos, d).col, opposite, d, s), pos,
                  if ok then ds + [d] else ds)
  {
    var n := Step(pos, d);
    if Open(m, n) && opposite != d && !KeyOf(pos, ds, n) {
      assert n !in s.table;
      HelperAccepts(pos, d, s, ds);
    } else {
      assert n in s.table || !Open(m, n) || opposite == d;
    }
  }

  /** The order in which checkValidNeighbors tries the directions. */
  function TryOrder(): seq<Direction> {
    [Down, Up, Right, Left]
  }

  /** The search state after the first `k` helper calls. */
  function Partial(m: Maze, g: GhostState, k: nat): Search
    requires WellFormed(m) && Placed(g) && k <= 4
  {
    if k == 0 then Search(map[], [])
    else
      var d := TryOrder()[k - 1];
      var n := Step(g.pos, d);
      ValidNeighborHelper(m, n.row, n.col, Opposite(g.cur), d, Partial(m, g, k - 1))
  }

  /** The accepted directions among the first `k` tried. */
  function AcceptedPrefix(m: Maze, g: GhostState, k: nat): seq<Direction>
    requires WellFormed(m) && k <= 4
  {
    if k == 0 then []
    else
      var d := TryOrder()[k - 1];
      AcceptedPrefix(m, g, k - 1) + if Accepted(m, g, d) then [d] else []
  }

  /** What the visited test sees when direction `d` is tried after `ds`: a
      key is hit only on the diagonal, by DOWN's entry for RIGHT and by UP's
      entry for LEFT. */
  lemma VisitedTest(pos: Cell, ds: seq<Direction>, d: Direction)
    requires d !in ds
    requires d == Down || d == Up ==> Right !in ds && Left !in ds
    ensures KeyOf(pos, ds, Step(pos, d)) <==>
              pos.row == pos.col && ((d == Right && Down in ds) || (d == Left && Up in ds))
  {
  }

  /** Which directions the accepted prefix holds after `k` tries. */
  lemma {:induction false} PrefixMembers(m: Maze, g: GhostState, k: nat)
    requires WellFormed(m) && k <= 4
    ensures forall i :: 0 <= i < 4 ==>
              (TryOrder()[i] in AcceptedPrefix(m, g, k) <==> i < k && Accepted(m, g, TryOrder()[i]))
  {
    if k > 0 {
      PrefixMembers(m, g, k - 1);
      var d := TryOrder()[k - 1];
      var ds := AcceptedPrefix(m, g, k - 1);
      assert AcceptedPrefix(m, g, k) == ds + if Accepted(m, g, d) then [d] else [];
      assert forall e :: e in AcceptedPrefix(m, g, k) <==> e in ds || (e == d && Accepted(m, g, d));
    }
  }

  /** The `k`-th try passes the helper's test exactly when its direction is accepted. */
  lemma TryAccepted(m: Maze, g: GhostState, k: nat)
    requires WellFormed(m) && 1 <= k <= 4
    ensures var d := TryOrder()[k - 1];
            var ds := AcceptedPrefix(m, g, k - 1);
            && d !in ds
            && (Open(m, Step(g.pos, d)) && Opposite(g.cur) != d && !KeyOf(g.pos, ds, Step(g.pos, d)) <==> Accepted(m, g, d))
  {
    PrefixMembers(m, g, k - 1);
    var d := TryOrder()[k - 1];
    var ds := AcceptedPrefix(m, g, k - 1);
    assert TryOrder()[0] == Down && TryOrder()[1] == Up && TryOrder()[2] == Right && TryOrder()[3] == Left;
    assert d !in ds;
    assert d == Down || d == Up ==> Right !in ds && Left !in ds;
    assert Down in ds <==> k > 1 && Admissible(m, g, Down);
    assert Up in ds <==> k > 2 && Admissible(m, g, Up);
    VisitedTest(g.pos, ds, d);
  }

  lemma {:induction false} PartialHolds(m: Maze, g: GhostState, k: nat)
    requires WellFormed(m) && Placed(g) && k <= 4
    ensures Holds(Partial(m, g, k), g.pos, AcceptedPrefix(m, g, k))
  {
    if k > 0 {
      PartialHolds(m, g, k - 1);
      TryAccepted(m, g, k);
      var d := TryOrder()[k - 1];
      var ds := AcceptedPrefix(m, g, k - 1);
      HelperExtends(m, g.pos, Opposite(g.cur), d, Partial(m, g, k - 1), ds);
      assert AcceptedPrefix(m, g, k) == if Accepted(m, g, d) then ds + [d] else ds;
    }
  }

  /** The filter, as written, enqueues exactly the accepted neighbours, in
      order, and files each one's direction under its transposed key, where
      the dequeue loop reads it back. */
  lemma CheckValidNeighborsMatches(m: Maze, g: GhostState)
    requires WellFormed(m) && Placed(g)
    ensures var s := CheckValidNeighbors(m, g);
            var ds := Candidates(m, g);
            && |s.queue| == |ds|
            && (forall i :: 0 <= i < |ds| ==> s.queue[i] == Step(g.pos, ds[i]))
            && (forall i :: 0 <= i < |ds| ==> Lookup(s.table, Transposed(s.queue[i])) == Some(ds[i]))
  {
    PartialHolds(m, g, 4);
    PrefixIsCandidates(m, g);
    PartialIsFilter(m, g);
    var s := CheckValidNeighbors(m, g);
    var ds := Candidates(m, g);
    forall i | 0 <= i < |ds|
      ensures Lookup(s.table, Transposed(s.queue[i])) == Some(ds[i])
    {
      assert ds[i] in ds;
    }
  }

  lemma PrefixIsCandidates(m: Maze, g: GhostState)
    requires WellFormed(m)
    ensures AcceptedPrefix(m, g, 4) == Candidates(m, g)
  {
    var a1: seq<Direction> := if Accepted(m, g, Down) then [Down] else [];
    var a2: seq<Direction> := if Accepted(m, g, Up) then [Up] else [];
    var a3: seq<Direction> := if Accepted(m, g, Right) then [Right] else [];
    var a4: seq<Direction> := if Accepted(m, g, Left) then [Left] else [];
    assert AcceptedPrefix(m, g, 1) == [] + a1 == a1;
    assert AcceptedPrefix(m, g, 2) == a1 + a2;
    assert AcceptedPrefix(m, g, 3) == a1 + a2 + a3;
    assert AcceptedPrefix(m, g, 4) == a1 + a2 + a3 + a4;
  }

  lemma PartialIsFilter(m: Maze, g: GhostState)
    requires WellFormed(m) && Placed(g)
    ensures Partial(m, g, 4) == CheckValidNeighbors(m, g)
  {
    StepDeltas(g.pos, Down);
    StepDeltas(g.pos, Up);
    StepDeltas(g.pos, Right);
    StepDeltas(g.pos, Left);
    var r, c, opposite := g.pos.row, g.pos.col, Opposite(g.cur);
    var s1 := ValidNeighborHelper(m, r + 1, c, opposite, Down, Search(map[], []));
    var s2 := ValidNeighborHelper(m, r - 1, c, opposite, Up, s1);
    var s3 := ValidNeighborHelper(m, r, c + 1, opposite, Right, s2);
    assert Partial(m, g, 1) == s1;
    assert Partial(m, g, 2) == s2;
    assert Partial(m, g, 3) == s3;
  }

  /** Off the diagonal the visited test never rejects anything: the accepted
      directions are exactly the open, non-reversing ones. */
  lemma OffDiagonalAcceptsAllAdmissible(m: Maze, g: GhostState, d: Direction)
    requires WellFormed(m) && g.pos.row != g.pos.col
    ensures d in Candidates(m, g) <==> Admissible(m, g, d)
  {
  }

  /** On the diagonal, an accepted DOWN hides RIGHT and an accepted UP hides
      LEFT, however open those neighbours are; DOWN and UP are never hidden. */
  lemma DiagonalShadowing(m: Maze, g: GhostState)
    requires WellFormed(m) && g.pos.row == g.pos.col
    ensures Down in Candidates(m, g) ==> Right !in Candidates(m, g)
    ensures Up in Candidates(m, g) ==> Left !in Candidates(m, g)
    ensures Down in Candidates(m, g) <==> Admissible(m, g, Down)
    ensures Up in Candidates(m, g) <==> Admissible(m, g, Up)
  {
  }

  // ---------------------------------------------------------------------
  // The nearest-candidate choice (ghostBFS / calculateMinDistance)
  // ---------------------------------------------------------------------

  /** Squared Euclidean distance between two cells. The source compares
      square roots with a strict `>`; the square root is monotone, so
      comparing squares picks the same winner. */
  function SqDist(a: Cell, b: Cell): nat {
    (b.col - a.col) * (b.col - a.col) + (b.row - a.row) * (b.row - a.row)
  }

  /** Why comparing squared distances is faithful: for the non-negative
      values Math.sqrt returns, the strict `>` between two square roots holds
      exactly when it holds between their squares. */
  lemma SquareKeepsStrictOrder(x: real, y: real)
    requires x >= 0.0 && y >= 0.0
    ensures x > y <==> x * x > y * y
  {
    if x > y {
      RealProductPositive(x - y, x + y);
      assert x * x - y * y == (x - y) * (x + y);
    } else {
      RealProductNonNegative(y - x, y + x);
      assert y * y - x * x == (y - x) * (y + x);
    }
  }

  lemma RealProductPositive(a: real, b: real)
    requires a > 0.0 && b > 0.0
    ensures a * b > 0.0
  {
  }

  lemma RealProductNonNegative(a: real, b: real)
    requires a >= 0.0 && b >= 0.0
    ensures a * b >= 0.0
  {
  }

  /** The position of the first smallest entry. */
  function FirstMin(ds: seq<nat>): (i: nat)
    requires |ds| > 0
    ensures i < |ds|
    ensures forall j :: 0 <= j < |ds| ==> ds[i] <= ds[j]
    ensures forall j :: 0 <= j < i ==> ds[j] > ds[i]
  {
    if |ds| == 1 then 0
    else
      var p := FirstMin(ds[..|ds| - 1]);
      if ds[|ds| - 1] < ds[p] then |ds| - 1 else p
  }

  /** Taking one more entry into account: the new entry wins only when it is
      strictly smaller than the best so far. */
  lemma FirstMinExtend(ds: seq<nat>, k: nat)
    requires k < |ds|
    ensures k == 0 ==> FirstMin(ds[..k + 1]) == 0
    ensures k > 0 ==> FirstMin(ds[..k + 1]) == if ds[k] < ds[FirstMin(ds[..k])] then k else FirstMin(ds[..k])
  {
    if k > 0 {
      assert ds[..k + 1][..k] == ds[..k];
    }
  }

  /** The first minimum is the only index that is no larger than every entry
      and strictly smaller than every entry before it. */
  lemma FirstMinUnique(ds: seq<nat>, i: nat)
    requires i < |ds|
    requires forall j :: 0 <= j < |ds| ==> ds[i] <= ds[j]
    requires forall j :: 0 <= j < i ==> ds[j] > ds[i]
    ensures FirstMin(ds) == i
  {
    var p := FirstMin(ds);
    assert ds[p] <= ds[i] && ds[i] <= ds[p];
  }

  /** Distance to the target from each candidate's neighbour. */
  function Distances(pos: Cell, ds: seq<Direction>, target: Cell): seq<nat> {
    seq(|ds|, i requires 0 <= i < |ds| => SqDist(Step(pos, ds[i]), target))
  }

  /** The step ghostBFS returns: the accepted direction whose neighbour lies
      nearest the target, the earliest one on a tie, or None when no direction
      is accepted. */
  function BestDirection(m: Maze, g: GhostState, target: Cell): (r: Option<Direction>)
    requires WellFormed(m)
    ensures r.None? <==> forall d :: !Accepted(m, g, d)
    ensures r.Some? ==> Accepted(m, g, r.value)
    ensures r.Some? ==> forall d :: Accepted(m, g, d) ==>
              SqDist(Step(g.pos, r.value), target) <= SqDist(Step(g.pos, d), target)
    ensures r.Some? ==> forall i :: 0 <= i < |Candidates(m, g)| && Candidates(m, g)[i] == r.value ==>
              forall j :: 0 <= j < i ==>
                SqDist(Step(g.pos, Candidates(m, g)[j]), target) > SqDist(Step(g.pos, r.value), target)
  {
    var ds := Candidates(m, g);
    if |ds| == 0 then None
    else
      NearestAmong(g.pos, ds, target);
      Some(ds[FirstMin(Distances(g.pos, ds, target))])
  }

  /** The first nearest entry of a direction list is in it, no farther than
      any entry, and strictly nearer than every entry before it. */
  lemma NearestAmong(pos: Cell, ds: seq<Direction>, target: Cell)
    requires |ds| > 0
    ensures var i := FirstMin(Distances(pos, ds, target));
            && ds[i] in ds
            && (forall d :: d in ds ==> SqDist(Step(pos, ds[i]), target) <= SqDist(Step(pos, d), target))
            && (forall j :: 0 <= j < i ==> SqDist(Step(pos, ds[j]), target) > SqDist(Step(pos, ds[i]), target))
  {
    var dist := Distances(pos, ds, target);
    var i := FirstMin(dist);
    assert dist[i] == SqDist(Step(pos, ds[i]), target);
    forall d | d in ds
      ensures SqDist(Step(pos, ds[i]), target) <= SqDist(Step(pos, d), target)
    {
      var j :| 0 <= j < |ds| && ds[j] == d;
      assert dist[i] <= dist[j] && dist[j] == SqDist(Step(pos, d), target);
    }
    forall j | 0 <= j < i
      ensures SqDist(Step(pos, ds[j]), target) > SqDist(Step(pos, ds[i]), target)
    {
      assert dist[j] > dist[i] && dist[j] == SqDist(Step(pos, ds[j]), target);
    }
  }

  /** Distance as ghostBFS keeps it: positive infinity until the first
      candidate is seen. */
  datatype Distance = Infinite | Finite(value: nat)

  predicate Exceeds(a: Distance, b: nat) {
    a.Infinite? || a.value > b
  }

  /** ghostBFS as the source writes it: run the neighbour filter, then drain
      the queue (nothing is ever enqueued past the root's neighbours), keeping
      the direction read back from the array for the nearest coordinate. */
  method GhostBfs(m: Maze, g: GhostState, target: Cell) returns (direction: Option<Direction>)
    requires WellFormed(m) && Placed(g)
    ensures direction == BestDirection(m, g, target)
  {
    var s := CheckValidNeighbors(m, g);
    CheckValidNeighborsMatches(m, g);
    direction := DrainQueue(s, target, g.pos, Candidates(m, g));
  }

  /** The loop of ghostBFS over a queue holding the neighbours of `pos` in the
      directions `ds`, each filed under its transposed key: the result is the
      direction of the first nearest neighbour. */
  method DrainQueue(s: Search, target: Cell, ghost pos: Cell, ghost ds: seq<Direction>)
    returns (direction: Option<Direction>)
    requires |s.queue| == |ds|
    requires forall i :: 0 <= i < |ds| ==> s.queue[i] == Step(pos, ds[i])
    requires forall i :: 0 <= i < |ds| ==> Lookup(s.table, Transposed(s.queue[i])) == Some(ds[i])
    ensures |ds| == 0 ==> direction == None
    ensures |ds| > 0 ==> direction == Some(ds[FirstMin(Distances(pos, ds, target))])
  {
    var actualDistance := Infinite;
    direction := None;
    var ghostQueue := s.queue;
    ghost var dist := Distances(pos, ds, target);
    ghost var best := 0;
    var k := 0;
    while |ghostQueue| > 0
      invariant 0 <= k <= |s.queue| && ghostQueue == s.queue[k..]
      invariant k == 0 ==> actualDistance == Infinite && direction == None
      invariant k > 0 ==> best < k && actualDistance == Finite(dist[best]) && direction == Some(ds[best])
      invariant k > 0 ==> forall j :: 0 <= j < k ==> dist[best] <= dist[j]
      invariant k > 0 ==> forall j :: 0 <= j < best ==> dist[j] > dist[best]
      decreases |ghostQueue|
    {
      var ghostRoot := ghostQueue[0];
      ghostQueue := ghostQueue[1..];
      var currentDirection := Lookup(s.table, Transposed(ghostRoot));
      var minDistance := SqDist(ghostRoot, target);
      assert ghostRoot == s.queue[k];
      assert currentDirection == Some(ds[k]) && minDistance == dist[k];
      if Exceeds(actualDistance, minDistance) {
        actualDistance := Finite(minDistance);
        direction := currentDirection;
        best := k;
      }
      k := k + 1;
    }
    if k > 0 {
      FirstMinUnique(dist, best);
    }
  }

  // ---------------------------------------------------------------------
  // Moving (ghostMove / checkMoveValidity)
  // ---------------------------------------------------------------------

  /** A move's outcome: the maze with updated occupant lists, and the ghost after it. */
  datatype Moved = Moved(maze: Maze, agent: GhostState)

  /** checkMoveValidity: take the ghost out of its current square's list, move
      it if the destination is not a wall, and add it to the destination's
      list whether or not it moved there. */
  function CheckMoveValidity(m: Maze, g: GhostState, id: GhostId, newRow: int, newCol: int): (r: Moved)
    requires WellFormed(m) && InGrid(g.pos) && InGrid(Cell(newRow, newCol))
    ensures WellFormed(r.maze) && r.maze.walls == m.walls
    ensures r.agent.cur == g.cur
    ensures Open(m, Cell(newRow, newCol)) ==> r.agent.pos == Cell(newRow, newCol)
    ensures !Open(m, Cell(newRow, newCol)) ==> r.agent.pos == g.pos
    ensures Cell(newRow, newCol) != g.pos ==>
              && Occupants(r.maze, g.pos.row, g.pos.col) == RemoveFirst(Occupants(m, g.pos.row, g.pos.col), Ghost(id))
              && Occupants(r.maze, newRow, newCol) == Occupants(m, newRow, newCol) + [Ghost(id)]
    ensures Cell(newRow, newCol) == g.pos ==>
              Occupants(r.maze, newRow, newCol) == RemoveFirst(Occupants(m, newRow, newCol), Ghost(id)) + [Ghost(id)]
    ensures forall i, j ::
              0 <= i < MazeDimension && 0 <= j < MazeDimension && Cell(i, j) != g.pos && Cell(i, j) != Cell(newRow, newCol)
              ==> Occupants(r.maze, i, j) == Occupants(m, i, j)
  {
    var cur := GhostCell(g);
    var m1 := SetOccupants(m, cur.row, cur.col, RemoveFirst(Occupants(m, cur.row, cur.col), Ghost(id)));
    var pos := if !IsThereWall(m1, newRow, newCol) then Cell(newRow, newCol) else g.pos;
    var m2 := SetOccupants(m1, newRow, newCol, Occupants(m1, newRow, newCol) + [Ghost(id)]);
    Moved(m2, g.(pos := pos))
  }

  /** Where a ghost heads when no direction is accepted: the tunnel row, at
      the far right end when it stands in column 0 and the far left end
      otherwise. */
  function FallbackCell(g: GhostState): (c: Cell)
    ensures InGrid(c) && c.row == TunnelRow && c != g.pos
    ensures c.col == (if g.pos.col == 0 then LastIndex else 0)
  {
    var newCol := if CornerX(g.pos) == 0 then MazeDimension - 1 else 0;
    Cell(MazeDimension / 2, newCol)
  }

  /** ghostMove: take the step ghostBFS picks, or, when it finds none, try to
      jump to the fallback cell without changing direction. */
  function GhostMove(m: Maze, g: GhostState, id: GhostId, target: Cell): (r: Moved)
    requires WellFormed(m) && Placed(g)
    ensures WellFormed(r.maze) && r.maze.walls == m.walls
    ensures Placed(r.agent)
    ensures Open(m, g.pos) ==> Open(m, r.agent.pos)
    ensures BestDirection(m, g, target).Some? ==>
              var d := BestDirection(m, g, target).value;
              && r.agent == GhostState(Step(g.pos, d), d)
              && d != Opposite(g.cur) && Open(m, r.agent.pos)
    ensures BestDirection(m, g, target).None? ==>
              && r.agent.cur == g.cur
              && r.agent.pos == (if Open(m, FallbackCell(g)) then FallbackCell(g) else g.pos)
    ensures var dest := if BestDirection(m, g, target).Some? then r.agent.pos else FallbackCell(g);
            && Occupants(r.maze, dest.row, dest.col) == Occupants(m, dest.row, dest.col) + [Ghost(id)]
            && Occupants(r.maze, g.pos.row, g.pos.col) == RemoveFirst(Occupants(m, g.pos.row, g.pos.col), Ghost(id))
  {
    match BestDirection(m, g, target)
    case None =>
      var c := FallbackCell(g);
      CheckMoveValidity(m, g, id, c.row, c.col)
    case Some(d) =>
      var here := GhostCell(g);
      var newRow := NewRow(d, here.row);
      var newCol := NewCol(d, here.col);
      OpenIsInner(m, Cell(newRow, newCol));
      StepIsUnit(g.pos, d);
      CheckMoveValidity(m, g.(cur := d), id, newRow, newCol)
  }

  /** A ghost on an open cell stays on open cells: its step is to an accepted
      neighbour (one cell away, never a reversal), or through the fallback. */
  lemma GhostMoveIsLocal(m: Maze, g: GhostState, id: GhostId, target: Cell)
    requires WellFormed(m) && Placed(g)
    ensures var r := GhostMove(m, g, id, target);
            || (Manhattan(g.pos, r.agent.pos) == 1 && r.agent.cur != Opposite(g.cur))
            || (r.agent.cur == g.cur && (r.agent.pos == g.pos || r.agent.pos == FallbackCell(g)))
  {
    var b := BestDirection(m, g, target);
    if b.Some? {
      StepIsUnit(g.pos, b.value);
    }
  }

  // ---------------------------------------------------------------------
  // Targets (chaseMove / scatterMove)
  // ---------------------------------------------------------------------

  /** The cell each ghost chases, given Pac-Man's cell. */
  function ChaseTarget(id: GhostId, pac: Cell): Cell {
    match id
    case Inky => Cell(pac.row, pac.col + InkyChaseOffset)
    case Clyde => Cell(pac.row - ClydeChaseOffset, pac.col)
    case Pinky => Cell(pac.row + PinkyChaseOffsetY, pac.col - PinkyChaseOffsetX)
    case Blinky => Cell(pac.row, pac.col)
  }

  /** The corner each ghost heads for in scatter mode. */
  function ScatterCorner(id: GhostId): Cell {
    match id
    case Inky => InkyScatterCoord
    case Clyde => ClydeScatterCoord
    case Pinky => PinkyScatterCoord
    case Blinky => BlinkyScatterCoord
  }

  /** Only blinky chases Pac-Man's own cell; every other ghost aims a fixed
      offset away, within four cells. By list index: inky two columns right,
      clyde four rows up, pinky one row down and three columns left. */
  lemma ChaseOffsets(id: GhostId, pac: Cell)
    ensures ChaseTarget(GhostAt(0), pac) == Cell(pac.row, pac.col + 2)
    ensures ChaseTarget(GhostAt(1), pac) == Cell(pac.row - 4, pac.col)
    ensures ChaseTarget(GhostAt(2), pac) == Cell(pac.row + 1, pac.col - 3)
    ensures ChaseTarget(GhostAt(3), pac) == pac
    ensures ChaseTarget(id, pac) == pac <==> id == Blinky
    ensures Manhattan(ChaseTarget(id, pac), pac) == (match id
      case Inky => 2 case Clyde => 4 case Pinky => 4 case Blinky => 0)
  {
  }

  /** The four scatter corners are distinct inner cells, so no two ghosts
      share one, and each is one cell in from a corner of the grid. */
  lemma ScatterCornersDistinct(a: GhostId, b: GhostId)
    ensures ScatterCorner(GhostAt(0)) == Cell(21, 21) && ScatterCorner(GhostAt(1)) == Cell(21, 1)
    ensures ScatterCorner(GhostAt(2)) == Cell(1, 1) && ScatterCorner(GhostAt(3)) == Cell(1, 21)
    ensures ScatterCorner(a) == ScatterCorner(b) <==> a == b
    ensures InGrid(ScatterCorner(a))
    ensures ScatterCorner(a).row in {1, LastIndex - 1} && ScatterCorner(a).col in {1, LastIndex - 1}
  {
  }

  /** scatterMove(i, ghost): ghostMove towards the i-th ghost's corner. */
  function ScatterMove(m: Maze, g: GhostState, i: nat): (r: Moved)
    requires WellFormed(m) && Placed(g) && i < 4
    ensures WellFormed(r.maze) && r.maze.walls == m.walls
    ensures StepsToward(m, g, r.agent, ScatterCorner(GhostAt(i)))
  {
    GhostMoveStepsToward(m, g, GhostAt(i), ScatterCorner(GhostAt(i)));
    GhostMove(m, g, GhostAt(i), ScatterCorner(GhostAt(i)))
  }

  /** chaseMove(i, ghost, rowPacman, colPacman): ghostMove towards the i-th
      ghost's chase target. */
  function ChaseMove(m: Maze, g: GhostState, i: nat, pac: Cell): (r: Moved)
    requires WellFormed(m) && Placed(g) && i < 4
    ensures WellFormed(r.maze) && r.maze.walls == m.walls
    ensures StepsToward(m, g, r.agent, ChaseTarget(GhostAt(i), pac))
  {
    GhostMoveStepsToward(m, g, GhostAt(i), ChaseTarget(GhostAt(i), pac));
    GhostMove(m, g, GhostAt(i), ChaseTarget(GhostAt(i), pac))
  }

  /** What a ghost's move towards `target` achieves, stated without the
      search: when some direction is accepted, the ghost takes an accepted
      direction and lands no farther from the target than any accepted step
      would; when none is, it keeps its direction and jumps to the fallback
      cell if that is open, and otherwise stays. */
  predicate StepsToward(m: Maze, g: GhostState, a: GhostState, target: Cell)
    requires WellFormed(m)
  {
    && ((exists d :: Accepted(m, g, d)) ==>
          && Accepted(m, g, a.cur) && a.pos == Step(g.pos, a.cur)
          && forall d :: Accepted(m, g, d) ==> SqDist(a.pos, target) <= SqDist(Step(g.pos, d), target))
    && ((forall d :: !Accepted(m, g, d)) ==>
          a.cur == g.cur && a.pos == (if Open(m, FallbackCell(g)) then FallbackCell(g) else g.pos))
  }

  /** ghostMove steps as its target demands. */
  lemma GhostMoveStepsToward(m: Maze, g: GhostState, id: GhostId, target: Cell)
    requires WellFormed(m) && Placed(g)
    ensures StepsToward(m, g, GhostMove(m, g, id, target).agent, target)
  {
    var b := BestDirection(m, g, target);
    if b.Some? {
      assert Accepted(m, g, b.value);
    }
  }
}
