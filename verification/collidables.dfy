/** The things that can sit in a maze square's occupant list (Collidable.java,
    Dot.java, Energizer.java, and the Collidable side of Ghost.java), and the
    list removal the source uses on those lists. */
module Collidables {
  import opened Constants

  /** The four ghosts, in the order of the maze's ghost list. */
  datatype GhostId = Inky | Clyde | Pinky | Blinky

  /** Position of a ghost in the ghost list (0 inky, 1 clyde, 2 pinky, 3 blinky). */
  function GhostIndex(id: GhostId): (i: nat)
    ensures i < 4
  {
    match id
    case Inky => 0
    case Clyde => 1
    case Pinky => 2
    case Blinky => 3
  }

  function GhostAt(i: nat): GhostId
    requires i < 4
  {
    if i == 0 then Inky else if i == 1 then Clyde else if i == 2 then Pinky else Blinky
  }

  lemma GhostIndexRoundTrip(id: GhostId, i: nat)
    requires i < 4
    ensures GhostAt(GhostIndex(id)) == id
    ensures GhostIndex(GhostAt(i)) == i
  {
  }

  /** An occupant of a square: a dot, an energizer, or a ghost. */
  datatype Collidable = Dot | Energizer | Ghost(id: GhostId)

  /** getSize(): the radius of a dot or energizer, the square size for a ghost. */
  function Size(c: Collidable): int {
    match c
    case Dot => DotRadius
    case Energizer => EnergizerRadius
    case Ghost(_) => SquareSize
  }

  /** getIncrement(): the score awarded for colliding with the occupant. */
  function Increment(c: Collidable): int {
    match c
    case Dot => DotScore
    case Energizer => EnergizerScore
    case Ghost(_) => GhostScore
  }

  /** The game tells occupants apart by size alone; because the three size tags
      are distinct, the size tests pick out exactly the intended kinds. */
  lemma SizeDispatch(c: Collidable)
    ensures Size(c) == EnergizerRadius <==> c == Energizer
    ensures Size(c) != SquareSize <==> !c.Ghost?
    ensures Increment(c) == (if c == Dot then 10 else if c == Energizer then 100 else 200)
  {
  }

  /** `ArrayList.remove(Object)`: drop the first element equal to `x`, if any. */
  function RemoveFirst<T(==)>(s: seq<T>, x: T): (r: seq<T>)
    ensures x in s ==> |r| == |s| - 1
    ensures x !in s ==> r == s
    ensures forall y :: y in r ==> y in s
  {
    if |s| == 0 then []
    else if s[0] == x then
      assert s == [s[0]] + s[1..];
      s[1..]
    else
      assert s == [s[0]] + s[1..];
      [s[0]] + RemoveFirst(s[1..], x)
  }

  /** When `x` does not occur before position |p|, the first occurrence is the
      one right after `p`, and removing it splices the two sides together. */
  lemma {:induction false} RemoveFirstAt<T>(p: seq<T>, x: T, rest: seq<T>)
    requires x !in p
    ensures RemoveFirst(p + [x] + rest, x) == p + rest
  {
    var s := p + [x] + rest;
    if |p| == 0 {
      assert s == [x] + rest;
      assert s[0] == x && s[1..] == rest;
    } else {
      assert s[0] == p[0] && p[0] != x;
      assert s[1..] == p[1..] + [x] + rest;
      RemoveFirstAt(p[1..], x, rest);
      assert RemoveFirst(s, x) == [p[0]] + (p[1..] + rest);
      assert p == [p[0]] + p[1..];
    }
  }

  /** The elements of `s` at even positions, in order. */
  function Evens<T>(s: seq<T>): seq<T>
  {
    if |s| == 0 then [] else if |s| == 1 then [s[0]] else [s[0]] + Evens(s[2..])
  }

  /** The elements of `s` at odd positions, in order. */
  function Odds<T>(s: seq<T>): seq<T>
  {
    if |s| <= 1 then [] else [s[1]] + Odds(s[2..])
  }

  predicate NoDuplicates<T(==)>(s: seq<T>) {
    forall i, j :: 0 <= i < j < |s| ==> s[i] != s[j]
  }
}
