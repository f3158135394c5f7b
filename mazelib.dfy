/** Local equivalents of the maze library types used by both the server
    (Daedalus) and the explorer (Icarus): coordinates, wall surveys, rooms,
    the four directions and the error values the maze operations return. */
module Mazelib {

  /** A grid coordinate; the explorer's coordinates may be negative. */
  datatype Coordinate = Coordinate(x: int, y: int)

  /** Which of a room's four sides carry a wall (true = wall). */
  datatype Survey = Survey(top: bool, right: bool, bottom: bool, left: bool)

  const NoWalls := Survey(false, false, false, false)
  const AllWalls := Survey(true, true, true, true)

  datatype Room = Room(walls: Survey, visited: bool, start: bool, treasure: bool)

  /** The zero value of a room: no walls, no flags. */
  const EmptyRoom := Room(NoWalls, false, false, false)

  /** Directions as the explorer numbers them: 0 = up, 1 = right, 2 = down, 3 = left. */
  type Direction = n: int | 0 <= n < 4

  datatype MazeError =
    | OutOfBounds      // "room outside of maze boundaries"
    | StartInTreasure  // "can't start in the treasure"
    | TreasureAtStart  // "can't have the treasure at the start"
    | Blocked          // "Can't walk through walls"
    | Victory          // the treasure has been reached

  /** The (value, error) pair a Go function returns. */
  datatype Result<T> = Success(value: T) | Failure(error: MazeError)

  /** The error a Go function returns alone: nil or an error. */
  datatype Outcome = Pass | Fail(error: MazeError)

  /** The wall on side `d` of survey `s`. */
  function Wall(s: Survey, d: Direction): bool {
    if d == 0 then s.top
    else if d == 1 then s.right
    else if d == 2 then s.bottom
    else s.left
  }

  /** `s` with the wall on side `d` set to `b`, the other sides unchanged. */
  function SetWall(s: Survey, d: Direction, b: bool): (r: Survey)
    ensures Wall(r, d) == b
    ensures forall e: Direction :: e != d ==> Wall(r, e) == Wall(s, e)
  {
    if d == 0 then s.(top := b)
    else if d == 1 then s.(right := b)
    else if d == 2 then s.(bottom := b)
    else s.(left := b)
  }

  /** The direction pointing back: up/down and left/right swap. */
  function Opposite(d: Direction): (r: Direction)
    ensures r != d && (r + 2) % 4 == d
  {
    (d + 2) % 4
  }

  /** The cell one step from `c` in direction `d` (y grows downwards). */
  function Neighbour(c: Coordinate, d: Direction): (n: Coordinate)
    ensures Adjacent(c, n)
    ensures n != c
  {
    if d == 0 then Coordinate(c.x, c.y - 1)
    else if d == 1 then Coordinate(c.x + 1, c.y)
    else if d == 2 then Coordinate(c.x, c.y + 1)
    else Coordinate(c.x - 1, c.y)
  }

  /** Stepping back the opposite way returns to the start. */
  lemma NeighbourBack(c: Coordinate, d: Direction)
    ensures Neighbour(Neighbour(c, d), Opposite(d)) == c
  {
  }

  /** `c` names a room of a grid `w` rooms wide and `h` rooms high. */
  predicate Inside(w: int, h: int, c: Coordinate) {
    0 <= c.x < w && 0 <= c.y < h
  }

  function Abs(n: int): nat { if n < 0 then -n else n }

  /** Two cells that share an edge. */
  predicate Adjacent(a: Coordinate, b: Coordinate) {
    Abs(a.x - b.x) + Abs(a.y - b.y) == 1
  }

  /** The direction of an adjacent cell, as the explorers compute it by
      comparing coordinates: up if above, right if to the right, down if
      below, and left otherwise. */
  function DirectionTowards(from: Coordinate, to: Coordinate): (d: Direction)
    ensures Adjacent(from, to) ==> Neighbour(from, d) == to
  {
    if to.y < from.y then 0
    else if to.x > from.x then 1
    else if to.y > from.y then 2
    else 3
  }

  /** Comparing coordinates recovers the direction of a step. */
  lemma TowardsNeighbour(c: Coordinate, d: Direction)
    ensures DirectionTowards(c, Neighbour(c, d)) == d
  {
  }
}
