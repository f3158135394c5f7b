/** What the two explorers share: the moves they ask the server for, the
    order in which they try directions, and the ways a run can end. */
module Icarus {
  import opened Mazelib
  import opened Daedalus

  /** How the explorer picks the first direction it tries in a step: a
      random one, always up (the "mostly right" turns), or the direction of
      its previous forward move. */
  datatype Strategy = RandomTurn | MostlyRight | SameDirection

  /** How a run ends: Icarus reached the treasure, the breadcrumbs ran out
      ("No path to the treasure", exit code 3), the steps ran out, or the
      program panicked on an index out of range. */
  datatype Ending = Solved | NoPath | OutOfSteps | Panicked

  /** What one step of an explorer leads to: another step, or the end of
      the run. */
  datatype Next = Continue | Halt(ending: Ending)

  /** `awake`: the survey of the room Icarus wakes up in. */
  function Awake(m: Maze): (s: Survey)
    reads m, m.rooms
    requires m.Valid()
    ensures InGrid(m.rooms, m.icarus) ==> s == m.rooms[m.icarus.y, m.icarus.x].walls
  {
    m.Discover(m.icarus.x, m.icarus.y).value
  }

  /** `moveTo(n)` answered by the server: the move of the maze in
      direction `n` (0 = up, 1 = right, 2 = down, 3 = left), then a look
      around. A refused move comes back as an error that is not Victory and
      an empty survey; a move onto the treasure as Victory with an empty
      survey; any other move with the walls of the new room. */
  method MoveTo(m: Maze, n: Direction) returns (walls: Survey, victory: bool)
    requires m.Valid()
    modifies m`icarus, m`stepsTaken
    ensures m.icarus == old(m.icarus) || m.icarus == Neighbour(old(m.icarus), n)
    ensures m.icarus == old(m.icarus) <==>
              old(m.icarus) == m.end || Wall(m.Discover(old(m.icarus).x, old(m.icarus).y).value, n)
              || !InGrid(m.rooms, Neighbour(old(m.icarus), n))
    ensures m.stepsTaken == old(m.stepsTaken) + if m.icarus == old(m.icarus) then 0 else 1
    ensures victory <==> m.icarus != old(m.icarus) && m.icarus == m.end
    ensures m.icarus == old(m.icarus) || victory ==> walls == NoWalls
    ensures m.icarus != old(m.icarus) && !victory ==> walls == m.rooms[m.icarus.y, m.icarus.x].walls
  {
    var r := m.Move(n);
    if r.Fail? {
      return NoWalls, false;
    }
    var s := m.LookAround();
    if s.Failure? {
      return NoWalls, true;
    }
    return s.value, false;
  }

  /** Entry `z` of the explorer's map exists and is marked visited. */
  predicate Marked(visited: seq<bool>, z: int) {
    0 <= z < |visited| && visited[z]
  }

  /** The `w`-th direction tried in a step that starts from direction `nr`. */
  function Tried(nr: int, w: int): Direction {
    (nr + w) % 4
  }

  /** The turn after which direction `d` is tried. */
  function Turn(nr: int, d: Direction): int {
    (d - nr) % 4
  }

  /** Starting from direction `nr`, the explorers try `(nr + w) % 4` for
      `w` = 0, 1, 2, 3: every direction exactly once. */
  lemma ScanOrder(nr: int)
    ensures forall w, w' :: 0 <= w < w' < 4 ==> Tried(nr, w) != Tried(nr, w')
    ensures forall d: Direction :: 0 <= Turn(nr, d) < 4 && Tried(nr, Turn(nr, d)) == d
  {
  }
}
