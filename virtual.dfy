/** The explorer's own picture of the labyrinth: flat arrays indexed by
    `coordsToInt`, grown 200 entries at a time as new cells are numbered. */
module Virtual {
  import opened Mazelib
  import opened Pairing

  /** `VirtualMaze`: what the explorer recorded about one cell. */
  datatype VirtualCell = VirtualCell(coords: Coordinate, walls: Survey, visited: bool)

  /** The zero value of `VirtualMaze`, held by every entry not yet written. */
  const Unknown := VirtualCell(Coordinate(0, 0), NoWalls, false)

  /** The map holds an entry for cell `c`. */
  predicate Known(maze: seq<VirtualCell>, c: Coordinate) {
    Key(c.x, c.y) < |maze|
  }

  /** The explorer has recorded cell `c` as visited. */
  predicate Visited(maze: seq<VirtualCell>, c: Coordinate) {
    Known(maze, c) && maze[Key(c.x, c.y)].visited
  }

  /** `maze'` is `maze` grown by `extendVirtual`: the same entries, then
      entries not yet written. */
  ghost predicate Grown(maze: seq<VirtualCell>, maze': seq<VirtualCell>) {
    && |maze| <= |maze'|
    && (forall k :: 0 <= k < |maze| ==> maze'[k] == maze[k])
    && (forall k :: |maze| <= k < |maze'| ==> maze'[k] == Unknown)
  }

  /** Growing the map changes no recorded cell: the cells known before
      keep their entries and exactly the same cells are visited. */
  lemma GrownKeeps(maze: seq<VirtualCell>, maze': seq<VirtualCell>)
    requires Grown(maze, maze')
    ensures forall c :: Known(maze, c) ==> Known(maze', c) && maze'[Key(c.x, c.y)] == maze[Key(c.x, c.y)]
    ensures forall c :: Visited(maze', c) <==> Visited(maze, c)
  {
  }

  /** Growing twice is growing once. */
  lemma GrownTwice(maze: seq<VirtualCell>, maze': seq<VirtualCell>, maze'': seq<VirtualCell>)
    requires Grown(maze, maze') && Grown(maze', maze'')
    ensures Grown(maze, maze'')
  {
  }

  /** `extendVisited`: a new array of `size + 200` entries, the old entries
      copied to its front (as many as fit) and the rest false. The program
      panics on a negative length. */
  function ExtendVisited(labyrinth: seq<bool>, size: int): (r: (seq<bool>, int))
    requires size + 200 >= 0
    ensures r.1 == size + 200 && |r.0| == r.1
    ensures forall i :: 0 <= i < |labyrinth| && i < r.1 ==> r.0[i] == labyrinth[i]
    ensures forall i :: |labyrinth| <= i < r.1 ==> !r.0[i]
  {
    var newSize := size + 200;
    var kept := if |labyrinth| <= newSize then labyrinth else labyrinth[..newSize];
    (kept + seq(newSize - |kept|, _ => false), newSize)
  }

  /** `extendVirtual`: the same growth for the array of recorded cells, the
      new entries `Unknown`. */
  function ExtendVirtual(labyrinth: seq<VirtualCell>, size: int): (r: (seq<VirtualCell>, int))
    requires size + 200 >= 0
    ensures r.1 == size + 200 && |r.0| == r.1
    ensures forall i :: 0 <= i < |labyrinth| && i < r.1 ==> r.0[i] == labyrinth[i]
    ensures forall i :: |labyrinth| <= i < r.1 ==> r.0[i] == Unknown
  {
    var newSize := size + 200;
    var kept := if |labyrinth| <= newSize then labyrinth else labyrinth[..newSize];
    (kept + seq(newSize - |kept|, _ => Unknown), newSize)
  }
}
