/** `backtrackerClassicIcarus`: a depth-first walk that marks every cell it
    enters in a flat map indexed by `coordsToInt` and keeps the cells of
    its current walk on a breadcrumb stack. At a dead end it steps back to
    the previous breadcrumb. */
module ClassicIcarus {
  import opened Mazelib
  import opened Daedalus
  import opened Oracle
  import opened Pairing
  import opened Virtual
  import opened Icarus

  /** The explorer's variables between two steps: the visited map (whose
      length is the program's `mapSize`), the breadcrumbs `path` with the
      index `pathIndex` of the top one, the position (x, y) it believes it
      is at, relative to where it woke up, the direction of its previous
      forward move and the walls it sees. */
  datatype Classic = Classic(visited: seq<bool>, path: seq<Coordinate>, pathIndex: int,
                             x: int, y: int, previous: int, walls: Survey)

  /** Direction `d` from cell `c` is closed to a forward move: the survey
      shows a wall there, or the cell behind it is marked visited. */
  predicate Blocked(walls: Survey, visited: seq<bool>, c: Coordinate, d: Direction) {
    Wall(walls, d) || Marked(visited, Key(Neighbour(c, d).x, Neighbour(c, d).y))
  }

  /** The breadcrumbs are well formed: the top one is the explorer's cell
      and every one of them is marked visited. */
  ghost predicate Crumbs(st: Classic) {
    && 0 <= st.pathIndex < |st.path|
    && st.path[st.pathIndex] == Coordinate(st.x, st.y)
    && (forall k :: 0 <= k <= st.pathIndex ==> Marked(st.visited, Key(st.path[k].x, st.path[k].y)))
  }

  /** The growth loop `for ; z >= mapSize; { extendVisited }`: the map is
      grown 200 entries at a time until it has an entry `z`; no mark is
      added or lost. */
  method Grow(visited: seq<bool>, z: int) returns (visited': seq<bool>)
    ensures z < |visited'| && |visited| <= |visited'|
    ensures forall k :: Marked(visited', k) <==> Marked(visited, k)
  {
    visited' := visited;
    while z >= |visited'|
      invariant |visited| <= |visited'|
      invariant forall k :: Marked(visited', k) <==> Marked(visited, k)
      decreases z - |visited'|
    {
      visited' := ExtendVisited(visited', |visited'|).0;
    }
  }

  /** The direction loop of a step: directions `Tried(nr, w)` for
      `w` = 0, 1, 2, 3 until one is open and leads to a cell not marked.
      The result `w` is the first such turn, or 4 when every direction is
      blocked. */
  method FreeSide(walls: Survey, visited: seq<bool>, c: Coordinate, nr: int) returns (w: int, visited': seq<bool>)
    ensures 0 <= w <= 4 && |visited| <= |visited'|
    ensures forall k :: Marked(visited', k) <==> Marked(visited, k)
    ensures forall w' :: 0 <= w' < w ==> Blocked(walls, visited, c, Tried(nr, w'))
    ensures w < 4 ==> !Blocked(walls, visited, c, Tried(nr, w))
    ensures w < 4 ==> Key(Neighbour(c, Tried(nr, w)).x, Neighbour(c, Tried(nr, w)).y) < |visited'|
  {
    visited' := visited;
    w := 0;
    while w < 4
      invariant 0 <= w <= 4 && |visited| <= |visited'|
      invariant forall k :: Marked(visited', k) <==> Marked(visited, k)
      invariant forall w' :: 0 <= w' < w ==> Blocked(walls, visited, c, Tried(nr, w'))
    {
      var n := Tried(nr, w);
      if !Wall(walls, n) {
        var next := Neighbour(c, n);
        var z := CoordsToInt(next.x, next.y);
        visited' := Grow(visited', z);
        if !visited'[z] {
          return;
        }
      }
      w := w + 1;
    }
  }

  /** One turn of the step loop. `nr` is the first direction tried: a
      random one, up, or the previous direction, by the strategy. A forward
      move marks the new cell before moving and pushes it onto the
      breadcrumbs; at a dead end one breadcrumb is popped and Icarus moves
      towards it, in the direction found by comparing coordinates. */
  method Step(m: Maze, rng: Random, strategy: Strategy, st: Classic) returns (st': Classic, next: Next)
    requires m.Valid() && Crumbs(st) && 0 <= st.previous
    modifies m`icarus, m`stepsTaken, rng
    ensures m.stepsTaken <= old(m.stepsTaken) + 1
    ensures next == Halt(Solved) ==> m.icarus == m.end
    ensures next == Continue || next == Halt(Solved) || next == Halt(NoPath) || next == Halt(Panicked)
    ensures forall k :: Marked(st.visited, k) ==> Marked(st'.visited, k)
    ensures next == Continue ==> Crumbs(st') && 0 <= st'.previous && |st'.path| == |st.path|
    ensures next == Continue ==> st'.pathIndex == st.pathIndex + 1 || st'.pathIndex == st.pathIndex - 1
    ensures next == Continue && st'.pathIndex == st.pathIndex + 1 ==>
              && 0 <= st'.previous < 4
              && st'.path[..st'.pathIndex] == st.path[..st'.pathIndex]
              && Coordinate(st'.x, st'.y) == Neighbour(Coordinate(st.x, st.y), st'.previous)
              && !Blocked(st.walls, st.visited, Coordinate(st.x, st.y), st'.previous)
    ensures next == Continue && st'.pathIndex == st.pathIndex - 1 ==>
              && st'.path == st.path
              && (forall k :: Marked(st'.visited, k) <==> Marked(st.visited, k))
              && (forall d: Direction :: Blocked(st.walls, st.visited, Coordinate(st.x, st.y), d))
    ensures next == Halt(NoPath) ==>
              st.pathIndex == 0 && forall d: Direction :: Blocked(st.walls, st.visited, Coordinate(st.x, st.y), d)
    ensures next == Halt(Panicked) ==> st.pathIndex + 1 == |st.path|
  {
    var nr := st.previous;
    if strategy == RandomTurn {
      nr := rng.Intn(4);
    } else if strategy == MostlyRight {
      nr := 0;
    }
    var c := Coordinate(st.x, st.y);
    var w, visited := FreeSide(st.walls, st.visited, c, nr);
    if w < 4 {
      var n := Tried(nr, w);
      var cell := Neighbour(c, n);
      var z := CoordsToInt(cell.x, cell.y);
      visited := visited[z := true];
      var walls, victory := MoveTo(m, n);
      st' := st.(visited := visited, walls := walls);
      if victory {
        return st', Halt(Solved);
      }
      var pathIndex := st.pathIndex + 1;
      if pathIndex >= |st.path| {
        return st', Halt(Panicked);
      }
      st' := Classic(visited, st.path[pathIndex := cell], pathIndex, cell.x, cell.y, n, walls);
      next := Continue;
      assert st'.path[..pathIndex] == st.path[..pathIndex];
    } else {
      // every direction is one of the four turns, and all four were blocked
      ScanOrder(nr);
      forall d: Direction
        ensures Blocked(st.walls, st.visited, c, d)
      {
        assert Tried(nr, Turn(nr, d)) == d;
      }
      var pathIndex := st.pathIndex - 1;
      if pathIndex < 0 {
        return st.(visited := visited), Halt(NoPath);
      }
      var coords := st.path[pathIndex];
      var walls, _ := MoveTo(m, DirectionTowards(c, coords));
      st' := Classic(visited, st.path, pathIndex, coords.x, coords.y, st.previous, walls);
      next := Continue;
    }
  }

  /** `backtrackerClassicIcarus` with `max-steps` = `maxSteps`. The map
      starts with 200 entries and the cell (0, 0) marked; the breadcrumbs
      are `maxSteps` cells, and the program writes the start at index
      `coordsToInt(0, 0)` = 3 of them, so it panics when `maxSteps <= 3`.
      Every step asks for at most one move. Otherwise the breadcrumbs
      overflow only when the last of the `maxSteps` steps pushes one more;
      `steps` counts the steps begun. */
  method BacktrackerClassicIcarus(m: Maze, maxSteps: int, strategy: Strategy, rng: Random)
    returns (ending: Ending, ghost steps: int)
    requires m.Valid()
    modifies m`icarus, m`stepsTaken, rng
    ensures ending == Solved ==> m.icarus == m.end
    ensures ending == OutOfSteps ==> steps == maxSteps
    ensures ending == Panicked ==> maxSteps <= 3 || steps == maxSteps
    ensures m.stepsTaken <= old(m.stepsTaken) + steps && steps <= if maxSteps > 0 then maxSteps else 0
  {
    steps := 0;
    var visited := seq(200, _ => false);
    if maxSteps < 0 {
      return Panicked, steps;
    }
    var path := seq(maxSteps, _ => Coordinate(0, 0));
    var previousDirection := rng.Intn(4);
    previousDirection := previousDirection + 1;
    var z := CoordsToInt(0, 0);
    var walls := Awake(m);
    visited := visited[z := true];
    if z >= |path| {
      return Panicked, steps;
    }
    path := path[z := Coordinate(0, 0)];
    var st := Classic(visited, path, 0, 0, 0, previousDirection, walls);
    var r := 0;
    while r < maxSteps
      invariant 0 <= r <= maxSteps && Crumbs(st) && 0 <= st.previous && |st.path| == maxSteps
      invariant st.pathIndex <= r
      invariant Marked(st.visited, Key(0, 0))
      invariant steps == r && m.stepsTaken <= old(m.stepsTaken) + r
    {
      var next;
      steps := r + 1;
      st, next := Step(m, rng, strategy, st);
      if next.Halt? {
        return next.ending, steps;
      }
      r := r + 1;
    }
    return OutOfSteps, steps;
  }
}
