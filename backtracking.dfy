/** `backtrackerIcarus`: the depth-first explorer that also records the
    walls of every cell it enters. At a dead end it does not retrace its
    breadcrumbs but walks, through cells it has recorded, to the nearest
    cell it has not visited, found by `nearestUnvisited`. */
module BacktrackerIcarus {
  import opened Mazelib
  import opened Daedalus
  import opened Oracle
  import opened Pairing
  import opened Virtual
  import opened Icarus
  import opened Nearest

  /** The explorer's variables between two steps: the recorded map
      (`virtual`, whose length is the program's `mapSize`), the
      breadcrumbs `path` with the index `pathIndex` of the top one, the
      position (x, y) it believes it is at, relative to where it woke up,
      the direction of its previous move and the walls it sees. */
  datatype Explorer = Explorer(virtual: seq<VirtualCell>, path: seq<Coordinate>, pathIndex: int,
                               x: int, y: int, previous: int, walls: Survey)

  /** Direction `d` from cell `c` is closed to a forward move: the survey
      shows a wall there, or the cell behind it is recorded as visited. */
  predicate Blocked(walls: Survey, virtual: seq<VirtualCell>, c: Coordinate, d: Direction) {
    Wall(walls, d) || Visited(virtual, Neighbour(c, d))
  }

  /** The explorer's state is well formed: the breadcrumb index is in
      range, its cell and every breadcrumb are recorded as visited, and
      its cell is recorded with the walls it sees. */
  ghost predicate Recorded(st: Explorer) {
    && 0 <= st.pathIndex < |st.path| && 0 <= st.previous
    && Visited(st.virtual, Coordinate(st.x, st.y))
    && st.virtual[Key(st.x, st.y)].walls == st.walls
    && (forall k :: 0 <= k <= st.pathIndex ==> Visited(st.virtual, st.path[k]))
  }

  /** No visit recorded in `virtual` is lost in `virtual'`. */
  ghost predicate KeepsMarks(virtual: seq<VirtualCell>, virtual': seq<VirtualCell>) {
    forall c :: Visited(virtual, c) ==> Visited(virtual', c)
  }

  /** The growth loop `for ; z >= mapSize; { extendVirtual }`: the map is
      grown 200 entries at a time until it has an entry `z`. */
  method GrowVirtual(virtual: seq<VirtualCell>, z: int) returns (virtual': seq<VirtualCell>)
    ensures z < |virtual'| && Grown(virtual, virtual')
  {
    virtual' := virtual;
    while z >= |virtual'|
      invariant Grown(virtual, virtual')
      decreases z - |virtual'|
    {
      virtual' := ExtendVirtual(virtual', |virtual'|).0;
    }
  }

  /** The direction loop of a step: directions `Tried(nr, w)` for
      `w` = 0, 1, 2, 3 until one is open and leads to a cell not recorded
      as visited. The result `w` is the first such turn, or 4 when every
      direction is blocked; the map comes back grown. */
  method FreeSide(walls: Survey, virtual: seq<VirtualCell>, c: Coordinate, nr: int)
    returns (w: int, virtual': seq<VirtualCell>)
    ensures 0 <= w <= 4 && Grown(virtual, virtual')
    ensures forall w' :: 0 <= w' < w ==> Blocked(walls, virtual, c, Tried(nr, w'))
    ensures w < 4 ==> !Blocked(walls, virtual, c, Tried(nr, w)) && Known(virtual', Neighbour(c, Tried(nr, w)))
  {
    virtual' := virtual;
    w := 0;
    while w < 4
      invariant 0 <= w <= 4 && Grown(virtual, virtual')
      invariant forall w' :: 0 <= w' < w ==> Blocked(walls, virtual, c, Tried(nr, w'))
    {
      var free;
      virtual', free := TryTurn(walls, virtual, virtual', c, Tried(nr, w));
      if free {
        return;
      }
      w := w + 1;
    }
  }

  /** One turn of the direction loop: direction `n` is free when the
      survey shows no wall there and the cell behind it, which the map is
      grown to hold, is not recorded as visited. */
  method TryTurn(walls: Survey, virtual: seq<VirtualCell>, current: seq<VirtualCell>, c: Coordinate, n: Direction)
    returns (virtual': seq<VirtualCell>, free: bool)
    requires Grown(virtual, current)
    ensures Grown(virtual, virtual')
    ensures free <==> !Blocked(walls, virtual, c, n)
    ensures free ==> Known(virtual', Neighbour(c, n))
  {
    virtual', free := current, false;
    if !Wall(walls, n) {
      var next := Neighbour(c, n);
      var z := CoordsToInt(next.x, next.y);
      var grown := GrowVirtual(current, z);
      GrownTwice(virtual, current, grown);
      GrownKeeps(virtual, grown);
      virtual' := grown;
      free := !virtual'[z].visited;
    }
  }

  /** Every direction is blocked once all four turns are. */
  lemma AllBlocked(walls: Survey, virtual: seq<VirtualCell>, c: Coordinate, nr: int)
    requires forall w' :: 0 <= w' < 4 ==> Blocked(walls, virtual, c, Tried(nr, w'))
    ensures forall d: Direction :: Blocked(walls, virtual, c, d)
  {
    ScanOrder(nr);
    forall d: Direction
      ensures Blocked(walls, virtual, c, d)
    {
      assert Tried(nr, Turn(nr, d)) == d;
    }
  }

  /** Entry `z` of the map is marked visited with the walls `walls`. */
  function Record(virtual: seq<VirtualCell>, z: int, walls: Survey): (virtual': seq<VirtualCell>)
    requires 0 <= z < |virtual|
    ensures |virtual'| == |virtual| && virtual'[z].visited && virtual'[z].walls == walls
    ensures forall k :: 0 <= k < |virtual| && k != z ==> virtual'[k] == virtual[k]
  {
    virtual[z := virtual[z].(visited := true, walls := walls)]
  }

  /** The walk of a step back along `route[..len]`, from cell `c`. The
      walk stops on the treasure. */
  method Walk(m: Maze, virtual: seq<VirtualCell>, route: seq<Coordinate>, len: int, c: Coordinate,
              walls: Survey, previous: int)
    returns (virtual': seq<VirtualCell>, c': Coordinate, walls': Survey, previous': int, victory: bool)
    requires m.Valid() && 2 <= len <= |route| && 0 <= previous && Visited(virtual, c)
    modifies m`icarus, m`stepsTaken
    ensures m.stepsTaken <= old(m.stepsTaken) + len - 1
    ensures victory ==> m.icarus == m.end
    ensures !victory ==> c' == route[len - 1] && forall p :: 1 <= p < len ==> Visited(virtual', route[p])
    ensures KeepsMarks(virtual, virtual') && Visited(virtual', c') && 0 <= previous'
    ensures virtual'[Key(c'.x, c'.y)].walls == walls'
  {
    virtual', c', walls', previous', victory := virtual, c, walls, previous, false;
    var p := 1;
    while p < len
      invariant 1 <= p <= len && m.Valid()
      invariant m.stepsTaken <= old(m.stepsTaken) + p - 1
      invariant KeepsMarks(virtual, virtual') && Visited(virtual', c') && 0 <= previous'
      invariant forall q :: 1 <= q < p ==> Visited(virtual', route[q])
      invariant p > 1 ==> c' == route[p - 1] && virtual'[Key(c'.x, c'.y)].walls == walls'
      invariant !victory
    {
      ghost var before := virtual';
      virtual', walls', previous', victory := WalkStep(m, virtual', c', route[p], walls', previous');
      c' := route[p];
      forall q | 1 <= q < p + 1
        ensures Visited(virtual', route[q])
      {
        if q < p {
          assert Visited(before, route[q]);
        }
      }
      if victory {
        return;
      }
      p := p + 1;
    }
  }

  /** One move of the walk, from cell `c` to the cell `target`: the
      direction is found by comparing the x coordinates first and the y
      coordinates second (no move when both agree). The explorer then takes
      `target` as its position, whether the move was accepted or not, and
      records it as visited with the walls the move answered (or the walls
      it had, when it did not move). */
  method WalkStep(m: Maze, virtual: seq<VirtualCell>, c: Coordinate, target: Coordinate, walls: Survey, previous: int)
    returns (virtual': seq<VirtualCell>, walls': Survey, previous': int, victory: bool)
    requires m.Valid() && 0 <= previous
    modifies m`icarus, m`stepsTaken
    ensures m.Valid() && m.stepsTaken <= old(m.stepsTaken) + 1
    ensures victory ==> m.icarus == m.end
    ensures KeepsMarks(virtual, virtual') && Visited(virtual', target) && 0 <= previous'
    ensures virtual'[Key(target.x, target.y)].walls == walls'
    ensures target == c ==> walls' == walls && previous' == previous && !victory && m.icarus == old(m.icarus)
    ensures target != c && !victory && m.icarus != old(m.icarus) ==> InGrid(m.rooms, m.icarus) && walls' == m.rooms[m.icarus.y, m.icarus.x].walls
    ensures target != c && (victory || m.icarus == old(m.icarus)) ==> walls' == NoWalls
  {
    walls', previous', victory := walls, previous, false;
    if target.x < c.x {
      walls', victory := MoveTo(m, 3);
      previous' := 3;
    } else if target.x > c.x {
      walls', victory := MoveTo(m, 1);
      previous' := 1;
    } else if target.y < c.y {
      walls', victory := MoveTo(m, 0);
      previous' := 0;
    } else if target.y > c.y {
      walls', victory := MoveTo(m, 2);
      previous' := 2;
    }
    var z := CoordsToInt(target.x, target.y);
    var grown := GrowVirtual(virtual, z);
    GrownKeeps(virtual, grown);
    virtual' := Record(grown, z, walls');
    forall c | Visited(virtual, c)
      ensures Visited(virtual', c)
    {
      if Key(c.x, c.y) != z {
        assert virtual'[Key(c.x, c.y)] == grown[Key(c.x, c.y)];
      }
    }
  }

  /** One turn of the step loop. `nr` is the first direction tried: a
      random one, up, or the previous direction, by the strategy. A forward
      move marks the new cell, moves, records the walls it sees there and
      pushes the cell onto the breadcrumbs. At a dead end the explorer
      walks to the nearest unvisited cell, through recorded cells, along
      the path of `nearestUnvisited` bounded by the number of breadcrumbs;
      when that search finds nothing, or only the explorer's own cell, it
      steps to the breadcrumb below the top one instead. The breadcrumbs
      are left as they are then. */
  method Step(m: Maze, rng: Random, strategy: Strategy, st: Explorer) returns (st': Explorer, next: Next)
    requires m.Valid() && Recorded(st)
    modifies m`icarus, m`stepsTaken, rng
    ensures m.stepsTaken <= old(m.stepsTaken) + |st.path|
    ensures next == Halt(Solved) ==> m.icarus == m.end
    ensures next == Continue || next == Halt(Solved) || next == Halt(Panicked)
    ensures KeepsMarks(st.virtual, st'.virtual)
    ensures next == Continue ==> Recorded(st') && |st'.path| == |st.path|
    ensures next == Continue ==>
              st'.pathIndex == st.pathIndex + 1 || (st'.pathIndex == st.pathIndex && st'.path == st.path)
    ensures next == Continue && st'.pathIndex == st.pathIndex + 1 ==>
              && 0 <= st'.previous < 4
              && st'.path[..st'.pathIndex] == st.path[..st'.pathIndex]
              && st'.path[st'.pathIndex] == Coordinate(st'.x, st'.y)
              && Coordinate(st'.x, st'.y) == Neighbour(Coordinate(st.x, st.y), st'.previous)
              && !Blocked(st.walls, st.virtual, Coordinate(st.x, st.y), st'.previous)
              && st'.virtual[Key(st'.x, st'.y)] == VirtualCell(Coordinate(st'.x, st'.y), st'.walls, true)
    ensures next == Continue && st'.pathIndex == st.pathIndex ==>
              && (forall d: Direction :: Blocked(st.walls, st.virtual, Coordinate(st.x, st.y), d))
              && var r := Nearest.Nearest(st.virtual, [Coordinate(st.x, st.y)], |st.path|);
                 if 2 <= r.len < |st.path|
                 then Coordinate(st'.x, st'.y) == r.path[r.len - 1] && !Visited(st.virtual, r.path[r.len - 1])
                 else st.pathIndex >= 1 && Coordinate(st'.x, st'.y) == st.path[st.pathIndex - 1]
    ensures next == Halt(Panicked) ==>
              st.pathIndex + 1 == |st.path|
              || (st.pathIndex == 0 && forall d: Direction :: Blocked(st.walls, st.virtual, Coordinate(st.x, st.y), d))
  {
    var nr := st.previous;
    if strategy == RandomTurn {
      nr := rng.Intn(4);
    } else if strategy == MostlyRight {
      nr := 0;
    }
    var c := Coordinate(st.x, st.y);
    var w, virtual := FreeSide(st.walls, st.virtual, c, nr);
    GrownKeeps(st.virtual, virtual);
    if w < 4 {
      st', next := Forward(m, st, Tried(nr, w), virtual);
    } else {
      AllBlocked(st.walls, st.virtual, c, nr);
      st', next := Back(m, st, virtual);
    }
  }

  /** Recording a visit in a grown map loses no recorded visit. */
  lemma MarkKeeps(virtual: seq<VirtualCell>, grown: seq<VirtualCell>, z: int, e: VirtualCell)
    requires Grown(virtual, grown) && 0 <= z < |grown| && e.visited
    ensures KeepsMarks(virtual, grown[z := e])
  {
    GrownKeeps(virtual, grown);
    forall c | Visited(virtual, c)
      ensures Visited(grown[z := e], c)
    {
      if Key(c.x, c.y) != z {
        assert grown[z := e][Key(c.x, c.y)] == grown[Key(c.x, c.y)];
      }
    }
  }

  /** A forward move of a step in the open direction `n`, on the map
      `virtual` grown by the direction loop. */
  method Forward(m: Maze, st: Explorer, n: Direction, virtual: seq<VirtualCell>) returns (st': Explorer, next: Next)
    requires m.Valid() && Recorded(st) && Grown(st.virtual, virtual)
    requires !Blocked(st.walls, st.virtual, Coordinate(st.x, st.y), n)
    requires Known(virtual, Neighbour(Coordinate(st.x, st.y), n))
    modifies m`icarus, m`stepsTaken
    ensures m.stepsTaken <= old(m.stepsTaken) + 1
    ensures next == Halt(Solved) ==> m.icarus == m.end
    ensures next == Continue || next == Halt(Solved) || (next == Halt(Panicked) && st.pathIndex + 1 == |st.path|)
    ensures KeepsMarks(st.virtual, st'.virtual)
    ensures next == Continue ==>
              && Recorded(st') && |st'.path| == |st.path| && st'.pathIndex == st.pathIndex + 1
              && st'.previous == n
              && st'.path[..st'.pathIndex] == st.path[..st'.pathIndex]
              && st'.path[st'.pathIndex] == Coordinate(st'.x, st'.y)
              && Coordinate(st'.x, st'.y) == Neighbour(Coordinate(st.x, st.y), n)
              && st'.virtual[Key(st'.x, st'.y)] == VirtualCell(Coordinate(st'.x, st'.y), st'.walls, true)
  {
    GrownKeeps(st.virtual, virtual);
    var cell := Neighbour(Coordinate(st.x, st.y), n);
    var z := CoordsToInt(cell.x, cell.y);
    var v := virtual[z := virtual[z].(visited := true)];
    var walls, victory := MoveTo(m, n);
    v := v[z := VirtualCell(cell, walls, true)];
    assert v == virtual[z := VirtualCell(cell, walls, true)];
    MarkKeeps(st.virtual, virtual, z, VirtualCell(cell, walls, true));
    st' := st.(virtual := v, walls := walls);
    if victory {
      return st', Halt(Solved);
    }
    var pathIndex := st.pathIndex + 1;
    if pathIndex >= |st.path| {
      return st', Halt(Panicked);
    }
    st' := Explorer(v, st.path[pathIndex := cell], pathIndex, cell.x, cell.y, n, walls);
    next := Continue;
    assert st'.path[..pathIndex] == st.path[..pathIndex];
  }

  /** The step back at a dead end, on the map `virtual` grown by the
      direction loop. The search starts from a fresh buffer of
      `len(path)` cells holding the explorer's cell. */
  method Back(m: Maze, st: Explorer, virtual: seq<VirtualCell>) returns (st': Explorer, next: Next)
    requires m.Valid() && Recorded(st) && Grown(st.virtual, virtual)
    modifies m`icarus, m`stepsTaken
    ensures m.stepsTaken <= old(m.stepsTaken) + |st.path|
    ensures next == Halt(Solved) ==> m.icarus == m.end
    ensures next == Continue || next == Halt(Solved) || (next == Halt(Panicked) && st.pathIndex == 0)
    ensures KeepsMarks(st.virtual, st'.virtual)
    ensures next == Continue ==> Recorded(st') && st'.path == st.path && st'.pathIndex == st.pathIndex
    ensures next == Continue ==>
              var r := Nearest.Nearest(st.virtual, [Coordinate(st.x, st.y)], |st.path|);
              if 2 <= r.len < |st.path|
              then Coordinate(st'.x, st'.y) == r.path[r.len - 1] && !Visited(st.virtual, r.path[r.len - 1])
              else st.pathIndex >= 1 && Coordinate(st'.x, st'.y) == st.path[st.pathIndex - 1]
  {
    GrownKeeps(st.virtual, virtual);
    var c := Coordinate(st.x, st.y);
    var buf := new Coordinate[|st.path|];
    buf[0] := c;
    assert buf[..1] == [c];
    var route, len := NearestUnvisited(virtual, buf, 1, |st.path|);
    NearestGrown(st.virtual, virtual, [c], |st.path|);
    ghost var r := Nearest.Nearest(st.virtual, [c], |st.path|);
    if len == |st.path| || len < 2 {
      if st.pathIndex == 0 {
        return st.(virtual := virtual), Halt(Panicked);
      }
      route, len := [Coordinate(0, 0), st.path[st.pathIndex - 1]], 2;
    }
    var v, c', walls, previous, victory := Walk(m, virtual, route, len, c, st.walls, st.previous);
    forall k | 0 <= k <= st.pathIndex
      ensures Visited(v, st.path[k])
    {
      assert Visited(st.virtual, st.path[k]);
    }
    st' := Explorer(v, st.path, st.pathIndex, c'.x, c'.y, previous, walls);
    next := if victory then Halt(Solved) else Continue;
  }

  /** The moves of `r` steps of at most `k` rooms each, and one more such
      step, are the moves of `r + 1` steps. */
  lemma Budget(base: int, before: int, after: int, r: int, k: int)
    requires before <= base + r * k && after <= before + k
    ensures after <= base + (r + 1) * k
  {
    assert (r + 1) * k == r * k + k;
  }

  /** `backtrackerIcarus` with `max-steps` = `maxSteps`. The map starts
      with 200 entries and the cell (0, 0) recorded with the walls Icarus
      wakes up to; the breadcrumbs are `maxSteps` cells, and the program
      writes the start at index `coordsToInt(0, 0)` = 3 of them, so it
      panics when `maxSteps <= 3`. A step moves Icarus at most `maxSteps`
      rooms. The breadcrumbs overflow only when the last of the `maxSteps`
      steps pushes one more, or when a step back falls back on the
      breadcrumbs while only the start is on them; `steps` counts the steps
      begun. */
  method BacktrackerIcarus(m: Maze, maxSteps: int, strategy: Strategy, rng: Random)
    returns (ending: Ending, ghost steps: int)
    requires m.Valid()
    modifies m`icarus, m`stepsTaken, rng
    ensures ending == Solved ==> m.icarus == m.end
    ensures ending != NoPath
    ensures ending == OutOfSteps ==> steps == maxSteps
    ensures m.stepsTaken <= old(m.stepsTaken) + steps * maxSteps
    ensures steps <= if maxSteps > 0 then maxSteps else 0
  {
    steps := 0;
    var virtual := seq(200, _ => Unknown);
    if maxSteps < 0 {
      return Panicked, steps;
    }
    var path := seq(maxSteps, _ => Coordinate(0, 0));
    var previousDirection := rng.Intn(4);
    previousDirection := previousDirection + 1;
    var z := CoordsToInt(0, 0);
    var walls := Awake(m);
    virtual := Record(virtual, z, walls);
    if z >= |path| {
      return Panicked, steps;
    }
    path := path[z := Coordinate(0, 0)];
    var st := Explorer(virtual, path, 0, 0, 0, previousDirection, walls);
    assert Visited(st.virtual, st.path[0]);
    ending, steps := Explore(m, st, maxSteps, strategy, rng);
  }

  /** The step loop of `backtrackerIcarus`: at most `maxSteps` steps from
      the explorer's state `st`, until one of them halts. */
  method Explore(m: Maze, st: Explorer, maxSteps: int, strategy: Strategy, rng: Random)
    returns (ending: Ending, ghost steps: int)
    requires m.Valid() && Recorded(st) && |st.path| == maxSteps
    modifies m`icarus, m`stepsTaken, rng
    ensures ending == Solved ==> m.icarus == m.end
    ensures ending != NoPath
    ensures ending == OutOfSteps ==> steps == maxSteps
    ensures 0 <= steps <= maxSteps && m.stepsTaken <= old(m.stepsTaken) + steps * maxSteps
  {
    var r := 0;
    var cur := st;
    steps := 0;
    while r < maxSteps
      invariant 0 <= r <= maxSteps && Recorded(cur) && |cur.path| == maxSteps
      invariant steps == r && m.stepsTaken <= old(m.stepsTaken) + r * maxSteps
    {
      var next;
      steps := r + 1;
      ghost var before := m.stepsTaken;
      cur, next := Step(m, rng, strategy, cur);
      Budget(old(m.stepsTaken), before, m.stepsTaken, r, maxSteps);
      if next.Halt? {
        return next.ending, steps;
      }
      r := r + 1;
    }
    return OutOfSteps, steps;
  }
}
