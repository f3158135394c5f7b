/** `backtrackerMaze`: a randomised depth-first carve of the full maze with
    an explicit stack of coordinates. */
module BacktrackerMazes {
  import opened Mazelib
  import opened Daedalus
  import opened Oracle
  import opened Grid

  /** The side `d` of room `c` leads out of the grid or to a visited room. */
  predicate Taken(a: array2<Room>, c: Coordinate, d: Direction)
    reads a
  {
    var n := Neighbour(c, d);
    !InGrid(a, n) || a[n.y, n.x].visited
  }

  /** The number of `false` entries of `s`. */
  function FreeCount(s: seq<bool>): (r: nat)
    ensures r <= |s|
  {
    if |s| == 0 then 0 else FreeCount(s[..|s| - 1]) + (if s[|s| - 1] then 0 else 1)
  }

  /** The `n`-th direction the scan visits after `lastCell`. */
  function ScanDirection(lastCell: int, n: int): Direction
    requires 0 <= lastCell <= 5 && 0 <= n < 4
  {
    var s := 1 + lastCell + n;
    if s < 4 then s else if s < 8 then s - 4 else s - 8
  }

  /** How many of the first `n` directions of the scan are marked in `taken`. */
  function TakenSoFar(taken: seq<bool>, lastCell: int, n: nat): nat
    requires |taken| == 4 && 0 <= lastCell <= 5 && n <= 4
  {
    if n == 0 then 0
    else TakenSoFar(taken, lastCell, n - 1) + (if taken[ScanDirection(lastCell, n - 1)] then 1 else 0)
  }

  /** `ScanDirection` is the program's `(1 + lastCell + n) % 4`. */
  lemma ScanDirectionMod(lastCell: int, n: int)
    requires 0 <= lastCell <= 5 && 0 <= n < 4
    ensures ScanDirection(lastCell, n) == (1 + lastCell + n) % 4
  {
  }

  /** Two different steps of one scan look in different directions. */
  lemma ScanDistinct(lastCell: int, k: int, n: int)
    requires 0 <= lastCell <= 5 && 0 <= k < n < 4
    ensures ScanDirection(lastCell, k) != ScanDirection(lastCell, n)
  {
  }

  /** Recording the `n`-th direction of the scan keeps the earlier ones. */
  lemma ScanStep(sides: seq<bool>, lastCell: int, lastC: seq<bool>, n: int, taken: bool)
    requires 0 <= lastCell <= 5 && 0 <= n < 4 && |lastC| == 4 && |sides| == 4
    requires forall k :: 0 <= k < n ==> lastC[ScanDirection(lastCell, k)] == sides[ScanDirection(lastCell, k)]
    requires taken == sides[ScanDirection(lastCell, n)]
    ensures forall k :: 0 <= k <= n ==>
              lastC[ScanDirection(lastCell, n) := taken][ScanDirection(lastCell, k)] == sides[ScanDirection(lastCell, k)]
  {
    forall k | 0 <= k < n
      ensures ScanDirection(lastCell, k) != ScanDirection(lastCell, n)
    {
      ScanDistinct(lastCell, k, n);
    }
  }

  /** The scan visits each of the four directions exactly once, so once it
      is over `lastC` agrees with `taken` everywhere and four less the count
      of taken sides is the number of free ones, wherever the scan started. */
  lemma ScanComplete(taken: seq<bool>, lastCell: int, lastC: seq<bool>)
    requires 0 <= lastCell <= 5 && |lastC| == 4 && |taken| == 4
    requires forall k :: 0 <= k < 4 ==> lastC[ScanDirection(lastCell, k)] == taken[ScanDirection(lastCell, k)]
    ensures lastC == taken
    ensures 4 - TakenSoFar(taken, lastCell, 4) == FreeCount(taken)
  {
    ScanCoversAll(taken, lastCell, lastC);
    ScanCountsAll(taken, lastCell);
  }

  /** The four directions of one scan, by where it starts. */
  lemma ScanOrder(lastCell: int)
    requires 0 <= lastCell <= 5
    ensures var d0, d1, d2, d3 := ScanDirection(lastCell, 0), ScanDirection(lastCell, 1),
                                  ScanDirection(lastCell, 2), ScanDirection(lastCell, 3);
            || (d0 == 1 && d1 == 2 && d2 == 3 && d3 == 0)
            || (d0 == 2 && d1 == 3 && d2 == 0 && d3 == 1)
            || (d0 == 3 && d1 == 0 && d2 == 1 && d3 == 2)
            || (d0 == 0 && d1 == 1 && d2 == 2 && d3 == 3)
  {
  }

  /** Agreeing on the four directions of a scan is agreeing everywhere. */
  lemma ScanCoversAll(taken: seq<bool>, lastCell: int, lastC: seq<bool>)
    requires 0 <= lastCell <= 5 && |lastC| == 4 && |taken| == 4
    requires forall k :: 0 <= k < 4 ==> lastC[ScanDirection(lastCell, k)] == taken[ScanDirection(lastCell, k)]
    ensures lastC == taken
  {
    var d0, d1, d2, d3 := ScanDirection(lastCell, 0), ScanDirection(lastCell, 1),
                          ScanDirection(lastCell, 2), ScanDirection(lastCell, 3);
    assert lastC[d0] == taken[d0] && lastC[d1] == taken[d1];
    assert lastC[d2] == taken[d2] && lastC[d3] == taken[d3];
    ScanOrder(lastCell);
    assert lastC[0] == taken[0] && lastC[1] == taken[1] && lastC[2] == taken[2] && lastC[3] == taken[3];
    assert lastC == [lastC[0], lastC[1], lastC[2], lastC[3]];
    assert taken == [taken[0], taken[1], taken[2], taken[3]];
  }

  /** A whole scan counts each taken side once. */
  lemma ScanCountsAll(taken: seq<bool>, lastCell: int)
    requires 0 <= lastCell <= 5 && |taken| == 4
    ensures 4 - TakenSoFar(taken, lastCell, 4) == FreeCount(taken)
  {
    var d0, d1, d2, d3 := ScanDirection(lastCell, 0), ScanDirection(lastCell, 1),
                          ScanDirection(lastCell, 2), ScanDirection(lastCell, 3);
    assert TakenSoFar(taken, lastCell, 1) == (if taken[d0] then 1 else 0);
    assert TakenSoFar(taken, lastCell, 2) == TakenSoFar(taken, lastCell, 1) + (if taken[d1] then 1 else 0);
    assert TakenSoFar(taken, lastCell, 3) == TakenSoFar(taken, lastCell, 2) + (if taken[d2] then 1 else 0);
    assert TakenSoFar(taken, lastCell, 4) == TakenSoFar(taken, lastCell, 3) + (if taken[d3] then 1 else 0);
    ScanOrder(lastCell);
    FreeCountOfFour(taken);
  }

  /** `FreeCount` of four entries, written out. */
  lemma FreeCountOfFour(s: seq<bool>)
    requires |s| == 4
    ensures FreeCount(s) == (if s[0] then 0 else 1) + (if s[1] then 0 else 1) + (if s[2] then 0 else 1) + (if s[3] then 0 else 1)
  {
    assert s[..1][..0] == [];
    assert FreeCount(s[..1]) == (if s[0] then 0 else 1);
    assert s[..2][..1] == s[..1];
    assert FreeCount(s[..2]) == FreeCount(s[..1]) + (if s[1] then 0 else 1);
    assert s[..3][..2] == s[..2];
    assert FreeCount(s[..3]) == FreeCount(s[..2]) + (if s[2] then 0 else 1);
    assert s[..3] == s[..|s| - 1];
  }

  /** Which sides of room `c` are taken, by direction. */
  ghost function Sides(a: array2<Room>, c: Coordinate): (r: seq<bool>)
    reads a
    ensures |r| == 4 && forall d: Direction :: r[d] == Taken(a, c, d)
  {
    [Taken(a, c, 0), Taken(a, c, 1), Taken(a, c, 2), Taken(a, c, 3)]
  }

  /** One case of the scan's switch: a side leading out of the grid is
      taken, otherwise the neighbour's visited flag decides. */
  function SideTaken(a: array2<Room>, c: Coordinate, t: Direction): (r: bool)
    reads a
    requires InGrid(a, c)
    ensures r == Taken(a, c, t)
  {
    if t == 0 then (if c.y - 1 < 0 then true else a[c.y - 1, c.x].visited)
    else if t == 1 then (if c.x + 1 >= a.Length1 then true else a[c.y, c.x + 1].visited)
    else if t == 2 then (if c.y + 1 >= a.Length0 then true else a[c.y + 1, c.x].visited)
    else (if c.x - 1 < 0 then true else a[c.y, c.x - 1].visited)
  }

  /** The scan of `backtrackerMaze`: starting after `lastCell`, look at the
      four neighbours and record in `lastC` which are out of the grid or
      already visited, counting the others in `free`. Every entry of
      `lastC` is rewritten, so its previous contents are left out. */
  method ScanNeighbours(a: array2<Room>, c: Coordinate, lastCell: int) returns (lastC: seq<bool>, free: int)
    requires InGrid(a, c) && 0 <= lastCell <= 5
    ensures |lastC| == 4
    ensures forall d: Direction :: lastC[d] == Taken(a, c, d)
    ensures free == FreeCount(lastC)
  {
    ghost var sides := Sides(a, c);
    lastC := [false, false, false, false];
    free := 4;
    for n := 0 to 4
      invariant |lastC| == 4
      invariant forall k :: 0 <= k < n ==> lastC[ScanDirection(lastCell, k)] == sides[ScanDirection(lastCell, k)]
      invariant free == 4 - TakenSoFar(sides, lastCell, n)
    {
      var t := ScanDirection(lastCell, n);
      var taken := SideTaken(a, c, t);
      ScanStep(sides, lastCell, lastC, n, taken);
      lastC := lastC[t := taken];
      if taken {
        free := free - 1;
      }
    }
    ScanComplete(sides, lastCell, lastC);
  }

  /** The selection loop of `backtrackerMaze`: the direction of the `t`-th
      (counting from 0) free entry of `lastC`. */
  method SelectFree(lastC: seq<bool>, t: int) returns (d: Direction)
    requires |lastC| == 4 && 0 <= t < FreeCount(lastC)
    ensures !lastC[d] && FreeCount(lastC[..d]) == t
  {
    var n, tm := 0, 0;
    while n < 4 && (t + tm != n || lastC[n])
      invariant 0 <= n <= 4
      invariant tm == n - FreeCount(lastC[..n]) && FreeCount(lastC[..n]) <= t
      decreases 4 - n
    {
      assert lastC[..n + 1][..n] == lastC[..n];
      if lastC[n] {
        tm := tm + 1;
      }
      n := n + 1;
    }
    assert lastC[..4] == lastC;
    d := n;
  }

  /** The rooms of a grid `w` wide and `h` high. */
  ghost function Cells(w: nat, h: nat): set<Coordinate> {
    set x, y | 0 <= x < w && 0 <= y < h :: Coordinate(x, y)
  }

  /** The rooms of row `y`. */
  ghost function RowCells(w: nat, y: int): set<Coordinate> {
    set x | 0 <= x < w :: Coordinate(x, y)
  }

  lemma {:induction false} RowCount(w: nat, y: int)
    ensures |RowCells(w, y)| == w
  {
    if w > 0 {
      assert RowCells(w, y) == RowCells(w - 1, y) + {Coordinate(w - 1, y)};
      RowCount(w - 1, y);
    } else {
      assert RowCells(w, y) == {};
    }
  }

  /** A grid `w` wide and `h` high has `w * h` rooms. */
  lemma {:induction false} CellsCount(w: nat, h: nat)
    ensures |Cells(w, h)| == w * h
  {
    if h > 0 {
      CellsSplit(w, h);
      CellsCount(w, h - 1);
      RowCount(w, h - 1);
      assert w * h == w * (h - 1) + w;
    } else {
      assert Cells(w, h) == {};
    }
  }

  /** The rooms of a grid are those of the grid one row shorter and those
      of its last row, which are disjoint. */
  lemma CellsSplit(w: nat, h: nat)
    requires h > 0
    ensures Cells(w, h) == Cells(w, h - 1) + RowCells(w, h - 1)
    ensures Cells(w, h - 1) * RowCells(w, h - 1) == {}
  {
    forall p | p in Cells(w, h)
      ensures p in Cells(w, h - 1) + RowCells(w, h - 1)
    {
      var x, y :| 0 <= x < w && 0 <= y < h && p == Coordinate(x, y);
      if y < h - 1 {
        assert p in Cells(w, h - 1);
      } else {
        assert p in RowCells(w, h - 1);
      }
    }
    forall p | p in Cells(w, h - 1) + RowCells(w, h - 1)
      ensures p in Cells(w, h)
    {
      if p in RowCells(w, h - 1) {
        var x :| 0 <= x < w && p == Coordinate(x, h - 1);
      } else {
        var x, y :| 0 <= x < w && 0 <= y < h - 1 && p == Coordinate(x, y);
      }
    }
  }

  /** The carve step's choice: draw `t` below the number of free entries
      of `lastC` and take the side of the `t`-th one; every side `lastC`
      leaves free is free. */
  method PickSide(a: array2<Room>, c: Coordinate, lastC: seq<bool>, free: int, rng: Random) returns (d: Direction)
    requires InGrid(a, c) && |lastC| == 4 && (forall e: Direction :: !lastC[e] ==> !Taken(a, c, e))
    requires free == FreeCount(lastC) && free > 0
    modifies rng
    ensures !Taken(a, c, d)
    ensures FreeCount(lastC[..d]) == Draw(rng.draws, old(rng.used), free)
    ensures rng.used == old(rng.used) + 1
  {
    var t := rng.Intn(free);
    d := SelectFree(lastC, t);
  }

  /** What the carve keeps: walls consistent and closed, no flags, and the
      visited rooms exactly those in `seen`. */
  ghost predicate Carving(a: array2<Room>, seen: set<Coordinate>)
    reads a
  {
    && Symmetric(a) && Closed(a) && NoFlags(a)
    && forall j, i :: 0 <= j < a.Length0 && 0 <= i < a.Length1 ==> (a[j, i].visited <==> Coordinate(i, j) in seen)
  }

  /** Knocks down the wall between room `c` and its free neighbour on side
      `d`: the two walls of that edge are the only change, the open edges
      gain exactly that one, and the neighbour, which was not entered
      before, is left unvisited. */
  method OpenSide(a: array2<Room>, c: Coordinate, d: Direction, ghost seen: set<Coordinate>)
    requires InGrid(a, c) && !Taken(a, c, d) && Carving(a, seen)
    modifies a
    ensures Neighbour(c, d) !in seen
    ensures Carving(a, seen) && !Taken(a, c, d)
    ensures !Wall(a[c.y, c.x].walls, d)
    ensures forall y, x :: 0 <= y < a.Length0 && 0 <= x < a.Length1 ==>
              a[y, x] == AfterEdge(old(a[y, x]), y, x, c, d, false)
    ensures OpenEdges(a) == old(OpenEdges(a)) + {EdgeOf(c, d)}
  {
    OpenEdge(a, c, d);
    assert a[c.y, c.x] == WithWall(old(a[c.y, c.x]), d, false);
    assert NoFlags(a);
    assert forall j, i :: 0 <= j < a.Length0 && 0 <= i < a.Length1 ==> (a[j, i].visited <==> Coordinate(i, j) in seen);
  }

  /** Marks the room `n` the carve moved into as visited; no wall moves. */
  method Enter(a: array2<Room>, n: Coordinate, ghost seen: set<Coordinate>)
    requires InGrid(a, n) && !a[n.y, n.x].visited && Carving(a, seen)
    modifies a
    ensures n !in seen && Carving(a, seen + {n})
    ensures a[n.y, n.x] == old(a[n.y, n.x]).(visited := true)
    ensures forall y, x :: 0 <= y < a.Length0 && 0 <= x < a.Length1 && Coordinate(x, y) != n ==> a[y, x] == old(a[y, x])
    ensures OpenEdges(a) == old(OpenEdges(a))
  {
    MarkVisited(a, n);
  }

  /** The carve step of `backtrackerMaze` after the choice of side `d`:
      knock down the wall, move into the neighbour, push it on the stack and
      mark it visited. `pushed` is false where the push would index past the
      end of the stack; the walls are then already carved. Only the two
      rooms of the edge change, and the edge becomes open. */
  method Carve(a: array2<Room>, stack: array<Coordinate>, top: int, c: Coordinate, d: Direction,
               ghost seen: set<Coordinate>) returns (next: Coordinate, pushed: bool)
    requires InGrid(a, c) && !Taken(a, c, d) && Carving(a, seen)
    requires 0 <= top < stack.Length
    modifies a, stack
    ensures next == Neighbour(c, d) && InGrid(a, next) && next !in seen
    ensures Symmetric(a) && Closed(a) && NoFlags(a)
    ensures !Wall(a[c.y, c.x].walls, d) && OpenEdges(a) == old(OpenEdges(a)) + {EdgeOf(c, d)}
    ensures forall y, x :: 0 <= y < a.Length0 && 0 <= x < a.Length1 && Coordinate(x, y) != c && Coordinate(x, y) != next ==>
              a[y, x] == old(a[y, x])
    ensures pushed <==> top + 1 < stack.Length
    ensures pushed ==> stack[..] == old(stack[..])[top + 1 := next]
    ensures pushed ==> next !in seen && Carving(a, seen + {next})
    ensures !pushed ==> stack[..] == old(stack[..]) && Carving(a, seen)
  {
    next := Neighbour(c, d);
    OpenSide(a, c, d, seen);
    if top + 1 == stack.Length {
      return next, false;
    }
    stack[top + 1] := next;
    Enter(a, next, seen);
    pushed := true;
  }

  /** Adding a room not yet seen grows the set by one. */
  lemma AddRoom(s: set<Coordinate>, p: Coordinate)
    requires p !in s
    ensures |s + {p}| == |s| + 1
  {
  }

  /** A subset of `b` as large as `b` is `b`. */
  lemma {:induction false} FullSubset(s: set<Coordinate>, b: set<Coordinate>)
    requires s <= b && |s| == |b|
    ensures s == b
  {
    if s != b {
      var p :| p in b && p !in s;
      assert s <= b - {p};
      SubsetCard(s, b - {p});
    }
  }

  /** A subset is no larger than its superset. */
  lemma {:induction false} SubsetCard(s: set<Coordinate>, b: set<Coordinate>)
    requires s <= b
    ensures |s| <= |b|
    decreases |b|
  {
    if s != {} {
      var p :| p in s;
      SubsetCard(s - {p}, b - {p});
    }
  }

  /** Every side of room `c` leads out of the grid or to a visited room. */
  ghost predicate Stuck(a: array2<Room>, c: Coordinate)
    reads a
  {
    forall d: Direction :: Taken(a, c, d)
  }

  /** The visited rooms of the grid. */
  ghost function VisitedRooms(a: array2<Room>): set<Coordinate>
    reads a
  {
    set x, y | 0 <= x < a.Length1 && 0 <= y < a.Length0 && a[y, x].visited :: Coordinate(x, y)
  }

  /** Under the carve invariant the visited rooms are those of `seen`. */
  lemma SeenVisited(a: array2<Room>, seen: set<Coordinate>)
    requires Carving(a, seen) && forall p :: p in seen ==> InGrid(a, p)
    ensures VisitedRooms(a) == seen
  {
    forall p | p in seen ensures p in VisitedRooms(a) {
      assert a[p.y, p.x].visited;
    }
  }

  /** The passages of a carve from room `start` that has entered the rooms
      of `rooms`: each joins two of those rooms or the starting room, and
      there is one per room entered, except that the carve can re-enter the
      starting room, which it never marks visited, through a passage it has
      already made. */
  ghost predicate Counted(edges: set<Edge>, rooms: set<Coordinate>, start: Coordinate) {
    && Between(edges, rooms + {start})
    && |edges| <= |rooms| <= |edges| + 1
    && (start !in rooms ==> |edges| == |rooms|)
  }

  /** A carve from an entered room (or the starting room) into a room not
      entered before keeps the count. Only the carve into the starting room
      can knock down an edge that is already open. */
  lemma CountedGrows(edges: set<Edge>, rooms: set<Coordinate>, start: Coordinate, c: Coordinate, d: Direction)
    requires Counted(edges, rooms, start) && c in rooms + {start} && Neighbour(c, d) !in rooms
    ensures Counted(edges + {EdgeOf(c, d)}, rooms + {Neighbour(c, d)}, start)
    ensures Neighbour(c, d) != start ==> EdgeOf(c, d) !in edges
  {
    var n, e := Neighbour(c, d), EdgeOf(c, d);
    AddRoom(rooms, n);
    if n != start {
      TreeGrows(edges, rooms + {start}, c, d);
      assert rooms + {start} + {n} == rooms + {n} + {start};
    } else {
      AddEdge(edges, e);
      assert rooms + {n} + {start} == rooms + {start};
    }
  }

  /** The carve can return into the starting room, which is never marked
      visited, through the passage it left it by: that edge is already
      open, so the two rooms entered share one passage, and the count
      stays below the rooms entered. */
  lemma ReEnterStart(start: Coordinate, d: Direction)
    ensures var n := Neighbour(start, d);
            && EdgeOf(n, Opposite(d)) == EdgeOf(start, d)
            && {EdgeOf(start, d)} + {EdgeOf(n, Opposite(d))} == {EdgeOf(start, d)}
            && Counted({EdgeOf(start, d)}, {n, start}, start) && |{n, start}| == 2
  {
    var n := Neighbour(start, d);
    assert n != start;
  }

  /** Adding an edge grows a set of edges by at most one. */
  lemma AddEdge(s: set<Edge>, e: Edge)
    ensures |s + {e}| == if e in s then |s| else |s| + 1
  {
    if e in s {
      assert s + {e} == s;
    }
  }

  /** The room the carve of `backtrackerMaze` starts from: the first two
      draws, reduced to the width and the height. */
  function StartRoom(draws: seq<nat>, k: nat, width: int, height: int): Coordinate
    requires width > 0 && height > 0
  {
    Coordinate(Draw(draws, k, width), Draw(draws, k + 1, height))
  }

  /** `backtrackerMaze`. The result `ok` is false where the program indexes
      its stack out of range: popping below the first entry (a 1 x 1 grid)
      or pushing past the last one (the starting room is never marked
      visited, so it can be carved into again, and `w * h` carves then need
      at least one backtrack). */
  method BacktrackerMaze(width: nat, height: nat, rng: Random) returns (m: Maze, ok: bool)
    requires width > 0 && height > 0
    modifies rng
    ensures fresh(m) && fresh(m.rooms)
    ensures m.rooms.Length0 == height && m.rooms.Length1 == width
    ensures Symmetric(m.rooms) && Closed(m.rooms)
    ensures ok ==> forall y, x :: 0 <= y < height && 0 <= x < width ==> m.rooms[y, x].visited
    ensures ok ==> width * height - 1 <= |OpenEdges(m.rooms)| <= width * height
    ensures !ok ==> || Stuck(m.rooms, StartRoom(rng.draws, old(rng.used), width, height))
                    || |VisitedRooms(m.rooms)| + 1 == width * height
    ensures ok ==> (!rng.Exhausted() ==> Placed(m)) && FlagsAt(m)
  {
    m := FullMaze(width, height);
    var rooms := m.rooms;
    ok := CarveAll(rooms, rng);
    if ok {
      PlaceIcarusAndTreasure(m, rng);
    }
  }

  /** What holds between two iterations of the carve: the stack holds rooms
      of the grid with the current room on top, and the carve invariant
      holds for the rooms entered so far. */
  ghost predicate Walking(a: array2<Room>, stack: array<Coordinate>, top: int, cur: Coordinate,
                          lastCell: int, seen: set<Coordinate>)
    reads a, stack
  {
    && 0 <= top < stack.Length
    && (forall k :: 0 <= k < stack.Length ==> InGrid(a, stack[k]))
    && stack[top] == cur && 0 <= lastCell <= 5
    && Carving(a, seen) && (forall p :: p in seen ==> InGrid(a, p))
  }

  /** What the carve from room `start` keeps besides `Walking`: the stack
      starts at `start` and holds, up to its top, the starting room and
      rooms entered, and the open edges are the counted passages. */
  ghost predicate Tracked(stack: seq<Coordinate>, edges: set<Edge>, top: int, seen: set<Coordinate>, start: Coordinate) {
    && 0 < |stack| && stack[0] == start
    && Rooted(stack, top, seen, start)
    && Counted(edges, seen, start)
  }

  /** Entries `0` to `top` of `s` are the starting room or rooms entered. */
  ghost predicate Rooted(s: seq<Coordinate>, top: int, seen: set<Coordinate>, start: Coordinate) {
    forall k :: 0 <= k <= top && k < |s| ==> s[k] in seen + {start}
  }

  /** A carve from the room on top of the stack into a room not entered
      before, pushing it, keeps the carve's bookkeeping. */
  lemma TrackedPush(s: seq<Coordinate>, edges: set<Edge>, top: int, seen: set<Coordinate>, start: Coordinate,
                    c: Coordinate, d: Direction)
    requires Tracked(s, edges, top, seen, start) && 0 <= top && top + 1 < |s| && s[top] == c && Neighbour(c, d) !in seen
    ensures Tracked(s[top + 1 := Neighbour(c, d)], edges + {EdgeOf(c, d)}, top + 1, seen + {Neighbour(c, d)}, start)
  {
    CountedGrows(edges, seen, start, c, d);
    RootedPush(s, top, seen, start, Neighbour(c, d));
  }

  /** `TrackedPush`, with the stack, the passages and the top after the
      carve named. */
  lemma PushedTracked(s: seq<Coordinate>, s': seq<Coordinate>, edges: set<Edge>, edges': set<Edge>, top: int, top': int,
                      seen: set<Coordinate>, start: Coordinate, c: Coordinate, d: Direction, n: Coordinate)
    requires Tracked(s, edges, top, seen, start) && 0 <= top && top + 1 < |s| && s[top] == c
    requires n == Neighbour(c, d) && n !in seen && top' == top + 1
    requires s' == s[top' := n] && edges' == edges + {EdgeOf(c, d)}
    ensures Tracked(s', edges', top', seen + {n}, start)
  {
    TrackedPush(s, edges, top, seen, start, c, d);
  }

  /** The room on top of a tracked stack is the starting room or one entered. */
  lemma TrackedTop(s: seq<Coordinate>, edges: set<Edge>, top: int, seen: set<Coordinate>, start: Coordinate)
    requires Tracked(s, edges, top, seen, start) && 0 <= top < |s|
    ensures s[top] in seen + {start}
  {
  }

  /** Pushing a room just entered keeps the stack rooted. */
  lemma RootedPush(s: seq<Coordinate>, top: int, seen: set<Coordinate>, start: Coordinate, n: Coordinate)
    requires Rooted(s, top, seen, start) && 0 <= top + 1 < |s|
    ensures Rooted(s[top + 1 := n], top + 1, seen + {n}, start)
  {
  }

  /** The carve loop of `backtrackerMaze` on a full grid. Each iteration
      either carves into a new room or backtracks one entry of the stack;
      it ends when `w * h` rooms have been entered, which makes every room
      visited. `ok` is false where the program indexes its stack out of
      range. */
  method CarveAll(rooms: array2<Room>, rng: Random) returns (ok: bool)
    requires rooms.Length0 > 0 && rooms.Length1 > 0
    requires forall y, x :: 0 <= y < rooms.Length0 && 0 <= x < rooms.Length1 ==> rooms[y, x] == FullRoom
    modifies rooms, rng
    ensures Symmetric(rooms) && Closed(rooms) && NoFlags(rooms)
    ensures ok ==> forall y, x :: 0 <= y < rooms.Length0 && 0 <= x < rooms.Length1 ==> rooms[y, x].visited
    ensures ok ==> rooms.Length1 * rooms.Length0 - 1 <= |OpenEdges(rooms)| <= rooms.Length1 * rooms.Length0
    ensures !ok ==> || Stuck(rooms, StartRoom(rng.draws, old(rng.used), rooms.Length1, rooms.Length0))
                    || |VisitedRooms(rooms)| + 1 == rooms.Length0 * rooms.Length1
  {
    var height, width := rooms.Length0, rooms.Length1;
    var stackSize := height * width;
    var stack := new Coordinate[stackSize](_ => Coordinate(0, 0));
    var x := rng.Intn(width);
    var y := rng.Intn(height);
    stack[0] := Coordinate(x, y);
    ok := CarveLoop(rooms, stack, rng);
  }

  /** The loop of the carve, from the room at the bottom of the stack,
      which is not marked visited. */
  method CarveLoop(rooms: array2<Room>, stack: array<Coordinate>, rng: Random) returns (ok: bool)
    requires stack.Length == rooms.Length0 * rooms.Length1 > 0
    requires forall k :: 0 <= k < stack.Length ==> InGrid(rooms, stack[k])
    requires forall y, x :: 0 <= y < rooms.Length0 && 0 <= x < rooms.Length1 ==> rooms[y, x] == FullRoom
    modifies rooms, stack, rng
    ensures Symmetric(rooms) && Closed(rooms) && NoFlags(rooms)
    ensures ok ==> forall y, x :: 0 <= y < rooms.Length0 && 0 <= x < rooms.Length1 ==> rooms[y, x].visited
    ensures ok ==> rooms.Length1 * rooms.Length0 - 1 <= |OpenEdges(rooms)| <= rooms.Length1 * rooms.Length0
    ensures !ok ==> || Stuck(rooms, old(stack[0]))
                    || |VisitedRooms(rooms)| + 1 == rooms.Length0 * rooms.Length1
  {
    FullNoEdges(rooms);
    var height, width := rooms.Length0, rooms.Length1;
    var stackSize := stack.Length;
    var stackIndex := 0;
    var lastCell: int := 5;
    var c := 0;
    ghost var seen: set<Coordinate> := {};
    var cur := stack[0];
    ghost var start := cur;
    while c < stackSize
      invariant Walking(rooms, stack, stackIndex, cur, lastCell, seen) && |seen| == c <= stackSize
      invariant Tracked(stack[..], OpenEdges(rooms), stackIndex, seen, start) && stackIndex <= c
      decreases stackSize - c, stackIndex
    {
      var top', cur', lastCell', carved, ok' := Advance(rooms, stack, stackIndex, cur, lastCell, rng, seen, start);
      if !ok' {
        if carved {
          SeenVisited(rooms, seen);
          assert |VisitedRooms(rooms)| + 1 == stackSize;
        }
        return false;
      }
      if carved {
        AddRoom(seen, cur');
        seen := seen + {cur'};
        c := c + 1;
      }
      stackIndex, cur, lastCell := top', cur', lastCell';
    }
    CellsCount(width, height);
    assert seen <= Cells(width, height);
    FullSubset(seen, Cells(width, height));
    assert start in Cells(width, height);
    ok := true;
  }

  /** One iteration of the carve loop, seen from the loop: the bookkeeping
      of the carve holds again afterwards, for one more room entered or one
      entry fewer on the stack. */
  method Advance(a: array2<Room>, stack: array<Coordinate>, top: int, cur: Coordinate, lastCell: int,
                 rng: Random, ghost seen: set<Coordinate>, ghost start: Coordinate)
    returns (top': int, cur': Coordinate, lastCell': int, carved: bool, ok: bool)
    requires Walking(a, stack, top, cur, lastCell, seen) && Tracked(stack[..], OpenEdges(a), top, seen, start)
    modifies a, stack, rng
    ensures Symmetric(a) && Closed(a) && NoFlags(a)
    ensures ok && carved ==> cur' !in seen && top' == top + 1
    ensures ok && carved ==> Walking(a, stack, top', cur', lastCell', seen + {cur'}) && Tracked(stack[..], OpenEdges(a), top', seen + {cur'}, start)
    ensures ok && !carved ==> top' == top - 1
    ensures ok && !carved ==> Walking(a, stack, top', cur', lastCell', seen) && Tracked(stack[..], OpenEdges(a), top', seen, start)
    ensures !ok && !carved ==> Stuck(a, start)
    ensures !ok && carved ==> top + 1 == stack.Length && Carving(a, seen)
  {
    ghost var side;
    top', cur', lastCell', carved, ok, side := Step(a, stack, top, cur, lastCell, rng, seen, start);
  }

  /** One iteration of the carve loop: scan the neighbours of the current
      room; with no free side pop the stack, otherwise draw a free side,
      carve through it and push the room behind it. `carved` tells the two
      apart; `ok` is false where the stack would be indexed out of range. */
  method Step(a: array2<Room>, stack: array<Coordinate>, top: int, cur: Coordinate, lastCell: int,
              rng: Random, ghost seen: set<Coordinate>, ghost start: Coordinate)
    returns (top': int, cur': Coordinate, lastCell': int, carved: bool, ok: bool, ghost side: Direction)
    requires Walking(a, stack, top, cur, lastCell, seen) && Tracked(stack[..], OpenEdges(a), top, seen, start)
    modifies a, stack, rng
    ensures Symmetric(a) && Closed(a) && NoFlags(a)
    ensures carved ==> InGrid(a, Neighbour(cur, side)) && Neighbour(cur, side) !in seen
    ensures carved ==> !Wall(a[cur.y, cur.x].walls, side) && OpenEdges(a) == old(OpenEdges(a)) + {EdgeOf(cur, side)}
    ensures ok && carved ==> cur' == Neighbour(cur, side) && top' == top + 1
    ensures ok && carved ==> Walking(a, stack, top', cur', lastCell', seen + {cur'}) && Tracked(stack[..], OpenEdges(a), top', seen + {cur'}, start)
    ensures ok && carved ==> stack[..] == old(stack[..])[top' := cur']
    ensures !carved ==> unchanged(a)
    ensures ok && !carved ==> top' == top - 1 && stack[..] == old(stack[..])
    ensures ok && !carved ==> Walking(a, stack, top', cur', lastCell', seen) && Tracked(stack[..], OpenEdges(a), top', seen, start)
    ensures !ok && !carved ==> top == 0 && Stuck(a, cur)
    ensures !ok && carved ==> top + 1 == stack.Length && Carving(a, seen)
  {
    var lastC, free := ScanNeighbours(a, cur, lastCell);
    if free == 0 {
      top', cur', lastCell', ok := StepBack(a, stack, top, cur, lastCell, lastC, seen, start);
      carved, side := false, 0;
    } else {
      ghost var edges, s := OpenEdges(a), stack[..];
      top', cur', lastCell', ok, side := StepCarve(a, stack, top, cur, lastCell, lastC, free, rng, seen);
      carved := true;
      if ok {
        PushedTracked(s, stack[..], edges, OpenEdges(a), top, top', seen, start, cur, side, cur');
      }
    }
  }

  /** The backtracking branch of a step: no side is free, so the room
      below on the stack is resumed; `ok` is false where the program would
      index the stack below its bottom. */
  method StepBack(a: array2<Room>, stack: array<Coordinate>, top: int, cur: Coordinate, lastCell: int,
                  lastC: seq<bool>, ghost seen: set<Coordinate>, ghost start: Coordinate)
    returns (top': int, cur': Coordinate, lastCell': int, ok: bool)
    requires Walking(a, stack, top, cur, lastCell, seen) && Tracked(stack[..], OpenEdges(a), top, seen, start)
    requires |lastC| == 4 && (forall d: Direction :: lastC[d] == Taken(a, cur, d)) && FreeCount(lastC) == 0
    ensures ok ==> top' == top - 1 && Walking(a, stack, top', cur', lastCell', seen) && Tracked(stack[..], OpenEdges(a), top', seen, start)
    ensures !ok ==> top == 0 && Stuck(a, cur)
  {
    FreeCountOfFour(lastC);
    // The program also sets `lastC[lastCell]`; the next scan rewrites it.
    lastCell' := (lastCell + 2) % 4;
    if top == 0 {
      return top, cur, lastCell', false;
    }
    top' := top - 1;
    cur' := stack[top'];
    ok := true;
  }

  /** The carving branch of a step: draw a free side, carve through it and
      push the room behind it; `ok` is false where the push would index
      past the end of the stack. */
  method StepCarve(a: array2<Room>, stack: array<Coordinate>, top: int, cur: Coordinate, lastCell: int,
                   lastC: seq<bool>, free: int, rng: Random, ghost seen: set<Coordinate>)
    returns (top': int, cur': Coordinate, lastCell': int, ok: bool, ghost side: Direction)
    requires Walking(a, stack, top, cur, lastCell, seen)
    requires |lastC| == 4 && (forall d: Direction :: lastC[d] == Taken(a, cur, d))
    requires free == FreeCount(lastC) && free > 0
    modifies a, stack, rng
    ensures Symmetric(a) && Closed(a) && NoFlags(a)
    ensures InGrid(a, Neighbour(cur, side)) && Neighbour(cur, side) !in seen
    ensures !Wall(a[cur.y, cur.x].walls, side) && OpenEdges(a) == old(OpenEdges(a)) + {EdgeOf(cur, side)}
    ensures forall y, x :: 0 <= y < a.Length0 && 0 <= x < a.Length1 ==>
              Coordinate(x, y) == cur || Coordinate(x, y) == Neighbour(cur, side) || a[y, x] == old(a[y, x])
    ensures ok ==> cur' == Neighbour(cur, side) && top' == top + 1
    ensures ok ==> Walking(a, stack, top', cur', lastCell', seen + {cur'}) && stack[..] == old(stack[..])[top' := cur']
    ensures !ok ==> top + 1 == stack.Length && Carving(a, seen)
  {
    var d := PickSide(a, cur, lastC, free, rng);
    side := d;
    top', cur', ok := CarvePush(a, stack, top, cur, lastCell, d, seen);
    lastCell' := Opposite(d);
  }

  /** The carve through free side `d` of the room on top of the stack and
      the push of the room behind it, which in the source share the code of
      both maze generators' carving branch. */
  method CarvePush(a: array2<Room>, stack: array<Coordinate>, top: int, cur: Coordinate, lastCell: int,
                   d: Direction, ghost seen: set<Coordinate>)
    returns (top': int, cur': Coordinate, ok: bool)
    requires Walking(a, stack, top, cur, lastCell, seen) && !Taken(a, cur, d)
    modifies a, stack
    ensures Symmetric(a) && Closed(a) && NoFlags(a)
    ensures InGrid(a, Neighbour(cur, d)) && Neighbour(cur, d) !in seen
    ensures !Wall(a[cur.y, cur.x].walls, d) && OpenEdges(a) == old(OpenEdges(a)) + {EdgeOf(cur, d)}
    ensures forall y, x :: 0 <= y < a.Length0 && 0 <= x < a.Length1 ==>
              Coordinate(x, y) == cur || Coordinate(x, y) == Neighbour(cur, d) || a[y, x] == old(a[y, x])
    ensures ok ==> cur' == Neighbour(cur, d) && top' == top + 1
    ensures ok ==> Walking(a, stack, top', cur', Opposite(d), seen + {cur'}) && stack[..] == old(stack[..])[top' := cur']
    ensures !ok ==> top + 1 == stack.Length && Carving(a, seen)
  {
    var pushed;
    cur', pushed := Carve(a, stack, top, cur, d, seen);
    if !pushed {
      return top, cur', false;
    }
    top' := top + 1;
    ok := true;
  }
}
