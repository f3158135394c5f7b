/** What every generator shares: the full maze it starts from, the write
    that sets the wall between two rooms on both sides, and the final
    random placement of Icarus and the treasure. */
module Grid {
  import opened Mazelib
  import opened Daedalus
  import opened Oracle

  /** A room carrying all four walls and no flag. */
  const FullRoom := Room(AllWalls, false, false, false)

  /** `r` with its wall on side `d` set to `b`. */
  function WithWall(r: Room, d: Direction, b: bool): Room {
    r.(walls := SetWall(r.walls, d, b))
  }

  /** The grid after `SetEdge(a, c, d, b)`, room by room. */
  ghost function AfterEdge(old_: Room, y: int, x: int, c: Coordinate, d: Direction, b: bool): Room {
    if Coordinate(x, y) == c then WithWall(old_, d, b)
    else if Coordinate(x, y) == Neighbour(c, d) then WithWall(old_, Opposite(d), b)
    else old_
  }

  /** Sets the wall on side `d` of room `c` to `b` and, when the room across
      that side lies in the grid, the facing wall of that room as well: the
      pair of writes every generator performs for one shared edge. */
  method SetEdge(a: array2<Room>, c: Coordinate, d: Direction, b: bool)
    requires InGrid(a, c)
    modifies a
    ensures forall y, x :: 0 <= y < a.Length0 && 0 <= x < a.Length1 ==>
              a[y, x] == AfterEdge(old(a[y, x]), y, x, c, d, b)
    ensures old(Symmetric(a)) ==> Symmetric(a)
    ensures old(Closed(a)) && (b || InGrid(a, Neighbour(c, d))) ==> Closed(a)
  {
    WriteEdge(a, c, d, b);
    if old(Closed(a)) && (b || InGrid(a, Neighbour(c, d))) {
      forall y, x, e: Direction | 0 <= y < a.Length0 && 0 <= x < a.Length1 &&
          !InGrid(a, Neighbour(Coordinate(x, y), e))
        ensures Wall(a[y, x].walls, e)
      {
        assert a[y, x] == AfterEdge(old(a[y, x]), y, x, c, d, b);
        if Coordinate(x, y) == Neighbour(c, d) {
          NeighbourBack(c, d);
        }
      }
    }
  }

  /** `SetEdge` without its proof of closedness: the writes and the
      symmetry they keep. */
  method WriteEdge(a: array2<Room>, c: Coordinate, d: Direction, b: bool)
    requires InGrid(a, c)
    modifies a
    ensures forall y, x :: 0 <= y < a.Length0 && 0 <= x < a.Length1 ==>
              a[y, x] == AfterEdge(old(a[y, x]), y, x, c, d, b)
    ensures old(Symmetric(a)) ==> Symmetric(a)
  {
    WriteRooms(a, c, d, b);
    if old(Symmetric(a)) {
      forall y, x, x' | 0 <= y < a.Length0 && 0 <= x && x' == x + 1 && x' < a.Length1
        ensures a[y, x].walls.right == a[y, x'].walls.left
      {
        var p, q := Coordinate(x, y), Coordinate(x', y);
        assert a[y, x] == AfterEdge(old(a[y, x]), y, x, c, d, b);
        assert a[y, x'] == AfterEdge(old(a[y, x']), y, x', c, d, b);
        if (p == c && d == 1) || (q == c && d == 3) {
        } else {
          assert a[y, x].walls.right == old(a[y, x].walls.right) by {
            assert Wall(a[y, x].walls, 1) == Wall(old(a[y, x].walls), 1);
          }
          assert a[y, x'].walls.left == old(a[y, x'].walls.left) by {
            assert Wall(a[y, x'].walls, 3) == Wall(old(a[y, x'].walls), 3);
          }
        }
      }
      forall y, y', x | 0 <= y && y' == y + 1 && y' < a.Length0 && 0 <= x < a.Length1
        ensures a[y, x].walls.bottom == a[y', x].walls.top
      {
        var p, q := Coordinate(x, y), Coordinate(x, y');
        assert a[y, x] == AfterEdge(old(a[y, x]), y, x, c, d, b);
        assert a[y', x] == AfterEdge(old(a[y', x]), y', x, c, d, b);
        if (p == c && d == 2) || (q == c && d == 0) {
        } else {
          assert a[y, x].walls.bottom == old(a[y, x].walls.bottom) by {
            assert Wall(a[y, x].walls, 2) == Wall(old(a[y, x].walls), 2);
          }
          assert a[y', x].walls.top == old(a[y', x].walls.top) by {
            assert Wall(a[y', x].walls, 0) == Wall(old(a[y', x].walls), 0);
          }
        }
      }
    }
  }

  /** The two writes of `SetEdge`. */
  method WriteRooms(a: array2<Room>, c: Coordinate, d: Direction, b: bool)
    requires InGrid(a, c)
    modifies a
    ensures forall y, x :: 0 <= y < a.Length0 && 0 <= x < a.Length1 ==>
              a[y, x] == AfterEdge(old(a[y, x]), y, x, c, d, b)
  {
    var n := Neighbour(c, d);
    a[c.y, c.x] := WithWall(a[c.y, c.x], d, b);
    if InGrid(a, n) {
      a[n.y, n.x] := WithWall(a[n.y, n.x], Opposite(d), b);
    }
  }

  // ----- the open edges -----

  /** An edge between two rooms, named by the room left of it or above it:
      the right side of that room when `right` holds, its bottom side
      otherwise. */
  datatype Edge = Edge(x: int, y: int, right: bool)

  /** The edge on side `d` of room `c`. */
  function EdgeOf(c: Coordinate, d: Direction): (e: Edge)
    ensures (Coordinate(e.x, e.y) == c && Across(e) == Neighbour(c, d))
         || (Coordinate(e.x, e.y) == Neighbour(c, d) && Across(e) == c)
  {
    if d == 0 then Edge(c.x, c.y - 1, false)
    else if d == 1 then Edge(c.x, c.y, true)
    else if d == 2 then Edge(c.x, c.y, false)
    else Edge(c.x - 1, c.y, true)
  }

  /** The room on the far side of edge `e`: right of or below the room
      naming it. */
  function Across(e: Edge): Coordinate {
    if e.right then Coordinate(e.x + 1, e.y) else Coordinate(e.x, e.y + 1)
  }

  /** Edge `e` lies between two rooms of the grid and carries no wall. */
  ghost predicate IsOpen(a: array2<Room>, e: Edge)
    reads a
  {
    && InGrid(a, Coordinate(e.x, e.y)) && InGrid(a, Across(e))
    && !Wall(a[e.y, e.x].walls, if e.right then 1 else 2)
  }

  /** The open edges of the grid: the passages carved so far. */
  ghost function OpenEdges(a: array2<Room>): set<Edge>
    reads a
  {
    set x, y, r: bool | 0 <= x < a.Length1 && 0 <= y < a.Length0 && IsOpen(a, Edge(x, y, r)) :: Edge(x, y, r)
  }

  /** Every edge of `edges` lies between two rooms of `rooms`. */
  ghost predicate Between(edges: set<Edge>, rooms: set<Coordinate>) {
    forall e :: e in edges ==> Coordinate(e.x, e.y) in rooms && Across(e) in rooms
  }

  /** Every open edge of the grid lies between two rooms of `rooms`. */
  ghost predicate Joins(a: array2<Room>, rooms: set<Coordinate>)
    reads a
  {
    Between(OpenEdges(a), rooms)
  }

  /** An edge from a room of `rooms` to a room outside it is none of the
      edges between rooms of `rooms`; adding both keeps that so, and each
      set grows by one. */
  lemma {:induction false} TreeGrows(edges: set<Edge>, rooms: set<Coordinate>, c: Coordinate, d: Direction)
    requires Between(edges, rooms) && c in rooms && Neighbour(c, d) !in rooms
    ensures EdgeOf(c, d) !in edges && |edges + {EdgeOf(c, d)}| == |edges| + 1
    ensures Between(edges + {EdgeOf(c, d)}, rooms + {Neighbour(c, d)})
    ensures |rooms + {Neighbour(c, d)}| == |rooms| + 1
  {
  }

  /** Membership of `OpenEdges`, spelled out. */
  lemma OpenMember(a: array2<Room>, e: Edge)
    ensures e in OpenEdges(a) <==> IsOpen(a, e)
  {
    if IsOpen(a, e) {
      assert e == Edge(e.x, e.y, e.right);
    }
  }

  /** A grid whose rooms all carry four walls has no open edge. */
  lemma FullNoEdges(a: array2<Room>)
    requires forall y, x :: 0 <= y < a.Length0 && 0 <= x < a.Length1 ==> a[y, x] == FullRoom
    ensures OpenEdges(a) == {}
  {
  }

  /** Knocks down the wall on side `d` of room `c`, whose neighbour there
      lies in the grid: `SetEdge` with `b` false. Only walls change, so
      symmetry, closedness, the flags and the visited marks all survive,
      and the open edges gain the one knocked down. */
  method OpenEdge(a: array2<Room>, c: Coordinate, d: Direction)
    requires InGrid(a, c) && InGrid(a, Neighbour(c, d))
    modifies a
    ensures forall y, x :: 0 <= y < a.Length0 && 0 <= x < a.Length1 ==>
              a[y, x] == AfterEdge(old(a[y, x]), y, x, c, d, false)
    ensures old(Symmetric(a)) ==> Symmetric(a)
    ensures old(Closed(a)) ==> Closed(a)
    ensures forall y, x :: 0 <= y < a.Length0 && 0 <= x < a.Length1 ==>
              a[y, x] == old(a[y, x]).(walls := a[y, x].walls)
    ensures OpenEdges(a) == old(OpenEdges(a)) + {EdgeOf(c, d)}
  {
    ghost var before := OpenEdges(a);
    ghost var knocked := EdgeOf(c, d);
    assert forall e :: e in before <==> old(IsOpen(a, e)) by {
      forall e ensures e in before <==> old(IsOpen(a, e)) {
        OpenMember(a, e);
      }
    }
    SetEdge(a, c, d, false);
    forall y, x | 0 <= y < a.Length0 && 0 <= x < a.Length1
      ensures a[y, x] == old(a[y, x]).(walls := a[y, x].walls)
    {
      assert a[y, x] == AfterEdge(old(a[y, x]), y, x, c, d, false);
    }
    forall e ensures e in OpenEdges(a) <==> e in before || e == knocked {
      OpenMember(a, e);
      var p := Coordinate(e.x, e.y);
      var s: Direction := if e.right then 1 else 2;
      if InGrid(a, p) {
        assert a[e.y, e.x] == AfterEdge(old(a[e.y, e.x]), e.y, e.x, c, d, false);
        if (p == c && s == d) || (p == Neighbour(c, d) && s == Opposite(d)) {
          assert e == knocked;
        } else {
          assert Wall(a[e.y, e.x].walls, s) == old(Wall(a[e.y, e.x].walls, s));
          assert e != knocked;
        }
      }
    }
  }

  /** Neighbouring rooms of the layout `f` agree on the wall they share. */
  ghost predicate LayoutAgrees(a: array2<Room>, f: Coordinate -> Survey) {
    forall c: Coordinate, d: Direction :: InGrid(a, c) && InGrid(a, Neighbour(c, d)) ==>
      Wall(f(c), d) == Wall(f(Neighbour(c, d)), Opposite(d))
  }

  /** Every side of the layout `f` facing out of the grid is a wall. */
  ghost predicate LayoutClosed(a: array2<Room>, f: Coordinate -> Survey) {
    forall c: Coordinate, d: Direction :: InGrid(a, c) && !InGrid(a, Neighbour(c, d)) ==> Wall(f(c), d)
  }

  /** The walls of `a` are those of the layout `f`. */
  ghost predicate Follows(a: array2<Room>, f: Coordinate -> Survey)
    reads a
  {
    forall y, x :: 0 <= y < a.Length0 && 0 <= x < a.Length1 ==> a[y, x].walls == f(Coordinate(x, y))
  }

  /** A grid whose walls follow a layout in which neighbouring rooms agree
      on the wall they share and every side facing out of the grid is a
      wall is symmetric and closed. */
  lemma LayoutConsistent(a: array2<Room>, f: Coordinate -> Survey)
    requires Follows(a, f) && LayoutAgrees(a, f) && LayoutClosed(a, f)
    ensures Symmetric(a) && Closed(a)
  {
    LayoutRows(a, f);
    LayoutColumns(a, f);
    forall y, x, d: Direction | 0 <= y < a.Length0 && 0 <= x < a.Length1 && !InGrid(a, Neighbour(Coordinate(x, y), d))
      ensures Wall(a[y, x].walls, d)
    {
      assert a[y, x].walls == f(Coordinate(x, y));
    }
  }

  lemma LayoutRows(a: array2<Room>, f: Coordinate -> Survey)
    requires Follows(a, f) && LayoutAgrees(a, f)
    ensures forall y, x, x' :: 0 <= y < a.Length0 && 0 <= x && x' == x + 1 && x' < a.Length1 ==>
              a[y, x].walls.right == a[y, x'].walls.left
  {
    forall y, x, x' | 0 <= y < a.Length0 && 0 <= x && x' == x + 1 && x' < a.Length1
      ensures a[y, x].walls.right == a[y, x'].walls.left
    {
      var c := Coordinate(x, y);
      assert Neighbour(c, 1) == Coordinate(x', y);
      assert a[y, x].walls == f(c) && a[y, x'].walls == f(Coordinate(x', y));
      assert Wall(f(c), 1) == Wall(f(Neighbour(c, 1)), Opposite(1));
    }
  }

  lemma LayoutColumns(a: array2<Room>, f: Coordinate -> Survey)
    requires Follows(a, f) && LayoutAgrees(a, f)
    ensures forall y, y', x :: 0 <= y && y' == y + 1 && y' < a.Length0 && 0 <= x < a.Length1 ==>
              a[y, x].walls.bottom == a[y', x].walls.top
  {
    forall y, y', x | 0 <= y && y' == y + 1 && y' < a.Length0 && 0 <= x < a.Length1
      ensures a[y, x].walls.bottom == a[y', x].walls.top
    {
      var c := Coordinate(x, y);
      assert Neighbour(c, 2) == Coordinate(x, y');
      assert a[y, x].walls == f(c) && a[y', x].walls == f(Coordinate(x, y'));
      assert Wall(f(c), 2) == Wall(f(Neighbour(c, 2)), Opposite(2));
    }
  }

  /** Marks room `c` visited; walls, and with them symmetry and
      closedness, are untouched. */
  method MarkVisited(a: array2<Room>, c: Coordinate)
    requires InGrid(a, c)
    modifies a
    ensures a[c.y, c.x] == old(a[c.y, c.x]).(visited := true)
    ensures forall y, x :: 0 <= y < a.Length0 && 0 <= x < a.Length1 && Coordinate(x, y) != c ==> a[y, x] == old(a[y, x])
    ensures old(Symmetric(a)) ==> Symmetric(a)
    ensures old(Closed(a)) ==> Closed(a)
    ensures OpenEdges(a) == old(OpenEdges(a))
  {
    ghost var before := OpenEdges(a);
    assert forall e :: e in before <==> old(IsOpen(a, e)) by {
      forall e ensures e in before <==> old(IsOpen(a, e)) {
        OpenMember(a, e);
      }
    }
    a[c.y, c.x] := a[c.y, c.x].(visited := true);
    assert forall y, x :: 0 <= y < a.Length0 && 0 <= x < a.Length1 ==> a[y, x].walls == old(a[y, x].walls);
    forall e ensures e in OpenEdges(a) <==> e in before {
      OpenMember(a, e);
    }
  }

  /** `fullMaze`: a `height` x `width` grid whose rooms all carry four walls. */
  method FullMaze(width: nat, height: nat) returns (m: Maze)
    ensures fresh(m) && fresh(m.rooms)
    ensures m.rooms.Length0 == height && m.rooms.Length1 == width
    ensures forall y, x :: 0 <= y < height && 0 <= x < width ==> m.rooms[y, x] == FullRoom
    ensures m.end == Coordinate(0, 0) && m.icarus == Coordinate(0, 0) && m.stepsTaken == 0
  {
    m := new Maze.Empty(width, height);
    var rooms := m.rooms;
    for y := 0 to height
      invariant m.rooms == rooms && m.end == Coordinate(0, 0) && m.icarus == Coordinate(0, 0) && m.stepsTaken == 0
      invariant forall j, i :: 0 <= j < height && 0 <= i < width ==>
                  rooms[j, i] == if j < y then FullRoom else EmptyRoom
    {
      for x := 0 to width
        invariant m.rooms == rooms && m.end == Coordinate(0, 0) && m.icarus == Coordinate(0, 0) && m.stepsTaken == 0
        invariant forall j, i :: 0 <= j < height && 0 <= i < width ==>
                    rooms[j, i] == if j < y || (j == y && i < x) then FullRoom else EmptyRoom
      {
        rooms[y, x] := rooms[y, x].(walls := AllWalls);
      }
    }
  }

  /** Icarus and the treasure stand in two distinct rooms of the grid,
      each room carrying its flag. */
  ghost predicate Placed(m: Maze)
    reads m, m.rooms
  {
    && m.icarus != m.end && InGrid(m.rooms, m.icarus) && InGrid(m.rooms, m.end)
    && m.rooms[m.icarus.y, m.icarus.x].start && m.rooms[m.end.y, m.end.x].treasure
  }

  /** Only Icarus's room may carry the start flag, only the treasure room the treasure flag. */
  ghost predicate FlagsAt(m: Maze)
    reads m, m.rooms
  {
    forall y, x :: 0 <= y < m.rooms.Length0 && 0 <= x < m.rooms.Length1 ==>
      && (m.rooms[y, x].start ==> Coordinate(x, y) == m.icarus)
      && (m.rooms[y, x].treasure ==> Coordinate(x, y) == m.end)
  }

  /** The draws of the placement: a start and a treasure room of a `xSize`
      by `ySize` grid, the treasure redrawn while both are the same room.
      Unless the draws run out, the two rooms are distinct. */
  method DrawPlaces(xSize: int, ySize: int, rng: Random) returns (icarusX: int, icarusY: int, treasureX: int, treasureY: int)
    requires xSize > 0 && ySize > 0
    modifies rng
    ensures 0 <= icarusX < xSize && 0 <= icarusY < ySize && 0 <= treasureX < xSize && 0 <= treasureY < ySize
    ensures !rng.Exhausted() ==> (icarusX, icarusY) != (treasureX, treasureY)
    ensures old(rng.Exhausted()) ==> rng.Exhausted()
  {
    icarusX := rng.Intn(xSize);
    icarusY := rng.Intn(ySize);
    treasureX := rng.Intn(xSize);
    treasureY := rng.Intn(ySize);
    while icarusX == treasureX && icarusY == treasureY && !rng.Exhausted()
      invariant 0 <= treasureX < xSize && 0 <= treasureY < ySize
      invariant old(rng.Exhausted()) ==> rng.Exhausted()
      decreases |rng.draws| + 1 - rng.used
    {
      treasureX := rng.Intn(xSize);
      treasureY := rng.Intn(ySize);
    }
  }

  /** The placement every generator ends with: draw a start and a treasure
      room, redraw the treasure while both are the same room, then set the
      start and the treasure. With enough draws the two are distinct rooms
      of the grid, each carrying its flag, and no other room carries one;
      walls and visited marks are untouched. */
  method PlaceIcarusAndTreasure(m: Maze, rng: Random)
    requires m.Valid() && m.rooms.Length1 > 0 && NoFlags(m.rooms)
    modifies m`icarus, m`end, m.rooms, rng
    ensures !rng.Exhausted() ==> Placed(m)
    ensures old(rng.Exhausted()) ==> rng.Exhausted()
    ensures FlagsAt(m)
    ensures forall y, x :: 0 <= y < m.rooms.Length0 && 0 <= x < m.rooms.Length1 ==>
              m.rooms[y, x].walls == old(m.rooms[y, x].walls) && m.rooms[y, x].visited == old(m.rooms[y, x].visited)
    ensures OpenEdges(m.rooms) == old(OpenEdges(m.rooms))
  {
    ghost var before := OpenEdges(m.rooms);
    assert forall e :: e in before <==> old(IsOpen(m.rooms, e)) by {
      forall e ensures e in before <==> old(IsOpen(m.rooms, e)) {
        OpenMember(m.rooms, e);
      }
    }
    var icarusX, icarusY, treasureX, treasureY := DrawPlaces(m.rooms.Length1, m.rooms.Length0, rng);
    var s := m.SetStartPoint(icarusX, icarusY);
    assert s.Pass?;
    var t := m.SetTreasure(treasureX, treasureY);
    assert (icarusX, icarusY) != (treasureX, treasureY) ==> t.Pass?;
    forall e ensures e in OpenEdges(m.rooms) <==> e in before {
      OpenMember(m.rooms, e);
    }
  }
}
