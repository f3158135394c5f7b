/** The server's maze: a fixed `rooms[height][width]` grid, Icarus's
    position, the treasure's position and the number of steps taken, with
    the queries and moves the server answers. */
module Daedalus {
  import opened Mazelib

  /** `c` names a room of the grid (rows are the first index). */
  predicate InGrid(a: array2<Room>, c: Coordinate) {
    Inside(a.Length1, a.Length0, c)
  }

  /** Rooms that share an edge agree on the wall between them. */
  ghost predicate Symmetric(a: array2<Room>)
    reads a
  {
    && (forall y, x, x' :: 0 <= y < a.Length0 && 0 <= x && x' == x + 1 && x' < a.Length1 ==>
          a[y, x].walls.right == a[y, x'].walls.left)
    && (forall y, y', x :: 0 <= y && y' == y + 1 && y' < a.Length0 && 0 <= x < a.Length1 ==>
          a[y, x].walls.bottom == a[y', x].walls.top)
  }

  /** Every side on the grid's perimeter carries a wall: a side of a room
      that faces no room of the grid is walled. */
  ghost predicate Closed(a: array2<Room>)
    reads a
  {
    forall y, x, d: Direction ::
      (0 <= y < a.Length0 && 0 <= x < a.Length1 && !InGrid(a, Neighbour(Coordinate(x, y), d))) ==>
        Wall(a[y, x].walls, d)
  }

  /** From a room of a closed grid, every open side leads to a room of the grid. */
  lemma ClosedKeepsInside(a: array2<Room>, c: Coordinate, d: Direction)
    requires Closed(a) && InGrid(a, c)
    requires !Wall(a[c.y, c.x].walls, d)
    ensures InGrid(a, Neighbour(c, d))
  {
  }

  /** No room carries the start or the treasure flag. */
  ghost predicate NoFlags(a: array2<Room>)
    reads a
  {
    forall y, x :: 0 <= y < a.Length0 && 0 <= x < a.Length1 ==> !a[y, x].start && !a[y, x].treasure
  }

  class Maze {
    var rooms: array2<Room>
    var end: Coordinate
    var icarus: Coordinate
    var stepsTaken: int

    /** The grid has a first row, so that its width is defined. */
    predicate Valid()
      reads this
    {
      rooms.Length0 > 0
    }

    /** A maze of `height` rows of `width` rooms without walls or flags. */
    constructor Empty(width: nat, height: nat)
      ensures fresh(rooms)
      ensures rooms.Length0 == height && rooms.Length1 == width
      ensures forall y, x :: 0 <= y < height && 0 <= x < width ==> rooms[y, x] == EmptyRoom
      ensures end == Coordinate(0, 0) && icarus == Coordinate(0, 0) && stepsTaken == 0
    {
      rooms := new Room[height, width]((y, x) => EmptyRoom);
      end := Coordinate(0, 0);
      icarus := Coordinate(0, 0);
      stepsTaken := 0;
    }

    function Width(): nat
      reads this
      requires Valid()
    {
      rooms.Length1
    }

    function Height(): nat
      reads this
    {
      rooms.Length0
    }

    /** The room at column `x`, row `y`, or an error outside the grid. */
    function GetRoom(x: int, y: int): (r: Result<Room>)
      reads this, rooms
      requires Valid()
      ensures r.Failure? <==> x < 0 || y < 0 || x >= Width() || y >= Height()
      ensures r.Failure? ==> r.error == OutOfBounds
      ensures r.Success? ==> r.value == rooms[y, x]
    {
      if x < 0 || y < 0 || x >= Width() || y >= Height() then Failure(OutOfBounds)
      else Success(rooms[y, x])
    }

    /** Puts Icarus's start at (x, y) unless that room is outside the grid
        or holds the treasure; a refusal changes nothing. */
    method SetStartPoint(x: int, y: int) returns (r: Outcome)
      requires Valid()
      modifies this`icarus, rooms
      ensures old(GetRoom(x, y)).Failure? ==> r == Fail(OutOfBounds)
      ensures old(GetRoom(x, y)).Success? && old(rooms[y, x].treasure) ==> r == Fail(StartInTreasure)
      ensures r.Pass? <==> InGrid(rooms, Coordinate(x, y)) && !old(rooms[y, x].treasure)
      ensures r.Fail? ==> icarus == old(icarus) && unchanged(rooms)
      ensures r.Pass? ==> icarus == Coordinate(x, y) && rooms[y, x] == old(rooms[y, x]).(start := true)
      ensures forall j, i :: 0 <= j < rooms.Length0 && 0 <= i < rooms.Length1 && (j, i) != (y, x) ==>
                rooms[j, i] == old(rooms[j, i])
    {
      var room := GetRoom(x, y);
      if room.Failure? {
        return Fail(room.error);
      }
      if room.value.treasure {
        return Fail(StartInTreasure);
      }
      rooms[y, x] := room.value.(start := true);
      icarus := Coordinate(x, y);
      return Pass;
    }

    /** Puts the treasure at (x, y) unless that room is outside the grid or
        is Icarus's start; a refusal changes nothing. */
    method SetTreasure(x: int, y: int) returns (r: Outcome)
      requires Valid()
      modifies this`end, rooms
      ensures old(GetRoom(x, y)).Failure? ==> r == Fail(OutOfBounds)
      ensures old(GetRoom(x, y)).Success? && old(rooms[y, x].start) ==> r == Fail(TreasureAtStart)
      ensures r.Pass? <==> InGrid(rooms, Coordinate(x, y)) && !old(rooms[y, x].start)
      ensures r.Fail? ==> end == old(end) && unchanged(rooms)
      ensures r.Pass? ==> end == Coordinate(x, y) && rooms[y, x] == old(rooms[y, x]).(treasure := true)
      ensures forall j, i :: 0 <= j < rooms.Length0 && 0 <= i < rooms.Length1 && (j, i) != (y, x) ==>
                rooms[j, i] == old(rooms[j, i])
    {
      var room := GetRoom(x, y);
      if room.Failure? {
        return Fail(room.error);
      }
      if room.value.start {
        return Fail(TreasureAtStart);
      }
      rooms[y, x] := room.value.(treasure := true);
      end := Coordinate(x, y);
      return Pass;
    }

    /** The walls of room (x, y). Outside the grid the answer is a survey
        without walls and, as in the program, still no error. */
    function Discover(x: int, y: int): (r: Result<Survey>)
      reads this, rooms
      requires Valid()
      ensures r.Success?
      ensures InGrid(rooms, Coordinate(x, y)) ==> r.value == rooms[y, x].walls
      ensures !InGrid(rooms, Coordinate(x, y)) ==> r.value == NoWalls
    {
      var room := GetRoom(x, y);
      if room.Failure? then Success(NoWalls) else Success(room.value.walls)
    }

    /** The walls of Icarus's room, or Victory when he stands on the treasure. */
    function LookAround(): (r: Result<Survey>)
      reads this, rooms
      requires Valid()
      ensures r.Failure? <==> icarus == end
      ensures r.Failure? ==> r.error == Victory
      ensures r.Success? ==> r.value == Discover(icarus.x, icarus.y).value
    {
      if end == icarus then Failure(Victory) else Discover(icarus.x, icarus.y)
    }

    /** One step in direction `d` (MoveUp, MoveRight, MoveDown, MoveLeft for
        d = 0, 1, 2, 3). Checked in order: Victory if already on the
        treasure, then the wall on that side, then the destination's
        bounds; any failure changes nothing, a success moves one room and
        counts one step. */
    method Move(d: Direction) returns (r: Outcome)
      requires Valid()
      modifies this`icarus, this`stepsTaken
      ensures old(icarus) == end ==> r == Fail(Victory)
      ensures old(icarus) != end && Wall(Discover(old(icarus).x, old(icarus).y).value, d) ==>
                r == Fail(Blocked)
      ensures (old(icarus) != end && !Wall(Discover(old(icarus).x, old(icarus).y).value, d)
                && !InGrid(rooms, Neighbour(old(icarus), d))) ==> r == Fail(OutOfBounds)
      ensures r.Pass? <==> (old(icarus) != end && !Wall(Discover(old(icarus).x, old(icarus).y).value, d)
                && InGrid(rooms, Neighbour(old(icarus), d)))
      ensures r.Pass? ==> icarus == Neighbour(old(icarus), d) && stepsTaken == old(stepsTaken) + 1
      ensures r.Fail? ==> icarus == old(icarus) && stepsTaken == old(stepsTaken)
      ensures Closed(rooms) && InGrid(rooms, old(icarus)) ==> r != Fail(OutOfBounds)
    {
      var s := LookAround();
      if s.Failure? {
        return Fail(s.error);
      }
      if Wall(s.value, d) {
        return Fail(Blocked);
      }
      var next := Neighbour(icarus, d);
      var room := GetRoom(next.x, next.y);
      if room.Failure? {
        if Closed(rooms) && InGrid(rooms, icarus) {
          ClosedKeepsInside(rooms, icarus, d);
        }
        return Fail(room.error);
      }
      icarus := next;
      stepsTaken := stepsTaken + 1;
      return Pass;
    }
  }
}
