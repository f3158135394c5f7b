/** The generators with a fixed wall layout: the void maze (walls on the
    perimeter only) and the two "spiky" combs. Each builds its grid room by
    room in the program's loop order and then places Icarus and the
    treasure at random. */
module FixedMazes {
  import opened Mazelib
  import opened Daedalus
  import opened Oracle
  import opened Grid

  // ----- voidMaze -----

  /** The walls of room `c` of the void maze: a wall exactly on each side
      that faces out of the grid. */
  function VoidWalls(w: int, h: int, c: Coordinate): (s: Survey)
    ensures forall d: Direction :: Inside(w, h, c) ==> (Wall(s, d) <==> !Inside(w, h, Neighbour(c, d)))
  {
    Survey(c.y == 0, c.x == w - 1, c.y == h - 1, c.x == 0)
  }

  /** `voidMaze`: an empty grid, then walls on the four borders. */
  method VoidMaze(width: nat, height: nat, rng: Random) returns (m: Maze)
    requires width > 0 && height > 0
    modifies rng
    ensures fresh(m) && fresh(m.rooms)
    ensures m.rooms.Length0 == height && m.rooms.Length1 == width
    ensures forall y, x :: 0 <= y < height && 0 <= x < width ==>
              m.rooms[y, x].walls == VoidWalls(width, height, Coordinate(x, y)) && !m.rooms[y, x].visited
    ensures !rng.Exhausted() ==> Placed(m)
    ensures FlagsAt(m)
  {
    m := new Maze.Empty(width, height);
    var rooms := m.rooms;
    for x := 0 to width
      invariant m.rooms == rooms
      invariant forall j, i :: 0 <= j < height && 0 <= i < width ==>
                  rooms[j, i] == if i < x then Room(VoidWalls(width, height, Coordinate(i, j)), false, false, false)
                                 else EmptyRoom
    {
      for y := 0 to height
        invariant m.rooms == rooms
        invariant forall j, i :: 0 <= j < height && 0 <= i < width ==>
                    rooms[j, i] == if i < x || (i == x && j < y)
                                   then Room(VoidWalls(width, height, Coordinate(i, j)), false, false, false)
                                   else EmptyRoom
      {
        var walls := rooms[y, x].walls;
        if x == 0 {
          walls := walls.(left := true);
        }
        if x == width - 1 {
          walls := walls.(right := true);
        }
        if y == 0 {
          walls := walls.(top := true);
        }
        if y == height - 1 {
          walls := walls.(bottom := true);
        }
        rooms[y, x] := rooms[y, x].(walls := walls);
      }
    }
    PlaceIcarusAndTreasure(m, rng);
  }

  // ----- spikyHorizontalMaze -----

  /** The walls of room `c` of the horizontal comb: every row is open from
      the left border to the middle column and from the column after it to
      the right border; the two halves meet only in the top and bottom rows;
      the left and right border columns are open vertically; the right
      border column is cut once more between rows `h/2` and `h/2 + 1`. */
  function SpikyHorizontalWalls(w: int, h: int, c: Coordinate): (s: Survey)
    ensures forall d: Direction :: Inside(w, h, c) && !Inside(w, h, Neighbour(c, d)) ==> Wall(s, d)
  {
    var mx, my := w / 2, h / 2;
    var inner := 0 < c.y < h - 1;
    var border := c.x == 0 || c.x == w - 1;
    Survey(
      !(border && c.y > 0) || (c.x == w - 1 && c.y == my + 1),
      c.x == w - 1 || (c.x == mx && inner),
      !(border && c.y < h - 1) || (c.x == w - 1 && c.y == my),
      c.x == 0 || (c.x == mx + 1 && inner))
  }

  /** Adjacent rooms of the horizontal comb agree on the wall between them. */
  lemma SpikyHorizontalAgree(w: int, h: int, c: Coordinate, d: Direction)
    requires w >= 3 && h >= 3
    requires Inside(w, h, c) && Inside(w, h, Neighbour(c, d))
    ensures Wall(SpikyHorizontalWalls(w, h, c), d) == Wall(SpikyHorizontalWalls(w, h, Neighbour(c, d)), Opposite(d))
  {
  }

  /** The walls the loop of `spikyHorizontalMaze` leaves in room (x, y),
      before the four fixes of the middle column and the cut of the right
      border column. */
  function SpikyHorizontalLoop(w: int, h: int, x: int, y: int): Survey
  {
    var border := x == 0 || x == w - 1;
    Survey(!(border && y > 0), !(x < w - 1 && x != w / 2), !(border && y < h - 1), !(x > 0 && x != w / 2 + 1))
  }

  /** `spikyHorizontalMaze`. The program indexes rows `h/2 + 1` and columns
      `w/2 + 1` after its loop, so it needs at least three rows and three
      columns. */
  method SpikyHorizontalMaze(width: nat, height: nat, rng: Random) returns (m: Maze)
    requires width >= 3 && height >= 3
    modifies rng
    ensures fresh(m) && fresh(m.rooms)
    ensures m.rooms.Length0 == height && m.rooms.Length1 == width
    ensures forall y, x :: 0 <= y < height && 0 <= x < width ==>
              m.rooms[y, x].walls == SpikyHorizontalWalls(width, height, Coordinate(x, y)) && !m.rooms[y, x].visited
    ensures !rng.Exhausted() ==> Placed(m)
    ensures FlagsAt(m)
  {
    m := FullMaze(width, height);
    var rooms := m.rooms;
    var middleX, middleY := width / 2, height / 2;
    for x := 0 to width
      invariant m.rooms == rooms
      invariant forall j, i :: 0 <= j < height && 0 <= i < width ==>
                  rooms[j, i] == if i < x then Room(SpikyHorizontalLoop(width, height, i, j), false, false, false)
                                 else FullRoom
    {
      for y := 0 to height
        invariant m.rooms == rooms
        invariant forall j, i :: 0 <= j < height && 0 <= i < width ==>
                    rooms[j, i] == if i < x || (i == x && j < y)
                                   then Room(SpikyHorizontalLoop(width, height, i, j), false, false, false)
                                   else FullRoom
      {
        var walls := rooms[y, x].walls;
        if x > 0 && x != middleX + 1 {
          walls := walls.(left := false);
        }
        if x < width - 1 && x != middleX {
          walls := walls.(right := false);
        }
        if x == 0 && y > 0 {
          walls := walls.(top := false);
        }
        if x == 0 && y < height - 1 {
          walls := walls.(bottom := false);
        }
        if x == width - 1 && y > 0 {
          walls := walls.(top := false);
        }
        if x == width - 1 && y < height - 1 {
          walls := walls.(bottom := false);
        }
        rooms[y, x] := rooms[y, x].(walls := walls);
      }
    }
    JoinHalves(rooms);
    PlaceIcarusAndTreasure(m, rng);
  }

  /** The writes after the loop of `spikyHorizontalMaze`: the two halves
      are joined in the top and bottom rows, and the right border column is
      cut below row `h/2`. */
  method JoinHalves(rooms: array2<Room>)
    requires rooms.Length1 >= 3 && rooms.Length0 >= 3
    requires forall j, i :: 0 <= j < rooms.Length0 && 0 <= i < rooms.Length1 ==>
               rooms[j, i] == Room(SpikyHorizontalLoop(rooms.Length1, rooms.Length0, i, j), false, false, false)
    modifies rooms
    ensures forall j, i :: 0 <= j < rooms.Length0 && 0 <= i < rooms.Length1 ==>
              rooms[j, i] == Room(SpikyHorizontalWalls(rooms.Length1, rooms.Length0, Coordinate(i, j)), false, false, false)
  {
    var width, height := rooms.Length1, rooms.Length0;
    var middleX, middleY := width / 2, height / 2;
    rooms[0, middleX] := rooms[0, middleX].(walls := rooms[0, middleX].walls.(right := false));
    rooms[height - 1, middleX] := rooms[height - 1, middleX].(walls := rooms[height - 1, middleX].walls.(right := false));
    rooms[0, middleX + 1] := rooms[0, middleX + 1].(walls := rooms[0, middleX + 1].walls.(left := false));
    rooms[height - 1, middleX + 1] :=
      rooms[height - 1, middleX + 1].(walls := rooms[height - 1, middleX + 1].walls.(left := false));
    rooms[middleY, width - 1] := rooms[middleY, width - 1].(walls := rooms[middleY, width - 1].walls.(bottom := true));
    rooms[middleY + 1, width - 1] :=
      rooms[middleY + 1, width - 1].(walls := rooms[middleY + 1, width - 1].walls.(top := true));
  }

  // ----- spikyVerticalMaze -----

  /** The walls of room `c` of the vertical comb: every column is open from
      the top border to row `h/2 - 1` and from row `h/2` to the bottom
      border; the two halves meet only in the left column; the top and
      bottom rows are open horizontally. */
  function SpikyVerticalWalls(w: int, h: int, c: Coordinate): (s: Survey)
    ensures forall d: Direction :: Inside(w, h, c) && !Inside(w, h, Neighbour(c, d)) ==> Wall(s, d)
  {
    var my := h / 2;
    var border := c.y == 0 || c.y == h - 1;
    Survey(
      c.y == 0 || (c.y == my && c.x > 0),
      !(border && c.x < w - 1),
      c.y == h - 1 || (c.y == my - 1 && c.x > 0),
      !(border && c.x > 0))
  }

  /** Adjacent rooms of the vertical comb agree on the wall between them. */
  lemma SpikyVerticalAgree(w: int, h: int, c: Coordinate, d: Direction)
    requires w >= 1 && h >= 2
    requires Inside(w, h, c) && Inside(w, h, Neighbour(c, d))
    ensures Wall(SpikyVerticalWalls(w, h, c), d) == Wall(SpikyVerticalWalls(w, h, Neighbour(c, d)), Opposite(d))
  {
  }

  /** The walls the loop of `spikyVerticalMaze` leaves in room (x, y),
      before the middle row is reopened in the left column. */
  function SpikyVerticalLoop(w: int, h: int, x: int, y: int): Survey
  {
    var border := y == 0 || y == h - 1;
    Survey(!(y > 0 && y != h / 2), !(border && x < w - 1), !(y < h - 1 && y != h / 2 - 1), !(border && x > 0))
  }

  /** `spikyVerticalMaze`. The program indexes row `h/2 - 1` after its
      loop, so it needs at least two rows. */
  method SpikyVerticalMaze(width: nat, height: nat, rng: Random) returns (m: Maze)
    requires width >= 1 && height >= 2
    modifies rng
    ensures fresh(m) && fresh(m.rooms)
    ensures m.rooms.Length0 == height && m.rooms.Length1 == width
    ensures forall y, x :: 0 <= y < height && 0 <= x < width ==>
              m.rooms[y, x].walls == SpikyVerticalWalls(width, height, Coordinate(x, y)) && !m.rooms[y, x].visited
    ensures !rng.Exhausted() ==> Placed(m)
    ensures FlagsAt(m)
  {
    m := FullMaze(width, height);
    var rooms := m.rooms;
    var middleY := height / 2;
    for x := 0 to width
      invariant m.rooms == rooms
      invariant forall j, i :: 0 <= j < height && 0 <= i < width ==>
                  rooms[j, i] == if i < x then Room(SpikyVerticalLoop(width, height, i, j), false, false, false)
                                 else FullRoom
    {
      for y := 0 to height
        invariant m.rooms == rooms
        invariant forall j, i :: 0 <= j < height && 0 <= i < width ==>
                    rooms[j, i] == if i < x || (i == x && j < y)
                                   then Room(SpikyVerticalLoop(width, height, i, j), false, false, false)
                                   else FullRoom
      {
        var walls := rooms[y, x].walls;
        if y > 0 && y != middleY {
          walls := walls.(top := false);
        }
        if y < height - 1 && y != middleY - 1 {
          walls := walls.(bottom := false);
        }
        if y == 0 && x > 0 {
          walls := walls.(left := false);
        }
        if y == 0 && x < width - 1 {
          walls := walls.(right := false);
        }
        if y == height - 1 && x > 0 {
          walls := walls.(left := false);
        }
        if y == height - 1 && x < width - 1 {
          walls := walls.(right := false);
        }
        rooms[y, x] := rooms[y, x].(walls := walls);
      }
    }
    rooms[middleY - 1, 0] := rooms[middleY - 1, 0].(walls := rooms[middleY - 1, 0].walls.(bottom := false));
    rooms[middleY, 0] := rooms[middleY, 0].(walls := rooms[middleY, 0].walls.(top := false));
    assert forall j, i :: 0 <= j < height && 0 <= i < width ==>
             rooms[j, i] == Room(SpikyVerticalWalls(width, height, Coordinate(i, j)), false, false, false);
    PlaceIcarusAndTreasure(m, rng);
  }
}
