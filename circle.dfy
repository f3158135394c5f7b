/** `circleMaze`: concentric rectangular rings of walls, each inner ring
    opened once in its top side at a random column. */
module CircleMazes {
  import opened Mazelib
  import opened Daedalus
  import opened Oracle
  import opened Grid

  /** Whether the vertical boundary `b` (between columns `b - 1` and `b`)
      is walled in row `y` once the rings `0 .. rings - 1` are drawn: ring
      `i` walls boundaries `i` and `w - i` in rows `i .. h - i - 1`. */
  function Vertical(w: int, h: int, rings: int, b: int, y: int): bool {
    || (0 <= b < rings && b <= y < h - b)
    || (0 <= w - b < rings && w - b <= y < h - (w - b))
  }

  /** Whether the horizontal boundary `b` (between rows `b - 1` and `b`) is
      walled in column `x` once the rings `0 .. rings - 1` are drawn: ring
      `j` walls boundaries `j` and `h - j` in columns `j .. w - j - 1`. */
  function Horizontal(w: int, h: int, rings: int, b: int, x: int): bool {
    || (0 <= b < rings && b <= x < w - b)
    || (0 <= h - b < rings && h - b <= x < w - (h - b))
  }

  /** The top side of ring `b` is opened at column `gaps[b - 1]`. */
  predicate Gap(gaps: seq<int>, b: int, x: int) {
    1 <= b <= |gaps| && x == gaps[b - 1]
  }

  /** The walls of room `c` of the circle maze whose rings `1 ..` are
      opened at the columns `gaps`. */
  function CircleWalls(w: int, h: int, gaps: seq<int>, c: Coordinate): Survey {
    var cx, cy := w / 2, h / 2;
    Survey(
      Horizontal(w, h, cy, c.y, c.x) && !Gap(gaps, c.y, c.x),
      Vertical(w, h, cx, c.x + 1, c.y),
      Horizontal(w, h, cy, c.y + 1, c.x) && !Gap(gaps, c.y + 1, c.x),
      Vertical(w, h, cx, c.x, c.y))
  }

  /** The outer ring closes the grid: every side of a room that faces out
      of the grid is walled. */
  lemma CircleBorder(w: int, h: int, gaps: seq<int>, c: Coordinate, d: Direction)
    requires w >= 2 && h >= 2 && |gaps| < h && Inside(w, h, c)
    requires !Inside(w, h, Neighbour(c, d))
    ensures Wall(CircleWalls(w, h, gaps, c), d)
  {
    assert w / 2 >= 1 && h / 2 >= 1;
    if d == 0 {
      assert c.y == 0;
    } else if d == 1 {
      assert c.x == w - 1;
    } else if d == 2 {
      assert c.y == h - 1;
    } else {
      assert c.x == 0;
    }
  }

  /** Adjacent rooms of a circle maze agree on the wall between them. */
  lemma CircleAgree(w: int, h: int, gaps: seq<int>, c: Coordinate, d: Direction)
    requires Inside(w, h, c) && Inside(w, h, Neighbour(c, d))
    ensures Wall(CircleWalls(w, h, gaps, c), d) == Wall(CircleWalls(w, h, gaps, Neighbour(c, d)), Opposite(d))
  {
    var n := Neighbour(c, d);
    if d == 0 {
      assert n == Coordinate(c.x, c.y - 1) && Opposite(d) == 2;
      assert CircleWalls(w, h, gaps, c).top == CircleWalls(w, h, gaps, n).bottom;
    } else if d == 1 {
      assert n == Coordinate(c.x + 1, c.y) && Opposite(d) == 3;
      assert CircleWalls(w, h, gaps, c).right == CircleWalls(w, h, gaps, n).left;
    } else if d == 2 {
      assert n == Coordinate(c.x, c.y + 1) && Opposite(d) == 0;
      assert CircleWalls(w, h, gaps, c).bottom == CircleWalls(w, h, gaps, n).top;
    } else {
      assert n == Coordinate(c.x - 1, c.y) && Opposite(d) == 1;
      assert CircleWalls(w, h, gaps, c).left == CircleWalls(w, h, gaps, n).right;
    }
  }

  /** Along the top side of inner ring `j`, the only opening is at the
      column drawn for it. */
  lemma OneGapPerRing(w: int, h: int, gaps: seq<int>, j: int, x: int)
    requires |gaps| == h / 2 - 1
    requires forall k :: 0 <= k < |gaps| ==> k + 1 <= gaps[k] < w - (k + 1)
    requires 1 <= j < h / 2 && j <= x < w - j
    ensures !CircleWalls(w, h, gaps, Coordinate(x, j)).top <==> x == gaps[j - 1]
  {
  }

  /** `Vertical` while ring `rings` is being drawn, its rows up to `rows`
      already walled. */
  function VerticalPart(w: int, h: int, rings: int, rows: int, b: int, y: int): bool {
    Vertical(w, h, rings, b, y) || ((b == rings || b == w - rings) && rings <= y < rows)
  }

  /** `Horizontal` while ring `rings` is being drawn, its columns up to
      `cols` already walled. */
  function HorizontalPart(w: int, h: int, rings: int, cols: int, b: int, x: int): bool {
    Horizontal(w, h, rings, b, x) || ((b == rings || b == h - rings) && rings <= x < cols)
  }

  /** Drawing all the rows of a ring completes it. */
  lemma VerticalNext(w: int, h: int, i: int, b: int, y: int)
    requires 0 <= i
    ensures VerticalPart(w, h, i, if h - i > i then h - i else i, b, y) == VerticalPart(w, h, i + 1, i + 1, b, y)
  {
  }

  /** Drawing all the columns of a ring completes it. */
  lemma HorizontalNext(w: int, h: int, j: int, b: int, x: int)
    requires 0 <= j
    ensures HorizontalPart(w, h, j, if w - j > j then w - j else j, b, x) == HorizontalPart(w, h, j + 1, j + 1, b, x)
  {
  }

  /** One step of the first loop: walling boundary `i` and boundary
      `w - i` in row `j` draws one more row of ring `i`. */
  lemma SideStep(w: int, h: int, i: int, j: int, x: int, y: int)
    requires 0 <= i < w / 2 && i <= j < h - i
    requires 0 <= x < w && 0 <= y < h
    ensures AfterEdge(AfterEdge(Laid(w, h, i, j, 0, 0, [], x, y), y, x, Coordinate(i, j), 3, true),
                      y, x, Coordinate(w - 1 - i, j), 1, true)
            == Laid(w, h, i, j + 1, 0, 0, [], x, y)
  {
  }

  /** One step of the second loop: walling boundary `j` and boundary
      `h - j` in column `i` draws one more column of ring `j`. */
  lemma TopBottomStep(w: int, h: int, j: int, i: int, x: int, y: int)
    requires 0 <= j < h / 2 && j <= i < w - j
    requires 0 <= x < w && 0 <= y < h
    ensures AfterEdge(AfterEdge(Laid(w, h, w / 2, w / 2, j, i, [], x, y), y, x, Coordinate(i, j), 0, true),
                      y, x, Coordinate(i, h - 1 - j), 2, true)
            == Laid(w, h, w / 2, w / 2, j, i + 1, [], x, y)
  {
  }

  /** One step of the third loop: opening the top side of ring
      `|gaps| + 1` at column `i`. */
  lemma OpenStep(w: int, h: int, gaps: seq<int>, i: int, x: int, y: int)
    requires |gaps| + 1 < h / 2 && |gaps| + 1 <= i < w - (|gaps| + 1)
    requires 0 <= x < w && 0 <= y < h
    ensures AfterEdge(Laid(w, h, w / 2, w / 2, h / 2, h / 2, gaps, x, y), y, x, Coordinate(i, |gaps| + 1), 0, false)
            == Laid(w, h, w / 2, w / 2, h / 2, h / 2, gaps + [i], x, y)
  {
  }

  /** Inner ring `k + 1` is opened at column `gaps[k]`, drawn as
      `k + 1 + rand.Intn(w - 2(k + 1))` from the draws following `u`, and so
      lies strictly inside the top side of that ring. */
  ghost predicate GapsDrawn(gaps: seq<int>, draws: seq<nat>, u: nat, w: int) {
    forall k :: 0 <= k < |gaps| ==>
      k + 1 <= gaps[k] < w - (k + 1) && gaps[k] == k + 1 + Draw(draws, u + k, w - 2 * (k + 1))
  }

  /** Opening the next ring at `|gaps| + 1 + r` keeps the gaps drawn. */
  lemma GapDrawn(gaps: seq<int>, draws: seq<nat>, u: nat, w: int, r: int, i: int)
    requires GapsDrawn(gaps, draws, u, w) && w - 2 * (|gaps| + 1) > 0
    requires r == Draw(draws, u + |gaps|, w - 2 * (|gaps| + 1)) && i == |gaps| + 1 + r
    ensures GapsDrawn(gaps + [i], draws, u, w)
  {
    var g := gaps + [i];
    forall k | 0 <= k < |g|
      ensures k + 1 <= g[k] < w - (k + 1)
      ensures g[k] == k + 1 + Draw(draws, u + k, w - 2 * (k + 1))
    {
      if k < |gaps| {
        assert g[k] == gaps[k];
      }
    }
  }

  /** The room (x, y) of a circle maze while its walls are being laid. */
  function Laid(w: int, h: int, v: int, rows: int, hz: int, cols: int, gaps: seq<int>, x: int, y: int): Room {
    Room(Survey(HorizontalPart(w, h, hz, cols, y, x) && !Gap(gaps, y, x), VerticalPart(w, h, v, rows, x + 1, y),
                HorizontalPart(w, h, hz, cols, y + 1, x) && !Gap(gaps, y + 1, x), VerticalPart(w, h, v, rows, x, y)),
         false, false, false)
  }

  /** `circleMaze`. Ring `j` of the third loop is opened at column
      `j + rand.Intn(w - 2j)`, so the program needs `w - 2j > 0` for every
      inner ring. The ghost result `gaps` lists the opened columns. */
  method CircleMaze(width: nat, height: nat, rng: Random) returns (m: Maze, ghost gaps: seq<int>)
    requires width > 0 && height > 0
    requires height / 2 <= 1 || width > 2 * (height / 2 - 1)
    modifies rng
    ensures fresh(m) && fresh(m.rooms)
    ensures m.rooms.Length0 == height && m.rooms.Length1 == width
    ensures |gaps| == if height / 2 >= 1 then height / 2 - 1 else 0
    ensures GapsDrawn(gaps, rng.draws, old(rng.used), width)
    ensures forall y, x :: 0 <= y < height && 0 <= x < width ==>
              m.rooms[y, x].walls == CircleWalls(width, height, gaps, Coordinate(x, y)) && !m.rooms[y, x].visited
    ensures !rng.Exhausted() ==> Placed(m)
    ensures FlagsAt(m)
  {
    m := new Maze.Empty(width, height);
    var rooms := m.rooms;
    assert forall y, x :: 0 <= y < height && 0 <= x < width ==> rooms[y, x] == Laid(width, height, 0, 0, 0, 0, [], x, y);
    SideWalls(rooms);
    TopBottomWalls(rooms);
    gaps := OpenRings(rooms, rng);
    forall y, x | 0 <= y < height && 0 <= x < width
      ensures rooms[y, x].walls == CircleWalls(width, height, gaps, Coordinate(x, y)) && !rooms[y, x].visited
    {
      LaidComplete(width, height, gaps, x, y);
    }
    PlaceIcarusAndTreasure(m, rng);
  }

  /** Once every ring is drawn and opened, the rooms have the walls of the
      circle maze. */
  lemma LaidComplete(w: int, h: int, gaps: seq<int>, x: int, y: int)
    ensures Laid(w, h, w / 2, w / 2, h / 2, h / 2, gaps, x, y).walls == CircleWalls(w, h, gaps, Coordinate(x, y))
  {
  }

  /** The first loop of `circleMaze`: the left and right sides of every ring. */
  method SideWalls(rooms: array2<Room>)
    requires forall y, x :: 0 <= y < rooms.Length0 && 0 <= x < rooms.Length1 ==>
               rooms[y, x] == Laid(rooms.Length1, rooms.Length0, 0, 0, 0, 0, [], x, y)
    modifies rooms
    ensures forall y, x :: 0 <= y < rooms.Length0 && 0 <= x < rooms.Length1 ==>
              rooms[y, x] == Laid(rooms.Length1, rooms.Length0, rooms.Length1 / 2, rooms.Length1 / 2, 0, 0, [], x, y)
  {
    var width, height := rooms.Length1, rooms.Length0;
    for i := 0 to width / 2
      invariant forall y, x :: 0 <= y < height && 0 <= x < width ==> rooms[y, x] == Laid(width, height, i, i, 0, 0, [], x, y)
    {
      var j := i;
      while j < height - i
        invariant i <= j && (j <= height - i || j == i)
        invariant forall y, x :: 0 <= y < height && 0 <= x < width ==> rooms[y, x] == Laid(width, height, i, j, 0, 0, [], x, y)
      {
        label before:
        SetEdge(rooms, Coordinate(i, j), 3, true);
        label between:
        SetEdge(rooms, Coordinate(width - 1 - i, j), 1, true);
        forall y, x | 0 <= y < height && 0 <= x < width
          ensures rooms[y, x] == Laid(width, height, i, j + 1, 0, 0, [], x, y)
        {
          assert old@between(rooms[y, x]) == AfterEdge(old@before(rooms[y, x]), y, x, Coordinate(i, j), 3, true);
          SideStep(width, height, i, j, x, y);
        }
        j := j + 1;
      }
      forall y, x | 0 <= y < height && 0 <= x < width
        ensures rooms[y, x] == Laid(width, height, i + 1, i + 1, 0, 0, [], x, y)
      {
        VerticalNext(width, height, i, x, y);
        VerticalNext(width, height, i, x + 1, y);
      }
    }
  }

  /** The second loop of `circleMaze`: the top and bottom sides of every ring. */
  method TopBottomWalls(rooms: array2<Room>)
    requires forall y, x :: 0 <= y < rooms.Length0 && 0 <= x < rooms.Length1 ==>
               rooms[y, x] == Laid(rooms.Length1, rooms.Length0, rooms.Length1 / 2, rooms.Length1 / 2, 0, 0, [], x, y)
    modifies rooms
    ensures forall y, x :: 0 <= y < rooms.Length0 && 0 <= x < rooms.Length1 ==>
              rooms[y, x] == Laid(rooms.Length1, rooms.Length0, rooms.Length1 / 2, rooms.Length1 / 2,
                                  rooms.Length0 / 2, rooms.Length0 / 2, [], x, y)
  {
    var width, height := rooms.Length1, rooms.Length0;
    var cx := width / 2;
    for j := 0 to height / 2
      invariant forall y, x :: 0 <= y < height && 0 <= x < width ==> rooms[y, x] == Laid(width, height, cx, cx, j, j, [], x, y)
    {
      var i := j;
      while i < width - j
        invariant j <= i && (i <= width - j || i == j)
        invariant forall y, x :: 0 <= y < height && 0 <= x < width ==> rooms[y, x] == Laid(width, height, cx, cx, j, i, [], x, y)
      {
        label before:
        SetEdge(rooms, Coordinate(i, j), 0, true);
        label between:
        SetEdge(rooms, Coordinate(i, height - 1 - j), 2, true);
        forall y, x | 0 <= y < height && 0 <= x < width
          ensures rooms[y, x] == Laid(width, height, cx, cx, j, i + 1, [], x, y)
        {
          assert old@between(rooms[y, x]) == AfterEdge(old@before(rooms[y, x]), y, x, Coordinate(i, j), 0, true);
          TopBottomStep(width, height, j, i, x, y);
        }
        i := i + 1;
      }
      forall y, x | 0 <= y < height && 0 <= x < width
        ensures rooms[y, x] == Laid(width, height, cx, cx, j + 1, j + 1, [], x, y)
      {
        HorizontalNext(width, height, j, y, x);
        HorizontalNext(width, height, j, y + 1, x);
      }
    }
  }

  /** The third loop of `circleMaze`: one opening, at a random column, in
      the top side of every inner ring. */
  method OpenRings(rooms: array2<Room>, rng: Random) returns (ghost gaps: seq<int>)
    requires rooms.Length0 / 2 <= 1 || rooms.Length1 > 2 * (rooms.Length0 / 2 - 1)
    requires forall y, x :: 0 <= y < rooms.Length0 && 0 <= x < rooms.Length1 ==>
               rooms[y, x] == Laid(rooms.Length1, rooms.Length0, rooms.Length1 / 2, rooms.Length1 / 2,
                                   rooms.Length0 / 2, rooms.Length0 / 2, [], x, y)
    modifies rooms, rng
    ensures |gaps| == if rooms.Length0 / 2 >= 1 then rooms.Length0 / 2 - 1 else 0
    ensures rng.used == old(rng.used) + |gaps|
    ensures GapsDrawn(gaps, rng.draws, old(rng.used), rooms.Length1)
    ensures forall y, x :: 0 <= y < rooms.Length0 && 0 <= x < rooms.Length1 ==>
              rooms[y, x] == Laid(rooms.Length1, rooms.Length0, rooms.Length1 / 2, rooms.Length1 / 2,
                                  rooms.Length0 / 2, rooms.Length0 / 2, gaps, x, y)
  {
    var width, height := rooms.Length1, rooms.Length0;
    var cx, cy := width / 2, height / 2;
    gaps := [];
    var j := 1;
    while j < cy
      invariant 1 <= j && (j <= cy || j == 1)
      invariant |gaps| == j - 1 && rng.used == old(rng.used) + |gaps|
      invariant GapsDrawn(gaps, rng.draws, old(rng.used), width)
      invariant forall y, x :: 0 <= y < height && 0 <= x < width ==>
                  rooms[y, x] == Laid(width, height, cx, cx, cy, cy, gaps, x, y)
    {
      var r := rng.Intn(width - 2 * j);
      var i := j + r;
      GapDrawn(gaps, rng.draws, old(rng.used), width, r, i);
      label before:
      SetEdge(rooms, Coordinate(i, j), 0, false);
      forall y, x | 0 <= y < height && 0 <= x < width
        ensures rooms[y, x] == Laid(width, height, cx, cx, cy, cy, gaps + [i], x, y)
      {
        OpenStep(width, height, gaps, i, x, y);
      }
      gaps := gaps + [i];
      j := j + 1;
    }
  }
}
