/** `patternMaze`: a hand-drawn 4 x 4 tile repeated over the grid, the rest
    of the grid filled by a depth-first carve, and the tiles joined to their
    right and lower neighbours by one random opening each. */
module PatternMazes {
  import opened Mazelib
  import opened Daedalus
  import opened Oracle
  import opened Grid
  import opened BacktrackerMazes

  // ----- the tile -----

  /** The walls of the tile room in column `i`, row `j`. The tile is closed
      on its border. */
  function TileWalls(i: int, j: int): (s: Survey)
    requires 0 <= i < 4 && 0 <= j < 4
    ensures j == 0 ==> s.top
    ensures i == 3 ==> s.right
    ensures j == 3 ==> s.bottom
    ensures i == 0 ==> s.left
  {
    if j == 0 then
      if i == 0 then Survey(true, false, false, true)
      else if i == 1 then Survey(true, true, true, false)
      else if i == 2 then Survey(true, false, false, true)
      else Survey(true, true, false, false)
    else if j == 1 then
      if i == 0 then Survey(false, true, false, true)
      else if i == 1 then Survey(true, false, false, true)
      else if i == 2 then Survey(false, true, true, false)
      else Survey(false, true, true, true)
    else if j == 2 then
      if i == 0 then Survey(false, false, true, true)
      else if i == 1 then Survey(false, false, false, false)
      else if i == 2 then Survey(true, true, false, false)
      else Survey(true, true, false, true)
    else
      if i == 0 then Survey(true, false, true, true)
      else if i == 1 then Survey(false, true, true, false)
      else if i == 2 then Survey(false, false, true, true)
      else Survey(false, true, true, false)
  }

  /** The tile rooms marked visited: its right column and its bottom row,
      which fence the rest of the tile off from the fill. */
  predicate TileVisited(i: int, j: int) {
    i == 3 || j == 3
  }

  /** Neighbouring rooms of the tile agree on the wall they share. */
  lemma TileAgrees(i: int, j: int)
    requires 0 <= i < 4 && 0 <= j < 4
    ensures i < 3 ==> TileWalls(i, j).right == TileWalls(i + 1, j).left
    ensures j < 3 ==> TileWalls(i, j).bottom == TileWalls(i, j + 1).top
  {
  }

  /** Room `c` lies in one of the `w/4` x `h/4` whole tiles laid from the
      top left corner. */
  predicate InTiles(w: int, h: int, c: Coordinate) {
    0 <= c.x < 4 * (w / 4) && 0 <= c.y < 4 * (h / 4)
  }

  /** The walls of room `c` once the tiles are laid on the full grid. */
  function PatternWalls(w: int, h: int, c: Coordinate): Survey {
    if InTiles(w, h, c) then TileWalls(c.x % 4, c.y % 4) else AllWalls
  }

  /** The laid tiles agree with their neighbours on every shared wall:
      inside a tile by `TileAgrees`, across a tile border because both
      sides carry a wall. */
  lemma PatternAgrees(w: int, h: int, c: Coordinate, d: Direction)
    requires Inside(w, h, c) && Inside(w, h, Neighbour(c, d))
    ensures Wall(PatternWalls(w, h, c), d) == Wall(PatternWalls(w, h, Neighbour(c, d)), Opposite(d))
  {
    var n := Neighbour(c, d);
    if d == 1 {
      AgreeRight(w, h, c);
    } else if d == 3 {
      AgreeRight(w, h, n);
    } else if d == 2 {
      AgreeDown(w, h, c);
    } else {
      AgreeDown(w, h, n);
    }
  }

  /** A room and the room right of it agree on the wall between them. */
  lemma AgreeRight(w: int, h: int, c: Coordinate)
    requires Inside(w, h, c) && Inside(w, h, Coordinate(c.x + 1, c.y))
    ensures PatternWalls(w, h, c).right == PatternWalls(w, h, Coordinate(c.x + 1, c.y)).left
  {
    var i, j := c.x % 4, c.y % 4;
    if i < 3 {
      assert (c.x + 1) % 4 == i + 1 && (c.x + 1) / 4 == c.x / 4;
      TileAgrees(i, j);
    } else {
      assert (c.x + 1) % 4 == 0;
    }
  }

  /** A room and the room below it agree on the wall between them. */
  lemma AgreeDown(w: int, h: int, c: Coordinate)
    requires Inside(w, h, c) && Inside(w, h, Coordinate(c.x, c.y + 1))
    ensures PatternWalls(w, h, c).bottom == PatternWalls(w, h, Coordinate(c.x, c.y + 1)).top
  {
    var i, j := c.x % 4, c.y % 4;
    if j < 3 {
      assert (c.y + 1) % 4 == j + 1 && (c.y + 1) / 4 == c.y / 4;
      TileAgrees(i, j);
    } else {
      assert (c.y + 1) % 4 == 0;
    }
  }

  /** Every side of the laid tiles facing out of the grid is a wall. */
  lemma PatternClosed(w: int, h: int, c: Coordinate, d: Direction)
    requires Inside(w, h, c) && !Inside(w, h, Neighbour(c, d))
    ensures Wall(PatternWalls(w, h, c), d)
  {
    if InTiles(w, h, c) {
      var i, j := c.x % 4, c.y % 4;
      assert d == 0 ==> j == 0;
      assert d == 3 ==> i == 0;
      assert d == 1 ==> i == 3;
      assert d == 2 ==> j == 3;
    }
  }

  // ----- laying the tiles -----

  /** The room (`i`, `j`) once the tiles are laid on the full grid. */
  function PatternRoom(w: int, h: int, i: int, j: int): (r: Room)
    ensures r.walls == PatternWalls(w, h, Coordinate(i, j)) && !r.start && !r.treasure
  {
    if InTiles(w, h, Coordinate(i, j)) then Room(TileWalls(i % 4, j % 4), TileVisited(i % 4, j % 4), false, false)
    else FullRoom
  }

  /** The tile loop of `patternMaze`: lays a tile at every multiple of four
      that leaves room for a whole tile, column of tiles by column of tiles. */
  method PlaceTiles(a: array2<Room>)
    requires forall j, i :: 0 <= j < a.Length0 && 0 <= i < a.Length1 ==> a[j, i] == FullRoom
    modifies a
    ensures forall j, i :: 0 <= j < a.Length0 && 0 <= i < a.Length1 ==> a[j, i] == PatternRoom(a.Length1, a.Length0, i, j)
  {
    var w, h := a.Length1, a.Length0;
    var xPattern, yPattern := w / 4, h / 4;
    for x := 0 to xPattern
      invariant forall j, i :: 0 <= j < h && 0 <= i < w ==>
                  a[j, i] == if i / 4 < x then PatternRoom(w, h, i, j) else FullRoom
    {
      for y := 0 to yPattern
        invariant forall j, i :: 0 <= j < h && 0 <= i < w ==>
                    a[j, i] == if i / 4 < x || (i / 4 == x && j / 4 < y) then PatternRoom(w, h, i, j) else FullRoom
      {
        PlaceTile(a, x, y);
      }
    }
  }

  /** Lays one tile with its top left room at column `4 * x`, row `4 * y`:
      sixteen wall writes, row by row, and seven visited marks; nothing
      else changes. */
  method PlaceTile(a: array2<Room>, x: int, y: int)
    requires 0 <= x && 4 * x + 4 <= a.Length1 && 0 <= y && 4 * y + 4 <= a.Length0
    modifies a
    ensures forall j, i :: 0 <= j < a.Length0 && 0 <= i < a.Length1 ==>
              a[j, i] == if 4 * x <= i < 4 * x + 4 && 4 * y <= j < 4 * y + 4
                         then old(a[j, i]).(walls := TileWalls(i - 4 * x, j - 4 * y),
                                            visited := old(a[j, i].visited) || TileVisited(i - 4 * x, j - 4 * y))
                         else old(a[j, i])
  {
    TileRow(a, x, y, 0);
    TileRow(a, x, y, 1);
    TileRow(a, x, y, 2);
    TileRow(a, x, y, 3);
    MarkTile(a, x, y);
  }

  /** The four wall writes of row `j` of the tile at (`x`, `y`), left to right. */
  method TileRow(a: array2<Room>, x: int, y: int, j: int)
    requires 0 <= x && 4 * x + 4 <= a.Length1 && 0 <= y && 4 * y + 4 <= a.Length0 && 0 <= j < 4
    modifies a
    ensures forall r, i :: 0 <= r < a.Length0 && 0 <= i < a.Length1 ==>
              a[r, i] == if r == 4 * y + j && 4 * x <= i < 4 * x + 4
                         then old(a[r, i]).(walls := TileWalls(i - 4 * x, j))
                         else old(a[r, i])
  {
    TileHalf(a, x, y, j, 0);
    TileHalf(a, x, y, j, 2);
  }

  /** Two of those writes: columns `k` and `k + 1` of the row. */
  method TileHalf(a: array2<Room>, x: int, y: int, j: int, k: int)
    requires 0 <= x && 4 * x + 4 <= a.Length1 && 0 <= y && 4 * y + 4 <= a.Length0 && 0 <= j < 4
    requires k == 0 || k == 2
    modifies a
    ensures forall r, i :: 0 <= r < a.Length0 && 0 <= i < a.Length1 ==>
              a[r, i] == if r == 4 * y + j && 4 * x + k <= i < 4 * x + k + 2
                         then old(a[r, i]).(walls := TileWalls(i - 4 * x, j))
                         else old(a[r, i])
  {
    var row, col := 4 * y + j, 4 * x + k;
    a[row, col] := a[row, col].(walls := TileWalls(k, j));
    a[row, col + 1] := a[row, col + 1].(walls := TileWalls(k + 1, j));
  }

  /** The seven visited marks of the tile at (`x`, `y`): its right column
      above the bottom row, then its bottom row. */
  method MarkTile(a: array2<Room>, x: int, y: int)
    requires 0 <= x && 4 * x + 4 <= a.Length1 && 0 <= y && 4 * y + 4 <= a.Length0
    modifies a
    ensures forall j, i :: 0 <= j < a.Length0 && 0 <= i < a.Length1 ==>
              a[j, i] == if 4 * x <= i < 4 * x + 4 && 4 * y <= j < 4 * y + 4 && TileVisited(i - 4 * x, j - 4 * y)
                         then old(a[j, i]).(visited := true)
                         else old(a[j, i])
  {
    var row, col := 4 * y, 4 * x;
    a[row, col + 3] := a[row, col + 3].(visited := true);
    a[row + 1, col + 3] := a[row + 1, col + 3].(visited := true);
    a[row + 2, col + 3] := a[row + 2, col + 3].(visited := true);
    MarkBottomRow(a, x, y);
  }

  /** The visited marks of the bottom row of the tile at (`x`, `y`). */
  method MarkBottomRow(a: array2<Room>, x: int, y: int)
    requires 0 <= x && 4 * x + 4 <= a.Length1 && 0 <= y && 4 * y + 4 <= a.Length0
    modifies a
    ensures forall j, i :: 0 <= j < a.Length0 && 0 <= i < a.Length1 ==>
              a[j, i] == if 4 * x <= i < 4 * x + 4 && j == 4 * y + 3
                         then old(a[j, i]).(visited := true)
                         else old(a[j, i])
  {
    var row, col := 4 * y + 3, 4 * x;
    a[row, col] := a[row, col].(visited := true);
    a[row, col + 1] := a[row, col + 1].(visited := true);
    a[row, col + 2] := a[row, col + 2].(visited := true);
    a[row, col + 3] := a[row, col + 3].(visited := true);
  }

  // ----- the fill -----

  /** The scan of the fill: the scan of `backtrackerMaze` over the three
      directions after `lastCell` only. The entry of `lastCell` itself, the
      way the walk came in, keeps its mark. */
  method ScanThree(a: array2<Room>, c: Coordinate, lastCell: int, lastC: seq<bool>) returns (scanned: seq<bool>, free: int)
    requires InGrid(a, c) && 0 <= lastCell < 4 && |lastC| == 4 && lastC[lastCell]
    ensures |scanned| == 4 && scanned[lastCell]
    ensures forall d: Direction :: d != lastCell ==> scanned[d] == Taken(a, c, d)
    ensures free == FreeCount(scanned)
  {
    ghost var sides := Sides(a, c)[lastCell := true];
    scanned := lastC;
    free := 3;
    for n := 0 to 3
      invariant |scanned| == 4 && scanned[lastCell]
      invariant forall k :: 0 <= k < n ==> scanned[ScanDirection(lastCell, k)] == sides[ScanDirection(lastCell, k)]
      invariant free == 3 - TakenSoFar(sides, lastCell, n)
    {
      var t := ScanDirection(lastCell, n);
      ScanDistinct(lastCell, n, 3);
      var taken := SideTaken(a, c, t);
      ScanStep(sides, lastCell, scanned, n, taken);
      scanned := scanned[t := taken];
      if taken {
        free := free - 1;
      }
    }
    assert ScanDirection(lastCell, 3) == lastCell;
    ScanComplete(sides, lastCell, scanned);
  }

  /** One iteration of the fill: the step of `backtrackerMaze` with the
      three-way scan, `lastC` carried from one iteration to the next. */
  method FillStep(a: array2<Room>, stack: array<Coordinate>, top: int, cur: Coordinate, lastCell: int,
                  lastC: seq<bool>, rng: Random, ghost seen: set<Coordinate>)
    returns (top': int, cur': Coordinate, lastCell': int, lastC': seq<bool>, carved: bool, ok: bool, ghost side: Direction)
    requires Walking(a, stack, top, cur, lastCell, seen) && lastCell < 4 && |lastC| == 4 && lastC[lastCell]
    modifies a, stack, rng
    ensures Symmetric(a) && Closed(a) && NoFlags(a)
    ensures carved ==> InGrid(a, Neighbour(cur, side)) && Neighbour(cur, side) !in seen
    ensures carved ==> !Wall(a[cur.y, cur.x].walls, side) && OpenEdges(a) == old(OpenEdges(a)) + {EdgeOf(cur, side)}
    ensures carved ==> forall y, x :: 0 <= y < a.Length0 && 0 <= x < a.Length1 ==>
                         Coordinate(x, y) == cur || Coordinate(x, y) == Neighbour(cur, side) || a[y, x] == old(a[y, x])
    ensures ok && carved ==> cur' == Neighbour(cur, side)
    ensures !carved ==> unchanged(a)
    ensures ok ==> 0 <= lastCell' < 4 && |lastC'| == 4 && lastC'[lastCell']
    ensures ok && carved ==> cur' !in seen && top' == top + 1 && Walking(a, stack, top', cur', lastCell', seen + {cur'})
    ensures ok && carved ==> Adjacent(cur, cur') && stack[..] == old(stack[..])[top + 1 := cur']
    ensures ok && !carved ==> top' == top - 1 && Walking(a, stack, top', cur', lastCell', seen)
    ensures ok && !carved ==> stack[..] == old(stack[..])
    ensures !ok && !carved ==> top == 0 && StuckBut(a, cur, lastCell)
    ensures !ok && carved ==> top + 1 == stack.Length && Carving(a, seen)
  {
    var scanned, free := ScanThree(a, cur, lastCell, lastC);
    if free == 0 {
      top', cur', lastCell', lastC', ok := FillBack(a, stack, top, cur, lastCell, scanned, seen);
      carved, side := false, 0;
    } else {
      top', cur', lastCell', lastC', ok, side := FillCarve(a, stack, top, cur, lastCell, scanned, free, rng, seen);
      carved := true;
    }
  }

  /** The backtracking branch of a fill step: no side but the way back is
      free, so the way back is marked taken and the room below on the
      stack is resumed; `ok` is false where the program would index the
      stack below its bottom. */
  method FillBack(a: array2<Room>, stack: array<Coordinate>, top: int, cur: Coordinate, lastCell: int,
                  scanned: seq<bool>, ghost seen: set<Coordinate>)
    returns (top': int, cur': Coordinate, lastCell': int, lastC': seq<bool>, ok: bool)
    requires Walking(a, stack, top, cur, lastCell, seen) && lastCell < 4
    requires |scanned| == 4 && scanned[lastCell] && (forall d: Direction :: d != lastCell ==> scanned[d] == Taken(a, cur, d))
    requires FreeCount(scanned) == 0
    ensures 0 <= lastCell' < 4 && |lastC'| == 4 && lastC'[lastCell']
    ensures ok ==> top' == top - 1 && Walking(a, stack, top', cur', lastCell', seen)
    ensures !ok ==> top == 0 && StuckBut(a, cur, lastCell)
  {
    lastCell' := (lastCell + 2) % 4;
    lastC' := scanned[lastCell' := true];
    if top == 0 {
      FreeCountOfFour(scanned);
      assert scanned[0] && scanned[1] && scanned[2] && scanned[3];
      forall d: Direction | d != lastCell
        ensures Taken(a, cur, d)
      {
        assert scanned[d];
      }
      return top, cur, lastCell', lastC', false;
    }
    top' := top - 1;
    cur' := stack[top'];
    ok := true;
  }

  /** The carving branch of a fill step: draw a free side, carve through
      it and push the room behind it, remembering only the way back; `ok`
      is false where the push would index past the end of the stack. */
  method FillCarve(a: array2<Room>, stack: array<Coordinate>, top: int, cur: Coordinate, lastCell: int,
                   scanned: seq<bool>, free: int, rng: Random, ghost seen: set<Coordinate>)
    returns (top': int, cur': Coordinate, lastCell': int, lastC': seq<bool>, ok: bool, ghost side: Direction)
    requires Walking(a, stack, top, cur, lastCell, seen) && lastCell < 4
    requires |scanned| == 4 && scanned[lastCell] && (forall d: Direction :: d != lastCell ==> scanned[d] == Taken(a, cur, d))
    requires free == FreeCount(scanned) && free > 0
    modifies a, stack, rng
    ensures Symmetric(a) && Closed(a) && NoFlags(a)
    ensures InGrid(a, Neighbour(cur, side)) && Neighbour(cur, side) !in seen
    ensures !Wall(a[cur.y, cur.x].walls, side) && OpenEdges(a) == old(OpenEdges(a)) + {EdgeOf(cur, side)}
    ensures forall y, x :: 0 <= y < a.Length0 && 0 <= x < a.Length1 ==>
              Coordinate(x, y) == cur || Coordinate(x, y) == Neighbour(cur, side) || a[y, x] == old(a[y, x])
    ensures ok ==> cur' == Neighbour(cur, side)
    ensures ok ==> 0 <= lastCell' < 4 && |lastC'| == 4 && lastC'[lastCell']
    ensures ok ==> cur' !in seen && top' == top + 1 && Walking(a, stack, top', cur', lastCell', seen + {cur'})
    ensures ok ==> Adjacent(cur, cur') && stack[..] == old(stack[..])[top + 1 := cur']
    ensures !ok ==> top + 1 == stack.Length && Carving(a, seen)
  {
    var d := PickSide(a, cur, scanned, free, rng);
    side := d;
    top', cur', ok := CarvePush(a, stack, top, cur, lastCell, d, seen);
    lastCell' := Opposite(d);
    lastC' := [false, false, false, false][lastCell' := true];
  }

  /** Where the tiles do not fill the grid, `w * h - 16 * (w/4) * (h/4)`
      rooms are left over. */
  lemma FillSize(w: int, h: int)
    requires w > 0 && h > 0 && (w > 4 * (w / 4) || h > 4 * (h / 4))
    ensures h * w - 16 * (w / 4) * (h / 4) > 0
  {
    var p, q := w / 4, h / 4;
    assert 16 * p * q == (4 * p) * (4 * q);
    if w > 4 * p {
      MulLess(4 * q, h, 4 * p);
      MulStrict(4 * p, w, h);
      assert (4 * p) * h == h * (4 * p) && w * h == h * w;
    } else {
      MulLess(4 * p, w, 4 * q);
      MulStrict(4 * q, h, w);
      assert (4 * q) * (4 * p) == 16 * p * q && h * w == w * h;
    }
  }

  lemma MulLess(a: int, b: int, k: int)
    requires 0 <= a <= b && k >= 0
    ensures k * a <= k * b
  {
  }

  lemma MulStrict(a: int, b: int, k: int)
    requires 0 <= a < b && k > 0
    ensures a * k < b * k
  {
  }

  /** Every side of room `c` but side `l` leads out of the grid or to a
      visited room. */
  ghost predicate StuckBut(a: array2<Room>, c: Coordinate, l: Direction)
    reads a
  {
    forall d: Direction :: d != l ==> Taken(a, c, d)
  }

  /** The rooms outside the tiles that are not visited. */
  ghost function Unfilled(a: array2<Room>): set<Coordinate>
    reads a
  {
    set x, y | 0 <= x < a.Length1 && 0 <= y < a.Length0 && !InTiles(a.Length1, a.Length0, Coordinate(x, y))
                 && !a[y, x].visited :: Coordinate(x, y)
  }

  /** Room `c` is a room of the tiles next to the rooms outside them: in
      the last column or the last row of tiles. */
  predicate OnFence(w: int, h: int, c: Coordinate) {
    InTiles(w, h, c) && (c.x == 4 * (w / 4) - 1 || c.y == 4 * (h / 4) - 1)
  }

  /** A room of the grid next to a room outside the tiles is outside them
      too unless it is on the fence. */
  lemma LeaveFence(w: int, h: int, c: Coordinate, n: Coordinate)
    requires Inside(w, h, c) && !InTiles(w, h, c) && Adjacent(c, n) && Inside(w, h, n)
    ensures InTiles(w, h, n) ==> OnFence(w, h, n)
  {
  }

  /** The rooms outside the tiles: `w * h - 16 * (w/4) * (h/4)` of them. */
  lemma OutsideCount(w: nat, h: nat)
    ensures Cells(4 * (w / 4), 4 * (h / 4)) <= Cells(w, h)
    ensures |Cells(w, h) - Cells(4 * (w / 4), 4 * (h / 4))| == h * w - 16 * (w / 4) * (h / 4)
  {
    var p, q := w / 4, h / 4;
    var all, b := Cells(w, h), Cells(4 * p, 4 * q);
    CellsCount(w, h);
    CellsCount(4 * p, 4 * q);
    forall c | c in b ensures c in all {
      var x, y :| 0 <= x < 4 * p && 0 <= y < 4 * q && c == Coordinate(x, y);
    }
    assert all == (all - b) + b && (all - b) !! b;
    assert |all - b| == |all| - |b|;
    SquareArea(w, h);
  }

  /** The rooms outside the tiles, counted as the grid less the tiles' square. */
  lemma SquareArea(w: nat, h: nat)
    ensures w * h - (4 * (w / 4)) * (4 * (h / 4)) == h * w - 16 * (w / 4) * (h / 4)
  {
    var p, q := w / 4, h / 4;
    assert (4 * p) * (4 * q) == 16 * p * q;
  }

  /** The rooms outside the tiles are exactly those of `Cells` not in the
      tiles' square. */
  lemma OutsideCells(w: nat, h: nat, c: Coordinate)
    ensures c in Cells(w, h) - Cells(4 * (w / 4), 4 * (h / 4)) <==> Inside(w, h, c) && !InTiles(w, h, c)
  {
    if Inside(w, h, c) {
      assert c in Cells(w, h);
    }
    if InTiles(w, h, c) {
      assert c in Cells(4 * (w / 4), 4 * (h / 4));
    }
  }

  /** The fill of `patternMaze`: the carve of `backtrackerMaze`, with the
      three-way scan, started in the bottom right room with the way down
      and the way right marked taken, and a stack as large as the rooms
      outside the tiles. `ok` is false where the program indexes its stack
      out of range. It runs on the grid with the tiles laid, whose right
      columns and bottom rows are visited: the carve never enters the
      tiles, each carve enters a new room outside them, and once the count
      reaches the stack size every room outside the tiles is visited. */
  method FillRest(a: array2<Room>, rng: Random) returns (ok: bool, ghost passages: set<Edge>)
    requires a.Length0 > 0 && a.Length1 > 0
    requires a.Length1 > 4 * (a.Length1 / 4) || a.Length0 > 4 * (a.Length0 / 4)
    requires Symmetric(a) && Closed(a) && NoFlags(a)
    requires forall j, i :: 0 <= j < a.Length0 && 0 <= i < a.Length1 && OnFence(a.Length1, a.Length0, Coordinate(i, j)) ==>
               a[j, i].visited
    requires forall e :: e in OpenEdges(a) ==> TileEdge(a.Length1, a.Length0, e)
    modifies a, rng
    ensures Symmetric(a) && Closed(a) && NoFlags(a)
    ensures forall j, i :: 0 <= j < a.Length0 && 0 <= i < a.Length1 && InTiles(a.Length1, a.Length0, Coordinate(i, j)) ==>
              a[j, i] == old(a[j, i])
    ensures OpenEdges(a) == old(OpenEdges(a)) + passages && old(OpenEdges(a)) * passages == {}
    ensures forall e :: e in passages ==> FillEdge(a.Length1, a.Length0, e)
    ensures ok ==> var n := a.Length0 * a.Length1 - 16 * (a.Length1 / 4) * (a.Length0 / 4);
                   n - 1 <= |passages| <= n
    ensures ok ==> forall j, i :: 0 <= j < a.Length0 && 0 <= i < a.Length1 && !InTiles(a.Length1, a.Length0, Coordinate(i, j)) ==>
                     a[j, i].visited
    ensures !ok ==> || FreeCount(Sides(a, Coordinate(a.Length1 - 1, a.Length0 - 1))) <= 1
                    || |Unfilled(a)| <= 1
  {
    var h, w := a.Length0, a.Length1;
    var xPattern, yPattern := w / 4, h / 4;
    FillSize(w, h);
    var stackSize := h * w - 16 * xPattern * yPattern;
    var stackIndex := 0;
    var stack := new Coordinate[stackSize](_ => Coordinate(w - 1, h - 1));
    var x, y := w - 1, h - 1;
    stack[stackIndex] := Coordinate(x, y);
    ghost var seen := set j, i | 0 <= j < h && 0 <= i < w && a[j, i].visited :: Coordinate(i, j);
    ok, passages := FillLoop(a, stack, rng, seen);
  }

  /** The loop of the fill, from the bottom right room at the bottom of the
      stack, with the way down and the way right marked taken. */
  method FillLoop(a: array2<Room>, stack: array<Coordinate>, rng: Random, ghost seen0: set<Coordinate>)
    returns (ok: bool, ghost passages: set<Edge>)
    requires a.Length0 > 0 && a.Length1 > 0
    requires stack.Length == a.Length0 * a.Length1 - 16 * (a.Length1 / 4) * (a.Length0 / 4) > 0
    requires stack[0] == Coordinate(a.Length1 - 1, a.Length0 - 1) && !InTiles(a.Length1, a.Length0, stack[0])
    requires Walking(a, stack, 0, stack[0], 2, seen0)
    requires forall p :: Inside(a.Length1, a.Length0, p) && OnFence(a.Length1, a.Length0, p) ==> p in seen0
    requires forall e :: e in OpenEdges(a) ==> TileEdge(a.Length1, a.Length0, e)
    modifies a, stack, rng
    ensures Symmetric(a) && Closed(a) && NoFlags(a)
    ensures forall j, i :: 0 <= j < a.Length0 && 0 <= i < a.Length1 && InTiles(a.Length1, a.Length0, Coordinate(i, j)) ==>
              a[j, i] == old(a[j, i])
    ensures OpenEdges(a) == old(OpenEdges(a)) + passages && old(OpenEdges(a)) * passages == {}
    ensures forall e :: e in passages ==> FillEdge(a.Length1, a.Length0, e)
    ensures ok ==> stack.Length - 1 <= |passages| <= stack.Length
    ensures ok ==> forall j, i :: 0 <= j < a.Length0 && 0 <= i < a.Length1 && !InTiles(a.Length1, a.Length0, Coordinate(i, j)) ==>
                     a[j, i].visited
    ensures !ok ==> || FreeCount(Sides(a, Coordinate(a.Length1 - 1, a.Length0 - 1))) <= 1
                    || |Unfilled(a)| <= 1
  {
    var h, w := a.Length0, a.Length1;
    var stackSize := stack.Length;
    var stackIndex := 0;
    var lastC := [false, true, true, false];
    var lastCell: int := 2;
    var c := 0;
    ghost var seen := seen0;
    var cur := stack[0];
    ghost var start := cur;
    ghost var added: set<Coordinate> := {};
    ghost var base := OpenEdges(a);
    ghost var t := Snapshot(a);
    passages := {};
    FillingStarts(a, stack, seen0, t);
    while c < stackSize
      invariant Filling(a, stack, stackIndex, cur, lastCell, lastC, c, seen, added, start, base, passages, t)
      decreases stackSize - c, stackIndex
    {
      var ok';
      stackIndex, cur, lastCell, lastC, c, ok', seen, added, passages :=
        FillTurn(a, stack, stackIndex, cur, lastCell, lastC, c, rng, seen, added, start, base, passages, t);
      if !ok' {
        return false, passages;
      }
    }
    FillingEnds(a, stack, stackIndex, cur, lastCell, lastC, seen, added, start, base, passages, t);
    ok := true;
  }

  /** The fill loop starts in the bottom right room, with nothing entered
      and no passage made. */
  lemma FillingStarts(a: array2<Room>, stack: array<Coordinate>, seen0: set<Coordinate>, t: seq<seq<Room>>)
    requires stack.Length == a.Length0 * a.Length1 - 16 * (a.Length1 / 4) * (a.Length0 / 4) > 0
    requires stack[0] == Coordinate(a.Length1 - 1, a.Length0 - 1) && !InTiles(a.Length1, a.Length0, stack[0])
    requires Walking(a, stack, 0, stack[0], 2, seen0)
    requires forall p :: Inside(a.Length1, a.Length0, p) && OnFence(a.Length1, a.Length0, p) ==> p in seen0
    requires forall e :: e in OpenEdges(a) ==> TileEdge(a.Length1, a.Length0, e)
    requires t == Snapshot(a)
    ensures Filling(a, stack, 0, stack[0], 2, [false, true, true, false], 0, seen0, {}, stack[0], OpenEdges(a), {}, t)
  {
    assert OpenEdges(a) == OpenEdges(a) + {} && OpenEdges(a) * {} == {};
  }

  /** When the fill loop has entered as many rooms as the stack holds,
      every room outside the tiles is visited and the passages number one
      fewer than the rooms entered or as many. */
  lemma FillingEnds(a: array2<Room>, stack: array<Coordinate>, top: int, cur: Coordinate, lastCell: int,
                    lastC: seq<bool>, seen: set<Coordinate>, added: set<Coordinate>,
                    start: Coordinate, base: set<Edge>, passages: set<Edge>, t: seq<seq<Room>>)
    requires Filling(a, stack, top, cur, lastCell, lastC, stack.Length, seen, added, start, base, passages, t)
    ensures Symmetric(a) && Closed(a) && NoFlags(a) && TilesKept(a, t)
    ensures OpenEdges(a) == base + passages && base * passages == {}
    ensures forall e :: e in passages ==> FillEdge(a.Length1, a.Length0, e)
    ensures stack.Length - 1 <= |passages| <= stack.Length
    ensures forall j, i :: 0 <= j < a.Length0 && 0 <= i < a.Length1 && !InTiles(a.Length1, a.Length0, Coordinate(i, j)) ==>
              a[j, i].visited
  {
    OutsideVisited(a, added, seen);
  }

  /** The state of the fill loop after `c` rooms entered: the walk, the
      fence of the tiles marked visited, the rooms entered outside the
      tiles, the tiles as they were, and the open edges split into the
      tiles' own and the fill's passages, counted against the rooms
      entered. */
  ghost predicate Filling(a: array2<Room>, stack: array<Coordinate>, top: int, cur: Coordinate, lastCell: int,
                          lastC: seq<bool>, c: int, seen: set<Coordinate>, added: set<Coordinate>,
                          start: Coordinate, base: set<Edge>, passages: set<Edge>, t: seq<seq<Room>>)
    reads a, stack
  {
    && Walking(a, stack, top, cur, lastCell, seen) && lastCell < 4 && |lastC| == 4 && lastC[lastCell]
    && stack.Length == a.Length0 * a.Length1 - 16 * (a.Length1 / 4) * (a.Length0 / 4)
    && (forall p :: Inside(a.Length1, a.Length0, p) && OnFence(a.Length1, a.Length0, p) ==> p in seen)
    && 0 <= top <= c <= stack.Length && |added| == c && added <= seen
    && start == Coordinate(a.Length1 - 1, a.Length0 - 1) && !InTiles(a.Length1, a.Length0, start)
    && (forall p :: p in added ==> Inside(a.Length1, a.Length0, p) && !InTiles(a.Length1, a.Length0, p))
    && (forall e :: e in base ==> TileEdge(a.Length1, a.Length0, e))
    && OpenEdges(a) == base + passages && base * passages == {}
    && (forall e :: e in passages ==> FillEdge(a.Length1, a.Length0, e))
    && Tracked(stack[..], passages, top, added, start) && TilesKept(a, t)
  }

  /** One turn of the fill loop: a carve enters one more room, a pop goes
      one entry down the stack, and a fault is one of the two the fill can
      hit. */
  method FillTurn(a: array2<Room>, stack: array<Coordinate>, top: int, cur: Coordinate, lastCell: int,
                  lastC: seq<bool>, c: int, rng: Random, ghost seen: set<Coordinate>, ghost added: set<Coordinate>,
                  ghost start: Coordinate, ghost base: set<Edge>, ghost passages: set<Edge>,
                  ghost t: seq<seq<Room>>)
    returns (top': int, cur': Coordinate, lastCell': int, lastC': seq<bool>, c': int, ok: bool,
             ghost seen': set<Coordinate>, ghost added': set<Coordinate>, ghost passages': set<Edge>)
    requires Filling(a, stack, top, cur, lastCell, lastC, c, seen, added, start, base, passages, t)
    requires c < stack.Length
    modifies a, stack, rng
    ensures Symmetric(a) && Closed(a) && NoFlags(a) && TilesKept(a, t)
    ensures OpenEdges(a) == base + passages' && base * passages' == {}
    ensures forall e :: e in passages' ==> FillEdge(a.Length1, a.Length0, e)
    ensures ok ==> Filling(a, stack, top', cur', lastCell', lastC', c', seen', added', start, base, passages', t)
    ensures ok ==> c' == c + 1 || (c' == c && top' < top)
    ensures !ok ==> || FreeCount(Sides(a, Coordinate(a.Length1 - 1, a.Length0 - 1))) <= 1
                    || |Unfilled(a)| <= 1
  {
    var carved;
    top', cur', lastCell', lastC', carved, ok, passages' :=
      FillAdvance(a, stack, top, cur, lastCell, lastC, rng, seen, added, start, base, passages, t);
    c', seen', added' := c, seen, added;
    if !ok {
      if carved {
        FewUnfilled(a, added, seen);
      } else {
        assert StuckBut(a, Coordinate(a.Length1 - 1, a.Length0 - 1), lastCell);
        FreeCountOfFour(Sides(a, Coordinate(a.Length1 - 1, a.Length0 - 1)));
      }
    } else if carved {
      FillingGrows(a, stack, top', cur', lastCell', lastC', c, seen, added, start, base, passages', t);
      c', seen', added' := c + 1, seen + {cur'}, added + {cur'};
    } else {
      FillingBack(a, stack, top', cur', lastCell', lastC', c, seen, added, start, base, passages', t);
    }
  }

  /** After a carve into a room outside the tiles, the loop's state holds
      with that room entered. */
  lemma FillingGrows(a: array2<Room>, stack: array<Coordinate>, top: int, cur: Coordinate, lastCell: int,
                     lastC: seq<bool>, c: int, seen: set<Coordinate>, added: set<Coordinate>,
                     start: Coordinate, base: set<Edge>, passages: set<Edge>, t: seq<seq<Room>>)
    requires Walking(a, stack, top, cur, lastCell, seen + {cur}) && 0 <= lastCell < 4 && |lastC| == 4 && lastC[lastCell]
    requires stack.Length == a.Length0 * a.Length1 - 16 * (a.Length1 / 4) * (a.Length0 / 4)
    requires forall p :: Inside(a.Length1, a.Length0, p) && OnFence(a.Length1, a.Length0, p) ==> p in seen
    requires 0 <= top <= c + 1 && c < stack.Length && |added| == c && added <= seen && cur !in seen
    requires start == Coordinate(a.Length1 - 1, a.Length0 - 1) && !InTiles(a.Length1, a.Length0, start)
    requires forall p :: p in added ==> Inside(a.Length1, a.Length0, p) && !InTiles(a.Length1, a.Length0, p)
    requires Inside(a.Length1, a.Length0, cur) && !InTiles(a.Length1, a.Length0, cur)
    requires forall e :: e in base ==> TileEdge(a.Length1, a.Length0, e)
    requires OpenEdges(a) == base + passages && base * passages == {}
    requires forall e :: e in passages ==> FillEdge(a.Length1, a.Length0, e)
    requires Tracked(stack[..], passages, top, added + {cur}, start) && TilesKept(a, t)
    ensures Filling(a, stack, top, cur, lastCell, lastC, c + 1, seen + {cur}, added + {cur}, start, base, passages, t)
  {
    AddRoom(added, cur);
  }

  /** After a pop, the loop's state holds one entry lower on the stack. */
  lemma FillingBack(a: array2<Room>, stack: array<Coordinate>, top: int, cur: Coordinate, lastCell: int,
                    lastC: seq<bool>, c: int, seen: set<Coordinate>, added: set<Coordinate>,
                    start: Coordinate, base: set<Edge>, passages: set<Edge>, t: seq<seq<Room>>)
    requires Walking(a, stack, top, cur, lastCell, seen) && 0 <= lastCell < 4 && |lastC| == 4 && lastC[lastCell]
    requires stack.Length == a.Length0 * a.Length1 - 16 * (a.Length1 / 4) * (a.Length0 / 4)
    requires forall p :: Inside(a.Length1, a.Length0, p) && OnFence(a.Length1, a.Length0, p) ==> p in seen
    requires 0 <= top <= c <= stack.Length && |added| == c && added <= seen
    requires start == Coordinate(a.Length1 - 1, a.Length0 - 1) && !InTiles(a.Length1, a.Length0, start)
    requires forall p :: p in added ==> Inside(a.Length1, a.Length0, p) && !InTiles(a.Length1, a.Length0, p)
    requires forall e :: e in base ==> TileEdge(a.Length1, a.Length0, e)
    requires OpenEdges(a) == base + passages && base * passages == {}
    requires forall e :: e in passages ==> FillEdge(a.Length1, a.Length0, e)
    requires Tracked(stack[..], passages, top, added, start) && TilesKept(a, t)
    ensures Filling(a, stack, top, cur, lastCell, lastC, c, seen, added, start, base, passages, t)
  {
  }

  /** One iteration of the fill with its bookkeeping: a carve adds a
      passage between two rooms outside the tiles, never one of the tiles'
      own, and enters a room not entered before. */
  method FillAdvance(a: array2<Room>, stack: array<Coordinate>, top: int, cur: Coordinate, lastCell: int,
                     lastC: seq<bool>, rng: Random, ghost seen: set<Coordinate>, ghost added: set<Coordinate>,
                     ghost start: Coordinate, ghost base: set<Edge>, ghost passages: set<Edge>,
                     ghost t: seq<seq<Room>>)
    returns (top': int, cur': Coordinate, lastCell': int, lastC': seq<bool>, carved: bool, ok: bool,
             ghost passages': set<Edge>)
    requires Walking(a, stack, top, cur, lastCell, seen) && lastCell < 4 && |lastC| == 4 && lastC[lastCell]
    requires forall p :: Inside(a.Length1, a.Length0, p) && OnFence(a.Length1, a.Length0, p) ==> p in seen
    requires added <= seen && Inside(a.Length1, a.Length0, start) && !InTiles(a.Length1, a.Length0, start)
    requires forall p :: p in added ==> Inside(a.Length1, a.Length0, p) && !InTiles(a.Length1, a.Length0, p)
    requires forall e :: e in base ==> TileEdge(a.Length1, a.Length0, e)
    requires OpenEdges(a) == base + passages && base * passages == {}
    requires forall e :: e in passages ==> FillEdge(a.Length1, a.Length0, e)
    requires Tracked(stack[..], passages, top, added, start) && TilesKept(a, t)
    modifies a, stack, rng
    ensures Symmetric(a) && Closed(a) && NoFlags(a) && TilesKept(a, t)
    ensures OpenEdges(a) == base + passages' && base * passages' == {}
    ensures forall e :: e in passages' ==> FillEdge(a.Length1, a.Length0, e)
    ensures ok ==> 0 <= lastCell' < 4 && |lastC'| == 4 && lastC'[lastCell']
    ensures ok && carved ==> cur' !in seen && top' == top + 1 && Walking(a, stack, top', cur', lastCell', seen + {cur'})
    ensures ok && carved ==> Inside(a.Length1, a.Length0, cur') && !InTiles(a.Length1, a.Length0, cur')
    ensures ok && carved ==> Tracked(stack[..], passages', top', added + {cur'}, start)
    ensures ok && !carved ==> top' == top - 1 && Walking(a, stack, top', cur', lastCell', seen)
    ensures ok && !carved ==> Tracked(stack[..], passages', top', added, start)
    ensures !ok && !carved ==> top == 0 && StuckBut(a, cur, lastCell)
    ensures !ok && carved ==> top + 1 == stack.Length && Carving(a, seen)
  {
    ghost var s := stack[..];
    TrackedTop(s, passages, top, added, start);
    assert cur == s[top] && (cur == start || cur in added);
    ghost var side: Direction, e: Edge;
    ghost var before := OpenEdges(a);
    top', cur', lastCell', lastC', carved, ok, side, e := FillOutside(a, stack, top, cur, lastCell, lastC, rng, seen, t);
    passages' := passages;
    if carved {
      NewPassage(a.Length1, a.Length0, base, e);
      AddPassage(a.Length1, a.Length0, before, OpenEdges(a), base, passages, e);
      passages' := passages + {e};
      if ok {
        PushedTracked(s, stack[..], passages, passages', top, top', added, start, cur, side, cur');
      }
    }
  }

  /** The rooms of the grid as a value, row by row. */
  ghost function Snapshot(a: array2<Room>): (r: seq<seq<Room>>)
    reads a
    ensures |r| == a.Length0 && forall j :: 0 <= j < a.Length0 ==> |r[j]| == a.Length1
    ensures forall j, i :: 0 <= j < a.Length0 && 0 <= i < a.Length1 ==> r[j][i] == a[j, i]
  {
    seq(a.Length0, j requires 0 <= j < a.Length0 reads a => seq(a.Length1, i requires 0 <= i < a.Length1 reads a => a[j, i]))
  }

  /** The rooms of the tiles are those of the snapshot `t`. */
  ghost predicate TilesKept(a: array2<Room>, t: seq<seq<Room>>)
    reads a
  {
    && |t| == a.Length0 && (forall j :: 0 <= j < |t| ==> |t[j]| == a.Length1)
    && forall j, i :: 0 <= j < a.Length0 && 0 <= i < a.Length1 && InTiles(a.Length1, a.Length0, Coordinate(i, j)) ==>
         a[j, i] == t[j][i]
  }

  /** One iteration of the fill from a room outside the tiles: the tiles
      stay as they are, and a carve opens one edge, between two rooms
      outside the tiles. */
  method FillOutside(a: array2<Room>, stack: array<Coordinate>, top: int, cur: Coordinate, lastCell: int,
                     lastC: seq<bool>, rng: Random, ghost seen: set<Coordinate>, ghost t: seq<seq<Room>>)
    returns (top': int, cur': Coordinate, lastCell': int, lastC': seq<bool>, carved: bool, ok: bool,
             ghost side: Direction, ghost e: Edge)
    requires Walking(a, stack, top, cur, lastCell, seen) && lastCell < 4 && |lastC| == 4 && lastC[lastCell]
    requires forall p :: Inside(a.Length1, a.Length0, p) && OnFence(a.Length1, a.Length0, p) ==> p in seen
    requires Inside(a.Length1, a.Length0, cur) && !InTiles(a.Length1, a.Length0, cur) && TilesKept(a, t)
    modifies a, stack, rng
    ensures Symmetric(a) && Closed(a) && NoFlags(a) && TilesKept(a, t)
    ensures carved ==> e == EdgeOf(cur, side) && FillEdge(a.Length1, a.Length0, e)
    ensures carved ==> OpenEdges(a) == old(OpenEdges(a)) + {e} && Neighbour(cur, side) !in seen
    ensures !carved ==> OpenEdges(a) == old(OpenEdges(a))
    ensures ok ==> 0 <= lastCell' < 4 && |lastC'| == 4 && lastC'[lastCell']
    ensures ok && carved ==> cur' == Neighbour(cur, side) && top' == top + 1
    ensures ok && carved ==> Walking(a, stack, top', cur', lastCell', seen + {cur'})
    ensures ok && carved ==> stack[..] == old(stack[..])[top' := cur']
    ensures ok && !carved ==> top' == top - 1 && Walking(a, stack, top', cur', lastCell', seen)
    ensures ok && !carved ==> stack[..] == old(stack[..])
    ensures !ok && !carved ==> top == 0 && StuckBut(a, cur, lastCell)
    ensures !ok && carved ==> top + 1 == stack.Length && Carving(a, seen)
  {
    var w, h := a.Length1, a.Length0;
    top', cur', lastCell', lastC', carved, ok, side := FillStep(a, stack, top, cur, lastCell, lastC, rng, seen);
    e := EdgeOf(cur, side);
    if carved {
      var n := Neighbour(cur, side);
      LeaveFence(w, h, cur, n);
      forall j, i | 0 <= j < h && 0 <= i < w && InTiles(w, h, Coordinate(i, j))
        ensures a[j, i] == t[j][i]
      {
        assert Coordinate(i, j) != cur && Coordinate(i, j) != n;
      }
    }
  }

  /** Edge `e` joins two rooms of the tiles. */
  ghost predicate TileEdge(w: int, h: int, e: Edge) {
    InTiles(w, h, Coordinate(e.x, e.y)) && InTiles(w, h, Across(e))
  }

  /** Edge `e` joins two rooms of the grid outside the tiles. */
  ghost predicate FillEdge(w: int, h: int, e: Edge) {
    && Inside(w, h, Coordinate(e.x, e.y)) && !InTiles(w, h, Coordinate(e.x, e.y))
    && Inside(w, h, Across(e)) && !InTiles(w, h, Across(e))
  }

  /** One passage more, between two rooms outside the tiles and none of
      the tiles' own, keeps the open edges split into the tiles' passages
      and the fill's. */
  lemma AddPassage(w: int, h: int, before: set<Edge>, after: set<Edge>, base: set<Edge>, passages: set<Edge>, e: Edge)
    requires before == base + passages && base * passages == {} && after == before + {e} && e !in base
    requires (forall x :: x in passages ==> FillEdge(w, h, x)) && FillEdge(w, h, e)
    ensures after == base + (passages + {e}) && base * (passages + {e}) == {}
    ensures forall x :: x in passages + {e} ==> FillEdge(w, h, x)
  {
  }

  /** A passage between two rooms outside the tiles is none of the tiles'
      own passages. */
  lemma NewPassage(w: int, h: int, base: set<Edge>, e: Edge)
    requires forall b :: b in base ==> TileEdge(w, h, b)
    requires FillEdge(w, h, e)
    ensures e !in base
  {
  }

  /** Once as many rooms outside the tiles have been entered as there are
      such rooms, every one of them is visited. */
  lemma OutsideVisited(a: array2<Room>, added: set<Coordinate>, seen: set<Coordinate>)
    requires Carving(a, seen) && added <= seen
    requires |added| == a.Length0 * a.Length1 - 16 * (a.Length1 / 4) * (a.Length0 / 4)
    requires forall p :: p in added ==> Inside(a.Length1, a.Length0, p) && !InTiles(a.Length1, a.Length0, p)
    ensures forall j, i :: 0 <= j < a.Length0 && 0 <= i < a.Length1 && !InTiles(a.Length1, a.Length0, Coordinate(i, j)) ==>
              a[j, i].visited
  {
    var w, h := a.Length1, a.Length0;
    var out := Cells(w, h) - Cells(4 * (w / 4), 4 * (h / 4));
    OutsideCount(w, h);
    forall p | p in added ensures p in out {
      OutsideCells(w, h, p);
    }
    FullSubset(added, out);
    forall j, i | 0 <= j < h && 0 <= i < w && !InTiles(w, h, Coordinate(i, j))
      ensures a[j, i].visited
    {
      OutsideCells(w, h, Coordinate(i, j));
    }
  }

  /** Once all but one of the rooms outside the tiles have been entered,
      at most one of them is not visited. */
  lemma FewUnfilled(a: array2<Room>, added: set<Coordinate>, seen: set<Coordinate>)
    requires Carving(a, seen) && added <= seen
    requires |added| + 1 == a.Length0 * a.Length1 - 16 * (a.Length1 / 4) * (a.Length0 / 4)
    requires forall p :: p in added ==> Inside(a.Length1, a.Length0, p) && !InTiles(a.Length1, a.Length0, p)
    ensures |Unfilled(a)| <= 1
  {
    var w, h := a.Length1, a.Length0;
    var out := Cells(w, h) - Cells(4 * (w / 4), 4 * (h / 4));
    OutsideCount(w, h);
    forall p | p in added ensures p in out {
      OutsideCells(w, h, p);
    }
    forall p | p in Unfilled(a) ensures p in out - added {
      OutsideCells(w, h, p);
    }
    SubsetCard(Unfilled(a), out - added);
  }

  // ----- the doors between the tiles -----

  /** Row `r` of tile `(x, y)` has no wall on its right side. */
  ghost predicate DoorRight(a: array2<Room>, x: int, y: int, r: int)
    reads a
  {
    0 <= 4 * y + r < a.Length0 && 0 <= 4 * x + 3 < a.Length1 && !a[4 * y + r, 4 * x + 3].walls.right
  }

  /** Column `r` of tile `(x, y)` has no wall on its bottom side. */
  ghost predicate DoorDown(a: array2<Room>, x: int, y: int, r: int)
    reads a
  {
    0 <= 4 * y + 3 < a.Length0 && 0 <= 4 * x + r < a.Length1 && !a[4 * y + 3, 4 * x + r].walls.bottom
  }

  /** Tile `(x, y)` has a door into the rooms to its right and a door into
      the rooms below it, wherever there are rooms there. */
  ghost predicate Joined(a: array2<Room>, x: int, y: int)
    reads a
  {
    && (4 * x + 4 < a.Length1 ==> exists r :: 0 <= r < 4 && DoorRight(a, x, y, r))
    && (4 * y + 4 < a.Length0 ==> exists r :: 0 <= r < 4 && DoorDown(a, x, y, r))
  }

  /** Room `after` is room `before` with some of its walls knocked down. */
  predicate Opened(before: Room, after: Room) {
    && after == before.(walls := after.walls)
    && forall d: Direction :: !Wall(before.walls, d) ==> !Wall(after.walls, d)
  }

  /** Side `d` of room `c` crosses the border of a tile into another room
      of the grid: the sides the door loop may knock down. */
  predicate DoorSide(w: int, h: int, c: Coordinate, d: Direction) {
    var n := Neighbour(c, d);
    && Inside(w, h, c) && Inside(w, h, n)
    && (InTiles(w, h, c) || InTiles(w, h, n))
    && (c.x / 4 != n.x / 4 || c.y / 4 != n.y / 4)
  }

  /** Room `c` went from `before` to `after` by doors alone: only its door
      sides changed, and only from walled to open. */
  predicate DoorsOnly(w: int, h: int, c: Coordinate, before: Room, after: Room) {
    && after == before.(walls := after.walls)
    && forall e: Direction :: Wall(after.walls, e) != Wall(before.walls, e) ==> DoorSide(w, h, c, e) && !Wall(after.walls, e)
  }

  /** Every room of the grid is its room in the snapshot `t` with doors
      knocked in. */
  ghost predicate DoorsSince(a: array2<Room>, t: seq<seq<Room>>)
    reads a
  {
    && |t| == a.Length0 && (forall j :: 0 <= j < |t| ==> |t[j]| == a.Length1)
    && forall j, i :: 0 <= j < a.Length0 && 0 <= i < a.Length1 ==>
         DoorsOnly(a.Length1, a.Length0, Coordinate(i, j), t[j][i], a[j, i])
  }

  /** Knocking down the wall on side `d` of room `c` and the facing wall,
      both door sides, keeps room `p` a room of the snapshot with doors
      knocked in. */
  lemma KnockDoor(w: int, h: int, p: Coordinate, c: Coordinate, d: Direction, t: Room, before: Room, after: Room)
    requires DoorsOnly(w, h, p, t, before) && after == AfterEdge(before, p.y, p.x, c, d, false)
    requires DoorSide(w, h, c, d) && DoorSide(w, h, Neighbour(c, d), Opposite(d))
    ensures DoorsOnly(w, h, p, t, after)
  {
    if p == c {
      assert Wall(after.walls, d) == false;
    } else if p == Neighbour(c, d) {
      assert Wall(after.walls, Opposite(d)) == false;
    }
  }

  /** The door on the right of row `r` of tile `(x, y)` crosses the tile's
      right border, seen from either side. */
  lemma RightDoorSides(w: int, h: int, x: int, y: int, r: int)
    requires 0 <= x < w / 4 && 0 <= y < h / 4 && 0 <= r < 4 && 4 * x + 4 < w
    ensures DoorSide(w, h, Coordinate(4 * x + 3, 4 * y + r), 1)
    ensures DoorSide(w, h, Neighbour(Coordinate(4 * x + 3, 4 * y + r), 1), Opposite(1))
  {
  }

  /** The door below column `r` of tile `(x, y)` crosses the tile's bottom
      border, seen from either side. */
  lemma DownDoorSides(w: int, h: int, x: int, y: int, r: int)
    requires 0 <= x < w / 4 && 0 <= y < h / 4 && 0 <= r < 4 && 4 * y + 4 < h
    ensures DoorSide(w, h, Coordinate(4 * x + r, 4 * y + 3), 2)
    ensures DoorSide(w, h, Neighbour(Coordinate(4 * x + r, 4 * y + 3), 2), Opposite(2))
  {
  }

  /** `OpenEdge`, seen as a change that only knocks walls down. */
  method Open(a: array2<Room>, c: Coordinate, d: Direction)
    requires InGrid(a, c) && InGrid(a, Neighbour(c, d))
    requires Symmetric(a) && Closed(a) && NoFlags(a)
    modifies a
    ensures Symmetric(a) && Closed(a) && NoFlags(a)
    ensures !Wall(a[c.y, c.x].walls, d)
    ensures forall y, x :: 0 <= y < a.Length0 && 0 <= x < a.Length1 ==> Opened(old(a[y, x]), a[y, x])
    ensures forall y, x :: 0 <= y < a.Length0 && 0 <= x < a.Length1 ==>
              a[y, x] == AfterEdge(old(a[y, x]), y, x, c, d, false)
  {
    OpenEdge(a, c, d);
    forall y, x | 0 <= y < a.Length0 && 0 <= x < a.Length1
      ensures Opened(old(a[y, x]), a[y, x])
    {
      assert a[y, x] == AfterEdge(old(a[y, x]), y, x, c, d, false);
    }
  }

  /** The doors recorded so far, by tile, are open. */
  ghost predicate Doors(a: array2<Room>, rights: map<Coordinate, int>, downs: map<Coordinate, int>)
    reads a
  {
    && (forall t :: t in rights ==> 0 <= rights[t] < 4 && DoorRight(a, t.x, t.y, rights[t]))
    && (forall t :: t in downs ==> 0 <= downs[t] < 4 && DoorDown(a, t.x, t.y, downs[t]))
  }

  /** Knocks a door through side `d` of room `c`, across a tile border:
      the doors recorded so far stay open, and every room still differs
      from the snapshot `laid` only by sides across tile borders opened. */
  method Knock(a: array2<Room>, c: Coordinate, d: Direction, ghost rights: map<Coordinate, int>,
               ghost downs: map<Coordinate, int>, ghost laid: seq<seq<Room>>)
    requires DoorSide(a.Length1, a.Length0, c, d) && DoorSide(a.Length1, a.Length0, Neighbour(c, d), Opposite(d))
    requires Symmetric(a) && Closed(a) && NoFlags(a) && Doors(a, rights, downs) && DoorsSince(a, laid)
    modifies a
    ensures Symmetric(a) && Closed(a) && NoFlags(a) && Doors(a, rights, downs) && DoorsSince(a, laid)
    ensures !Wall(a[c.y, c.x].walls, d)
    ensures forall j, i :: 0 <= j < a.Length0 && 0 <= i < a.Length1 ==> a[j, i].visited == old(a[j, i].visited)
  {
    ghost var pre := Snapshot(a);
    SnapshotDoors(a, pre, rights, downs, laid);
    Open(a, c, d);
    assert forall y, x :: 0 <= y < a.Length0 && 0 <= x < a.Length1 ==>
             && a[y, x] == AfterEdge(pre[y][x], y, x, c, d, false)
             && Opened(pre[y][x], a[y, x]);
    KnockKeeps(a, pre, c, d, rights, downs, laid);
  }

  /** The recorded doors are open in the snapshot `pre`. */
  ghost predicate DoorsIn(pre: seq<seq<Room>>, rights: map<Coordinate, int>, downs: map<Coordinate, int>) {
    && (forall t :: t in rights ==>
          && 0 <= rights[t] < 4 && 0 <= 4 * t.y + rights[t] < |pre| && 0 <= 4 * t.x + 3 < |pre[4 * t.y + rights[t]]|
          && !pre[4 * t.y + rights[t]][4 * t.x + 3].walls.right)
    && (forall t :: t in downs ==>
          && 0 <= downs[t] < 4 && 0 <= 4 * t.y + 3 < |pre| && 0 <= 4 * t.x + downs[t] < |pre[4 * t.y + 3]|
          && !pre[4 * t.y + 3][4 * t.x + downs[t]].walls.bottom)
  }

  /** Every room of the snapshot `pre` differs from the snapshot `laid`
      only by sides across tile borders opened. */
  ghost predicate SinceIn(pre: seq<seq<Room>>, laid: seq<seq<Room>>, w: int, h: int) {
    && |pre| == h && (forall j :: 0 <= j < h ==> |pre[j]| == w)
    && |laid| == h && (forall j :: 0 <= j < h ==> |laid[j]| == w)
    && forall j, i :: 0 <= j < h && 0 <= i < w ==> DoorsOnly(w, h, Coordinate(i, j), laid[j][i], pre[j][i])
  }

  /** What the grid promises about its doors holds of a snapshot of it. */
  lemma SnapshotDoors(a: array2<Room>, pre: seq<seq<Room>>, rights: map<Coordinate, int>,
                      downs: map<Coordinate, int>, laid: seq<seq<Room>>)
    requires |pre| == a.Length0 && (forall j :: 0 <= j < a.Length0 ==> |pre[j]| == a.Length1)
    requires forall j, i :: 0 <= j < a.Length0 && 0 <= i < a.Length1 ==> pre[j][i] == a[j, i]
    requires Doors(a, rights, downs) && DoorsSince(a, laid)
    ensures DoorsIn(pre, rights, downs) && SinceIn(pre, laid, a.Length1, a.Length0)
  {
  }

  /** A door knocked through side `d` of room `c`, across a tile border,
      keeps the recorded doors open and every room a copy of the snapshot
      `laid` with only sides across tile borders opened. */
  lemma KnockKeeps(a: array2<Room>, pre: seq<seq<Room>>, c: Coordinate, d: Direction,
                   rights: map<Coordinate, int>, downs: map<Coordinate, int>, laid: seq<seq<Room>>)
    requires DoorsIn(pre, rights, downs) && SinceIn(pre, laid, a.Length1, a.Length0)
    requires DoorSide(a.Length1, a.Length0, c, d) && DoorSide(a.Length1, a.Length0, Neighbour(c, d), Opposite(d))
    requires forall y, x :: 0 <= y < a.Length0 && 0 <= x < a.Length1 ==>
               && a[y, x] == AfterEdge(pre[y][x], y, x, c, d, false)
               && Opened(pre[y][x], a[y, x])
    ensures Doors(a, rights, downs) && DoorsSince(a, laid)
  {
    forall j, i | 0 <= j < a.Length0 && 0 <= i < a.Length1
      ensures DoorsOnly(a.Length1, a.Length0, Coordinate(i, j), laid[j][i], a[j, i])
    {
      KnockDoor(a.Length1, a.Length0, Coordinate(i, j), c, d, laid[j][i], pre[j][i], a[j, i]);
    }
    forall t | t in rights ensures DoorRight(a, t.x, t.y, rights[t]) {
      assert !Wall(pre[4 * t.y + rights[t]][4 * t.x + 3].walls, 1);
    }
    forall t | t in downs ensures DoorDown(a, t.x, t.y, downs[t]) {
      assert !Wall(pre[4 * t.y + 3][4 * t.x + downs[t]].walls, 2);
    }
  }

  /** The first half of one iteration of the corrected door loop: a door in
      a random row of the tile's right column, where rooms lie to the right. */
  method JoinRight(a: array2<Room>, rng: Random, x: int, y: int, ghost rights: map<Coordinate, int>,
                   ghost downs: map<Coordinate, int>, ghost laid: seq<seq<Room>>) returns (r: int)
    requires 0 <= x < a.Length1 / 4 && 0 <= y < a.Length0 / 4
    requires Symmetric(a) && Closed(a) && NoFlags(a) && Doors(a, rights, downs) && DoorsSince(a, laid)
    modifies a, rng
    ensures Symmetric(a) && Closed(a) && NoFlags(a) && Doors(a, rights, downs) && DoorsSince(a, laid)
    ensures 4 * x + 4 < a.Length1 ==> 0 <= r < 4 && DoorRight(a, x, y, r)
    ensures forall j, i :: 0 <= j < a.Length0 && 0 <= i < a.Length1 ==> a[j, i].visited == old(a[j, i].visited)
  {
    r := 0;
    if 4 * x + 4 < a.Length1 {
      r := rng.Intn(4);
      RightDoorSides(a.Length1, a.Length0, x, y, r);
      Knock(a, Coordinate(4 * x + 3, 4 * y + r), 1, rights, downs, laid);
    }
  }

  /** The second half: a door in a random column of the tile's bottom row,
      where rooms lie below. */
  method JoinDown(a: array2<Room>, rng: Random, x: int, y: int, ghost rights: map<Coordinate, int>,
                  ghost downs: map<Coordinate, int>, ghost laid: seq<seq<Room>>) returns (r: int)
    requires 0 <= x < a.Length1 / 4 && 0 <= y < a.Length0 / 4
    requires Symmetric(a) && Closed(a) && NoFlags(a) && Doors(a, rights, downs) && DoorsSince(a, laid)
    modifies a, rng
    ensures Symmetric(a) && Closed(a) && NoFlags(a) && Doors(a, rights, downs) && DoorsSince(a, laid)
    ensures 4 * y + 4 < a.Length0 ==> 0 <= r < 4 && DoorDown(a, x, y, r)
    ensures forall j, i :: 0 <= j < a.Length0 && 0 <= i < a.Length1 ==> a[j, i].visited == old(a[j, i].visited)
  {
    r := 0;
    if 4 * y + 4 < a.Length0 {
      r := rng.Intn(4);
      DownDoorSides(a.Length1, a.Length0, x, y, r);
      Knock(a, Coordinate(4 * x + r, 4 * y + 3), 2, rights, downs, laid);
    }
  }

  /** One iteration of the outer door loop: the doors of the tiles in
      column `x`, recorded in `rights` and `downs`. */
  method JoinColumn(a: array2<Room>, rng: Random, x: int, ghost rights: map<Coordinate, int>,
                    ghost downs: map<Coordinate, int>, ghost laid: seq<seq<Room>>)
    returns (ghost rights': map<Coordinate, int>, ghost downs': map<Coordinate, int>)
    requires 0 <= x < a.Length1 / 4
    requires Symmetric(a) && Closed(a) && NoFlags(a) && Doors(a, rights, downs) && DoorsSince(a, laid)
    modifies a, rng
    ensures Symmetric(a) && Closed(a) && NoFlags(a) && Doors(a, rights', downs') && DoorsSince(a, laid)
    ensures forall t :: t in rights ==> t in rights'
    ensures forall t :: t in downs ==> t in downs'
    ensures forall y :: 0 <= y < a.Length0 / 4 && 4 * x + 4 < a.Length1 ==> Coordinate(x, y) in rights'
    ensures forall y :: 0 <= y < a.Length0 / 4 && 4 * y + 4 < a.Length0 ==> Coordinate(x, y) in downs'
    ensures forall j, i :: 0 <= j < a.Length0 && 0 <= i < a.Length1 ==> a[j, i].visited == old(a[j, i].visited)
  {
    rights', downs' := rights, downs;
    for y := 0 to a.Length0 / 4
      invariant Symmetric(a) && Closed(a) && NoFlags(a) && Doors(a, rights', downs') && DoorsSince(a, laid)
      invariant forall t :: t in rights ==> t in rights'
      invariant forall t :: t in downs ==> t in downs'
      invariant forall y' :: 0 <= y' < y && 4 * x + 4 < a.Length1 ==> Coordinate(x, y') in rights'
      invariant forall y' :: 0 <= y' < y && 4 * y' + 4 < a.Length0 ==> Coordinate(x, y') in downs'
    {
      var right := JoinRight(a, rng, x, y, rights', downs', laid);
      if 4 * x + 4 < a.Length1 {
        rights' := rights'[Coordinate(x, y) := right];
      }
      var down := JoinDown(a, rng, x, y, rights', downs', laid);
      if 4 * y + 4 < a.Length0 {
        downs' := downs'[Coordinate(x, y) := down];
      }
    }
  }

  /** The door loop of `patternMaze` with the guards it evidently intends
      (`4x + 4 < w`, `4y + 4 < h`): every tile gets a door into the rooms
      to its right and below it, wherever there are any, and the grid stays
      a consistent, closed maze. */
  method ConnectTiles(a: array2<Room>, rng: Random)
    requires Symmetric(a) && Closed(a) && NoFlags(a)
    modifies a, rng
    ensures Symmetric(a) && Closed(a) && NoFlags(a)
    ensures forall x, y :: 0 <= x < a.Length1 / 4 && 0 <= y < a.Length0 / 4 ==> Joined(a, x, y)
    ensures forall j, i :: 0 <= j < a.Length0 && 0 <= i < a.Length1 ==> a[j, i].visited == old(a[j, i].visited)
    ensures forall j, i :: 0 <= j < a.Length0 && 0 <= i < a.Length1 ==>
              DoorsOnly(a.Length1, a.Length0, Coordinate(i, j), old(a[j, i]), a[j, i])
    ensures old(OpenEdges(a)) <= OpenEdges(a)
  {
    ghost var laid := Snapshot(a);
    ghost var before := OpenEdges(a);
    SnapshotEdges(a, laid);
    ghost var rights, downs := JoinAll(a, rng, laid);
    DoorsKeepEdges(a, laid, before);
    AllJoined(a, rights, downs);
  }

  /** The two loops of the corrected door loop, the doors made recorded by
      tile in `rights` and `downs`. */
  method JoinAll(a: array2<Room>, rng: Random, ghost laid: seq<seq<Room>>)
    returns (ghost rights: map<Coordinate, int>, ghost downs: map<Coordinate, int>)
    requires Symmetric(a) && Closed(a) && NoFlags(a) && DoorsSince(a, laid)
    modifies a, rng
    ensures Symmetric(a) && Closed(a) && NoFlags(a) && Doors(a, rights, downs) && DoorsSince(a, laid)
    ensures forall x, y :: 0 <= x < a.Length1 / 4 && 0 <= y < a.Length0 / 4 && 4 * x + 4 < a.Length1 ==> Coordinate(x, y) in rights
    ensures forall x, y :: 0 <= x < a.Length1 / 4 && 0 <= y < a.Length0 / 4 && 4 * y + 4 < a.Length0 ==> Coordinate(x, y) in downs
  {
    var xPattern, yPattern := a.Length1 / 4, a.Length0 / 4;
    rights, downs := map[], map[];
    for x := 0 to xPattern
      invariant Symmetric(a) && Closed(a) && NoFlags(a) && Doors(a, rights, downs) && DoorsSince(a, laid)
      invariant Covers(rights, downs, x, a.Length1, a.Length0)
    {
      ghost var rights0, downs0 := rights, downs;
      rights, downs := JoinColumn(a, rng, x, rights, downs, laid);
      CoversColumn(rights0, downs0, rights, downs, x, a.Length1, a.Length0);
    }
  }

  /** Every tile in the first `x` columns that has rooms to its right has
      its right door recorded, and every one with rooms below has its
      bottom door recorded. */
  ghost predicate Covers(rights: map<Coordinate, int>, downs: map<Coordinate, int>, x: int, w: int, h: int) {
    && (forall x', y' :: 0 <= x' < x && 0 <= y' < h / 4 && 4 * x' + 4 < w ==> Coordinate(x', y') in rights)
    && (forall x', y' :: 0 <= x' < x && 0 <= y' < h / 4 && 4 * y' + 4 < h ==> Coordinate(x', y') in downs)
  }

  /** Recording the doors of column `x`, and keeping the earlier ones,
      covers one column more. */
  lemma CoversColumn(rights: map<Coordinate, int>, downs: map<Coordinate, int>,
                     rights': map<Coordinate, int>, downs': map<Coordinate, int>, x: int, w: int, h: int)
    requires Covers(rights, downs, x, w, h)
    requires (forall t :: t in rights ==> t in rights') && (forall t :: t in downs ==> t in downs')
    requires forall y :: 0 <= y < h / 4 && 4 * x + 4 < w ==> Coordinate(x, y) in rights'
    requires forall y :: 0 <= y < h / 4 && 4 * y + 4 < h ==> Coordinate(x, y) in downs'
    ensures Covers(rights', downs', x + 1, w, h)
  {
  }

  /** With a recorded door for every tile that has rooms to its right or
      below, every tile is joined. */
  lemma AllJoined(a: array2<Room>, rights: map<Coordinate, int>, downs: map<Coordinate, int>)
    requires Doors(a, rights, downs)
    requires forall x, y :: 0 <= x < a.Length1 / 4 && 0 <= y < a.Length0 / 4 && 4 * x + 4 < a.Length1 ==> Coordinate(x, y) in rights
    requires forall x, y :: 0 <= x < a.Length1 / 4 && 0 <= y < a.Length0 / 4 && 4 * y + 4 < a.Length0 ==> Coordinate(x, y) in downs
    ensures forall x, y :: 0 <= x < a.Length1 / 4 && 0 <= y < a.Length0 / 4 ==> Joined(a, x, y)
  {
    forall x, y | 0 <= x < a.Length1 / 4 && 0 <= y < a.Length0 / 4
      ensures Joined(a, x, y)
    {
      if 4 * x + 4 < a.Length1 {
        assert DoorRight(a, x, y, rights[Coordinate(x, y)]);
      }
      if 4 * y + 4 < a.Length0 {
        assert DoorDown(a, x, y, downs[Coordinate(x, y)]);
      }
    }
  }

  /** Edge `e` lies between two rooms of the snapshot `t` and carries no
      wall there. */
  ghost predicate OpenIn(t: seq<seq<Room>>, e: Edge) {
    var n := Across(e);
    && 0 <= e.y < |t| && 0 <= e.x < |t[e.y]| && 0 <= n.y < |t| && 0 <= n.x < |t[n.y]|
    && !Wall(t[e.y][e.x].walls, if e.right then 1 else 2)
  }

  /** The open edges of the grid are open in a snapshot of it. */
  lemma SnapshotEdges(a: array2<Room>, t: seq<seq<Room>>)
    requires |t| == a.Length0 && forall j :: 0 <= j < a.Length0 ==> |t[j]| == a.Length1
    requires forall j, i :: 0 <= j < a.Length0 && 0 <= i < a.Length1 ==> t[j][i] == a[j, i]
    ensures forall e :: e in OpenEdges(a) ==> OpenIn(t, e)
  {
    forall e | e in OpenEdges(a) ensures OpenIn(t, e) {
      OpenMember(a, e);
    }
  }

  /** Doors knocked into a grid keep every edge that was open. */
  lemma DoorsKeepEdges(a: array2<Room>, t: seq<seq<Room>>, before: set<Edge>)
    requires DoorsSince(a, t) && forall e :: e in before ==> OpenIn(t, e)
    ensures before <= OpenEdges(a)
  {
    forall e | e in before ensures e in OpenEdges(a) {
      var d: Direction := if e.right then 1 else 2;
      assert DoorsOnly(a.Length1, a.Length0, Coordinate(e.x, e.y), t[e.y][e.x], a[e.y, e.x]);
      assert !Wall(a[e.y, e.x].walls, d);
      OpenMember(a, e);
    }
  }

  /** The door loop of `patternMaze` as written: its guards `4x + 3 < w` and
      `4y + 3 < h` hold for every tile, so the last column of tiles writes
      the left wall of column `4 * (w/4)` and the last row of tiles the top
      wall of row `4 * (h/4)`, which lie outside the grid exactly when the
      width or the height is a multiple of 4. `ok` is false where the
      program would index out of range; it fails exactly on those sizes. */
  method ConnectTilesAsWritten(a: array2<Room>, rng: Random) returns (ok: bool)
    requires Symmetric(a) && Closed(a) && NoFlags(a)
    modifies a, rng
    ensures Symmetric(a) && Closed(a) && NoFlags(a)
    ensures ok <==> !(a.Length1 / 4 > 0 && a.Length0 / 4 > 0 && (a.Length1 % 4 == 0 || a.Length0 % 4 == 0))
  {
    var h, w := a.Length0, a.Length1;
    var xPattern, yPattern := w / 4, h / 4;
    for x := 0 to xPattern
      invariant Symmetric(a) && Closed(a) && NoFlags(a)
      invariant x > 0 && yPattern > 0 ==> 4 * x < w && 4 * yPattern < h
    {
      for y := 0 to yPattern
        invariant Symmetric(a) && Closed(a) && NoFlags(a)
        invariant y > 0 ==> 4 * x + 4 < w && 4 * y < h
      {
        if 4 * x + 3 < w {
          var r := rng.Intn(4);
          if 4 * x + 4 >= w {
            return false;
          }
          Open(a, Coordinate(4 * x + 3, 4 * y + r), 1);
        }
        if 4 * y + 3 < h {
          var r := rng.Intn(4);
          if 4 * y + 4 >= h {
            return false;
          }
          Open(a, Coordinate(4 * x + r, 4 * y + 3), 2);
        }
      }
    }
    ok := true;
  }

  // ----- the whole generator -----

  /** `patternMaze`: lay the tile over the largest part of the grid made of
      whole 4 by 4 squares, fill the rooms outside the tiles by the
      three-way backtracking carve when there are any, give every tile a
      door to its right and below (with the intended guards), and place
      Icarus and the treasure. The result is a consistent, closed maze;
      `ok` is false where the fill would index its stack out of range. */
  method PatternMaze(width: nat, height: nat, rng: Random) returns (m: Maze, ok: bool, ghost passages: set<Edge>)
    requires width > 0 && height > 0
    modifies rng
    ensures fresh(m) && fresh(m.rooms)
    ensures m.rooms.Length0 == height && m.rooms.Length1 == width
    ensures Symmetric(m.rooms) && Closed(m.rooms)
    ensures forall y, x, d: Direction ::
              0 <= y < height && 0 <= x < width && InTiles(width, height, Coordinate(x, y)) && !DoorSide(width, height, Coordinate(x, y), d) ==>
                Wall(m.rooms[y, x].walls, d) == Wall(TileWalls(x % 4, y % 4), d)
    ensures forall y, x :: 0 <= y < height && 0 <= x < width && InTiles(width, height, Coordinate(x, y)) ==>
              m.rooms[y, x].visited == TileVisited(x % 4, y % 4)
    ensures passages <= OpenEdges(m.rooms) && forall e :: e in passages ==> FillEdge(width, height, e)
    ensures ok ==> var n := width * height - 16 * (width / 4) * (height / 4); n - 1 <= |passages| <= n
    ensures ok ==> forall x, y :: 0 <= x < width / 4 && 0 <= y < height / 4 ==> Joined(m.rooms, x, y)
    ensures ok ==> forall y, x :: 0 <= y < height && 0 <= x < width && !InTiles(width, height, Coordinate(x, y)) ==>
                     m.rooms[y, x].visited
    ensures !ok ==> || FreeCount(Sides(m.rooms, Coordinate(width - 1, height - 1))) <= 1
                    || |Unfilled(m.rooms)| <= 1
    ensures ok ==> (!rng.Exhausted() ==> Placed(m)) && FlagsAt(m)
  {
    m := FullMaze(width, height);
    var rooms := m.rooms;
    ok, passages := TileAndFill(rooms, rng);
    if ok {
      label Filled:
      ConnectTiles(rooms, rng);
      label Connected:
      PlaceIcarusAndTreasure(m, rng);
      forall y, x, d: Direction |
          0 <= y < height && 0 <= x < width && InTiles(width, height, Coordinate(x, y)) && !DoorSide(width, height, Coordinate(x, y), d)
        ensures Wall(rooms[y, x].walls, d) == Wall(TileWalls(x % 4, y % 4), d)
      {
        assert old@Filled(rooms[y, x]) == PatternRoom(width, height, x, y);
        assert DoorsOnly(width, height, Coordinate(x, y), old@Filled(rooms[y, x]), old@Connected(rooms[y, x]));
      }
      forall x, y | 0 <= x < width / 4 && 0 <= y < height / 4
        ensures Joined(rooms, x, y)
      {
        assert old@Connected(Joined(rooms, x, y));
        if 4 * x + 4 < width {
          var r :| 0 <= r < 4 && old@Connected(DoorRight(rooms, x, y, r));
          assert rooms[4 * y + r, 4 * x + 3].walls == old@Connected(rooms[4 * y + r, 4 * x + 3].walls);
          assert DoorRight(rooms, x, y, r);
        }
        if 4 * y + 4 < height {
          var r :| 0 <= r < 4 && old@Connected(DoorDown(rooms, x, y, r));
          assert rooms[4 * y + 3, 4 * x + r].walls == old@Connected(rooms[4 * y + 3, 4 * x + r].walls);
          assert DoorDown(rooms, x, y, r);
        }
      }
    }
  }

  /** The tile loop and the fill of `patternMaze` on a full grid. The fill
      leaves the tiles as they were laid; the passages it carves join rooms
      outside the tiles, one per room there, less one when the carve
      returns into the bottom right room it started from. */
  method TileAndFill(rooms: array2<Room>, rng: Random) returns (ok: bool, ghost passages: set<Edge>)
    requires rooms.Length0 > 0 && rooms.Length1 > 0
    requires forall j, i :: 0 <= j < rooms.Length0 && 0 <= i < rooms.Length1 ==> rooms[j, i] == FullRoom
    modifies rooms, rng
    ensures Symmetric(rooms) && Closed(rooms) && NoFlags(rooms)
    ensures forall y, x :: 0 <= y < rooms.Length0 && 0 <= x < rooms.Length1 && InTiles(rooms.Length1, rooms.Length0, Coordinate(x, y)) ==>
              rooms[y, x] == PatternRoom(rooms.Length1, rooms.Length0, x, y)
    ensures passages <= OpenEdges(rooms)
    ensures forall e :: e in OpenEdges(rooms) && e !in passages ==> TileEdge(rooms.Length1, rooms.Length0, e)
    ensures forall e :: e in passages ==> FillEdge(rooms.Length1, rooms.Length0, e)
    ensures ok ==> var n := rooms.Length0 * rooms.Length1 - 16 * (rooms.Length1 / 4) * (rooms.Length0 / 4);
                   n - 1 <= |passages| <= n
    ensures ok ==> forall y, x :: 0 <= y < rooms.Length0 && 0 <= x < rooms.Length1 && !InTiles(rooms.Length1, rooms.Length0, Coordinate(x, y)) ==>
                     rooms[y, x].visited
    ensures !ok ==> || FreeCount(Sides(rooms, Coordinate(rooms.Length1 - 1, rooms.Length0 - 1))) <= 1
                    || |Unfilled(rooms)| <= 1
  {
    var width, height := rooms.Length1, rooms.Length0;
    PlaceTiles(rooms);
    LaidTilesConsistent(rooms);
    LaidEdges(rooms);
    ok, passages := true, {};
    if width > 4 * (width / 4) || height > 4 * (height / 4) {
      ok, passages := FillRest(rooms, rng);
    } else {
      assert forall y, x :: 0 <= y < height && 0 <= x < width ==> InTiles(width, height, Coordinate(x, y));
      var p, q := width / 4, height / 4;
      assert height * width == (4 * q) * (4 * p) == 16 * p * q;
    }
  }

  /** Once the tiles are laid, every passage joins two rooms of the tiles. */
  lemma LaidEdges(a: array2<Room>)
    requires forall j, i :: 0 <= j < a.Length0 && 0 <= i < a.Length1 ==> a[j, i] == PatternRoom(a.Length1, a.Length0, i, j)
    ensures forall e :: e in OpenEdges(a) ==> TileEdge(a.Length1, a.Length0, e)
  {
    var w, h := a.Length1, a.Length0;
    forall e | e in OpenEdges(a)
      ensures TileEdge(w, h, e)
    {
      OpenMember(a, e);
      var c := Coordinate(e.x, e.y);
      var d: Direction := if e.right then 1 else 2;
      assert Across(e) == Neighbour(c, d);
      PatternAgrees(w, h, c, d);
    }
  }

  /** The grid just after the tiles are laid is a consistent, closed maze
      without flags. */
  lemma LaidTilesConsistent(a: array2<Room>)
    requires forall j, i :: 0 <= j < a.Length0 && 0 <= i < a.Length1 ==> a[j, i] == PatternRoom(a.Length1, a.Length0, i, j)
    ensures Symmetric(a) && Closed(a) && NoFlags(a)
  {
    var w, h := a.Length1, a.Length0;
    var f := (c: Coordinate) => PatternWalls(w, h, c);
    forall c: Coordinate, d: Direction | InGrid(a, c) && InGrid(a, Neighbour(c, d))
      ensures Wall(f(c), d) == Wall(f(Neighbour(c, d)), Opposite(d))
    {
      PatternAgrees(w, h, c, d);
    }
    forall c: Coordinate, d: Direction | InGrid(a, c) && !InGrid(a, Neighbour(c, d))
      ensures Wall(f(c), d)
    {
      PatternClosed(w, h, c, d);
    }
    LayoutConsistent(a, f);
  }
}
