/** `nearestUnvisited`: a depth-first search, pruned by the length of the
    best path found so far, for a shortest walk from the explorer's cell
    through cells it has already visited to a cell it has not. */
module Nearest {
  import opened Mazelib
  import opened Pairing
  import opened Virtual

  /** The (path, length) pair the search returns. */
  datatype Search = Search(path: seq<Coordinate>, len: int)

  /** Cell `b` is next to cell `a` and the walls recorded for `a` leave the
      side towards `b` open. */
  predicate Passage(maze: seq<VirtualCell>, a: Coordinate, b: Coordinate) {
    Known(maze, a) && Adjacent(a, b) && !Wall(maze[Key(a.x, a.y)].walls, DirectionTowards(a, b))
  }

  /** `p` is a successful answer for the search from `path`: it extends
      `path` by a walk whose every step passes an open side of the cell it
      leaves, whose inner cells are all visited, whose new cells appear
      nowhere earlier in `p`, and which ends in a cell not visited or not
      in the map. */
  ghost predicate Found(maze: seq<VirtualCell>, path: seq<Coordinate>, p: seq<Coordinate>) {
    && 1 <= |path| <= |p| && p[..|path|] == path
    && (forall j :: |path| - 1 <= j < |p| - 1 ==> Passage(maze, p[j], p[j + 1]))
    && (forall j :: |path| <= j < |p| - 1 ==> Visited(maze, p[j]))
    && (forall j, k :: 0 <= j < k < |p| && |path| <= k ==> p[j] != p[k])
    && !Visited(maze, p[|p| - 1])
  }

  /** How far the search from `path` may still go below `bound`. */
  function Slack(path: seq<Coordinate>, bound: int): nat {
    if bound > |path| then bound - |path| else 0
  }

  /** `nearestUnvisited(maze, path, bound)`. A path already as long as the
      bound fails with a one-cell path and the bound; a last cell outside
      the map is itself the answer; otherwise the four sides of the last
      cell are tried in turn. A success is shorter than the bound and
      `Found`; a failure returns the bound with the empty path. */
  function Nearest(maze: seq<VirtualCell>, path: seq<Coordinate>, bound: int): (r: Search)
    requires |path| >= 1
    ensures |path| >= bound ==> r == Search([Coordinate(0, 0)], bound)
    ensures |path| < bound && !Known(maze, path[|path| - 1]) ==> r == Search(path, |path|)
    ensures |path| < bound ==> r.len <= bound
    ensures |path| < bound && r.len == bound ==> r.path == []
    ensures |path| < bound && r.len < bound ==> |r.path| == r.len && Found(maze, path, r.path)
    decreases Slack(path, bound), 5
  {
    if |path| >= bound then Search([Coordinate(0, 0)], bound)
    else if Known(maze, path[|path| - 1]) then Scan(maze, path, 0, [], bound)
    else
      assert path[..|path|] == path;
      Search(path, |path|)
  }

  /** The step of the search towards side `i` of the last cell `c` of
      `path`: `i` = 0, 1, 2, 3 is up, right, down, left. The side is tried
      when the walls recorded for `c` leave it open and the cell behind it
      is neither the one before `c` nor anywhere on `path`. The search goes
      deeper only through a visited cell of the map and only while a
      longer path could still beat the bound; a candidate replaces `best`
      only when strictly shorter than the bound, so of two equally short
      answers the first found is kept. */
  function Scan(maze: seq<VirtualCell>, path: seq<Coordinate>, i: int, best: seq<Coordinate>, bound: int): (r: Search)
    requires |path| >= 1 && 0 <= i <= 4 && Known(maze, path[|path| - 1])
    ensures r.len <= bound
    ensures r.len == bound ==> r.path == best
    ensures r.len < bound ==> |r.path| == r.len && Found(maze, path, r.path)
    decreases Slack(path, bound), 4 - i
  {
    if i == 4 then Search(best, bound)
    else
      var c := path[|path| - 1];
      var t := Neighbour(c, i);
      if Wall(maze[Key(c.x, c.y)].walls, i) || (|path| > 1 && t == path[|path| - 2]) || t in path then
        Scan(maze, path, i + 1, best, bound)
      else
        var r := Candidate(maze, path, t, bound);
        if r.len < bound then
          CandidateFound(maze, path, i, bound, r);
          Scan(maze, path, i + 1, r.path, r.len)
        else
          Scan(maze, path, i + 1, best, bound)
  }

  /** The answer the search finds through the cell `t` next to the end of
      `path`: deeper through `t` when `t` is a visited cell of the map and
      the bound leaves room, otherwise `path` extended by `t`. */
  function Candidate(maze: seq<VirtualCell>, path: seq<Coordinate>, t: Coordinate, bound: int): Search
    requires |path| >= 1
    decreases Slack(path, bound), 0
  {
    if Visited(maze, t) && |path| + 1 < bound then Nearest(maze, path + [t], bound)
    else Search(path + [t], |path| + 1)
  }

  /** A side that is walled or leads back onto the path is passed over. */
  lemma ScanSkip(maze: seq<VirtualCell>, path: seq<Coordinate>, i: Direction, best: seq<Coordinate>, bound: int)
    requires |path| >= 1 && Known(maze, path[|path| - 1])
    requires var c := path[|path| - 1]; var t := Neighbour(c, i);
      Wall(maze[Key(c.x, c.y)].walls, i) || (|path| > 1 && t == path[|path| - 2]) || t in path
    ensures Scan(maze, path, i, best, bound) == Scan(maze, path, i + 1, best, bound)
  {
  }

  /** An open side leading off the path yields a candidate, kept when
      strictly shorter than the bound. */
  lemma ScanTake(maze: seq<VirtualCell>, path: seq<Coordinate>, i: Direction, best: seq<Coordinate>, bound: int)
    requires |path| >= 1 && Known(maze, path[|path| - 1])
    requires var c := path[|path| - 1]; var t := Neighbour(c, i);
      !(Wall(maze[Key(c.x, c.y)].walls, i) || (|path| > 1 && t == path[|path| - 2]) || t in path)
    ensures var r := Candidate(maze, path, Neighbour(path[|path| - 1], i), bound);
      Scan(maze, path, i, best, bound) ==
      if r.len < bound then Scan(maze, path, i + 1, r.path, r.len) else Scan(maze, path, i + 1, best, bound)
  {
  }

  /** A candidate shorter than the bound, whether found one step beyond
      `path` or deeper, is a successful answer for `path`. */
  lemma CandidateFound(maze: seq<VirtualCell>, path: seq<Coordinate>, i: Direction, bound: int, r: Search)
    requires |path| >= 1 && Known(maze, path[|path| - 1])
    requires !Wall(maze[Key(path[|path| - 1].x, path[|path| - 1].y)].walls, i)
    requires Neighbour(path[|path| - 1], i) !in path
    requires var t := Neighbour(path[|path| - 1], i);
      if Visited(maze, t) && |path| + 1 < bound
      then r.len < bound ==> |r.path| == r.len && Found(maze, path + [t], r.path)
      else r == Search(path + [t], |path| + 1)
    requires r.len < bound
    ensures |r.path| == r.len && Found(maze, path, r.path)
  {
    var c := path[|path| - 1];
    var t := Neighbour(c, i);
    TowardsNeighbour(c, i);
    var p := r.path;
    if Visited(maze, t) && |path| + 1 < bound {
      assert p[..|path| + 1] == path + [t];
      assert p[..|path|] == path by {
        assert p[..|path|] == p[..|path| + 1][..|path|];
      }
      assert p[|path|] == t;
    } else {
      assert p[..|path|] == path;
    }
  }

  /** Growing the map does not change the answer of a search from a path
      whose last cell was already in the map: the search reads only
      entries of visited cells and of that last cell. */
  lemma {:induction false} NearestGrown(maze: seq<VirtualCell>, maze': seq<VirtualCell>, path: seq<Coordinate>, bound: int)
    requires Grown(maze, maze') && |path| >= 1 && Known(maze, path[|path| - 1])
    ensures Nearest(maze', path, bound) == Nearest(maze, path, bound)
    decreases Slack(path, bound), 5
  {
    GrownKeeps(maze, maze');
    if |path| < bound {
      ScanGrown(maze, maze', path, 0, [], bound);
    }
  }

  /** The same for one turn of the loop over the sides of the last cell. */
  lemma {:induction false} ScanGrown(maze: seq<VirtualCell>, maze': seq<VirtualCell>, path: seq<Coordinate>,
                                     i: int, best: seq<Coordinate>, bound: int)
    requires Grown(maze, maze') && |path| >= 1 && 0 <= i <= 4 && Known(maze, path[|path| - 1])
    ensures Known(maze', path[|path| - 1])
    ensures Scan(maze', path, i, best, bound) == Scan(maze, path, i, best, bound)
    decreases Slack(path, bound), 4 - i
  {
    GrownKeeps(maze, maze');
    if i < 4 {
      var c := path[|path| - 1];
      var t := Neighbour(c, i);
      assert maze'[Key(c.x, c.y)] == maze[Key(c.x, c.y)];
      if Wall(maze[Key(c.x, c.y)].walls, i) || (|path| > 1 && t == path[|path| - 2]) || t in path {
        ScanGrown(maze, maze', path, i + 1, best, bound);
      } else {
        CandidateGrown(maze, maze', path, t, bound);
        var r := Candidate(maze, path, t, bound);
        if r.len < bound {
          ScanGrown(maze, maze', path, i + 1, r.path, r.len);
        } else {
          ScanGrown(maze, maze', path, i + 1, best, bound);
        }
      }
    }
  }

  /** The same for the candidate through a cell next to the end of the path. */
  lemma {:induction false} CandidateGrown(maze: seq<VirtualCell>, maze': seq<VirtualCell>, path: seq<Coordinate>,
                                          t: Coordinate, bound: int)
    requires Grown(maze, maze') && |path| >= 1
    ensures Candidate(maze', path, t, bound) == Candidate(maze, path, t, bound)
    decreases Slack(path, bound), 0
  {
    GrownKeeps(maze, maze');
    if Visited(maze, t) && |path| + 1 < bound {
      NearestGrown(maze, maze', path + [t], bound);
    }
  }

  /** `nearestUnvisited` on the program's shared buffer: the path searched
      from is `buf[..lp]`, and a deeper search writes its candidate cell at
      `buf[lp]` and recurses on `buf[..lp + 1]`, so only entries from `lp`
      on are overwritten. The best path is returned as a copy. */
  method NearestUnvisited(maze: seq<VirtualCell>, buf: array<Coordinate>, lp: int, shortestLen: int)
    returns (res: seq<Coordinate>, len: int)
    requires 1 <= lp <= buf.Length && shortestLen <= buf.Length
    modifies buf
    ensures Search(res, len) == Nearest(maze, old(buf[..lp]), shortestLen)
    ensures buf[..lp] == old(buf[..lp])
    decreases if shortestLen > lp then shortestLen - lp else 0, 2
  {
    ghost var path := buf[..lp];
    if lp >= shortestLen {
      return [Coordinate(0, 0)], shortestLen;
    }
    var coords := buf[lp - 1];
    var z := CoordsToInt(coords.x, coords.y);
    if z >= |maze| {
      return buf[..lp], lp;
    }
    var walls := maze[z].walls;
    var shortestPath: seq<Coordinate> := [];
    var bound := shortestLen;
    for i := 0 to 4
      invariant buf[..lp] == path && lp < bound <= shortestLen
      invariant Scan(maze, path, i, shortestPath, bound) == Scan(maze, path, 0, [], shortestLen)
    {
      shortestPath, bound := TrySide(maze, buf, lp, i, walls, shortestPath, bound, path);
    }
    return shortestPath, bound;
  }

  /** One turn of the loop of `nearestUnvisited`: side `i` of the last cell
      of `buf[..lp]`, whose recorded walls are `walls`. */
  method TrySide(maze: seq<VirtualCell>, buf: array<Coordinate>, lp: int, i: Direction, walls: Survey,
                 shortestPath: seq<Coordinate>, shortestLen: int, ghost path: seq<Coordinate>)
    returns (shortestPath': seq<Coordinate>, shortestLen': int)
    requires 1 <= lp < shortestLen <= buf.Length && buf[..lp] == path
    requires Known(maze, path[lp - 1]) && walls == maze[Key(path[lp - 1].x, path[lp - 1].y)].walls
    modifies buf
    ensures buf[..lp] == path && lp < shortestLen' <= shortestLen
    ensures Scan(maze, path, i, shortestPath, shortestLen) == Scan(maze, path, i + 1, shortestPath', shortestLen')
    decreases shortestLen - lp, 1
  {
    shortestPath', shortestLen' := shortestPath, shortestLen;
    var coords := buf[lp - 1];
    var tmpX, tmpY, tmpWall := coords.x - 1, coords.y, walls.left;
    if i == 0 {
      tmpX, tmpY, tmpWall := coords.x, coords.y - 1, walls.top;
    } else if i == 1 {
      tmpX, tmpY, tmpWall := coords.x + 1, coords.y, walls.right;
    } else if i == 2 {
      tmpX, tmpY, tmpWall := coords.x, coords.y + 1, walls.bottom;
    }
    var t := Coordinate(tmpX, tmpY);
    assert t == Neighbour(coords, i) && tmpWall == Wall(walls, i);
    if !tmpWall && (lp == 1 || (lp > 1 && (tmpX != buf[lp - 2].x || tmpY != buf[lp - 2].y))) {
      var found := OnPath(buf, lp, Coordinate(tmpX, tmpY));
      if !found {
        ScanTake(maze, path, i, shortestPath, shortestLen);
        var tmpPath, tmpLen := Deeper(maze, buf, lp, t, shortestLen, path);
        if tmpLen < shortestLen {
          shortestPath', shortestLen' := tmpPath, tmpLen;
        }
      } else {
        ScanSkip(maze, path, i, shortestPath, shortestLen);
      }
    } else {
      ScanSkip(maze, path, i, shortestPath, shortestLen);
    }
  }

  /** The candidate through cell `t`: `t` is written at `buf[lp]`, and the
      search recurses from there when `t` is a visited cell of the map and
      the bound leaves room. */
  method Deeper(maze: seq<VirtualCell>, buf: array<Coordinate>, lp: int, t: Coordinate, shortestLen: int,
                ghost path: seq<Coordinate>)
    returns (tmpPath: seq<Coordinate>, tmpLen: int)
    requires 1 <= lp < shortestLen <= buf.Length && buf[..lp] == path
    modifies buf
    ensures buf[..lp] == path
    ensures Search(tmpPath, tmpLen) == Candidate(maze, path, t, shortestLen)
    ensures tmpLen < shortestLen ==> lp < tmpLen
    decreases shortestLen - lp, 0
  {
    var z := CoordsToInt(t.x, t.y);
    buf[lp] := t;
    assert buf[..lp + 1] == path + [t];
    tmpPath, tmpLen := buf[..lp + 1], lp + 1;
    if z < |maze| && maze[z].visited && tmpLen < shortestLen {
      tmpPath, tmpLen := NearestUnvisited(maze, buf, lp + 1, shortestLen);
      assert buf[..lp] == buf[..lp + 1][..lp];
    }
  }

  /** The inner loop of `nearestUnvisited`: whether cell `t` is already on
      `buf[..lp]`, searched from the end. */
  method OnPath(buf: array<Coordinate>, lp: int, t: Coordinate) returns (found: bool)
    requires 0 <= lp <= buf.Length
    ensures found <==> t in buf[..lp]
  {
    found := false;
    var p := lp - 1;
    while p >= 0
      invariant -1 <= p < lp
      invariant t !in buf[p + 1..lp]
      decreases p
    {
      if buf[p] == t {
        found := true;
        break;
      }
      p := p - 1;
    }
  }
}
