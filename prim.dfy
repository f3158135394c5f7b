/** The two generators that work from a stack of walls, `rightDownMaze`
    and `primMaze`, and the in-place `shuffle` they share. */
module PrimMazes {
  import opened Mazelib
  import opened Daedalus
  import opened Oracle
  import opened Grid
  import opened BacktrackerMazes

  /** A wall of the stack: side `w` of the room at column `x`, row `y`. */
  datatype PrimWall = PrimWall(x: int, y: int, w: int)

  // ----- shuffle -----

  /** `s` with the entries at `i` and `j` exchanged. */
  function Swap(s: seq<PrimWall>, i: int, j: int): (r: seq<PrimWall>)
    requires 0 <= i < |s| && 0 <= j < |s|
    ensures |r| == |s| && r[i] == s[j] && r[j] == s[i]
    ensures forall k :: 0 <= k < |s| && k != i && k != j ==> r[k] == s[k]
  {
    s[i := s[j]][j := s[i]]
  }

  /** The last `i` steps of `shuffle` on `s`, the first of them taking draw
      `k`: step `i` exchanges entry `i` with an entry drawn below it. */
  function Shuffled(s: seq<PrimWall>, draws: seq<nat>, k: nat, i: int): seq<PrimWall>
    requires i < |s|
    decreases i
  {
    if i <= 0 then s else Shuffled(Swap(s, i, Draw(draws, k, i)), draws, k + 1, i - 1)
  }

  lemma SwapPermutes(s: seq<PrimWall>, i: int, j: int)
    requires 0 <= i < |s| && 0 <= j < |s|
    ensures multiset(Swap(s, i, j)) == multiset(s)
  {
    var t := s[i := s[j]];
    assert multiset(t) == multiset(s) - multiset{s[i]} + multiset{s[j]};
    assert multiset(Swap(s, i, j)) == multiset(t) - multiset{t[j]} + multiset{s[i]};
  }

  /** `shuffle` only permutes its argument. */
  lemma {:induction false} ShuffledPermutes(s: seq<PrimWall>, draws: seq<nat>, k: nat, i: int)
    requires i < |s|
    ensures |Shuffled(s, draws, k, i)| == |s|
    ensures multiset(Shuffled(s, draws, k, i)) == multiset(s)
    decreases i
  {
    if i > 0 {
      var j := Draw(draws, k, i);
      SwapPermutes(s, i, j);
      ShuffledPermutes(Swap(s, i, j), draws, k + 1, i - 1);
    }
  }

  /** `shuffle` on the slice `buf[lo..hi]`: for `i` from the last index down
      to 1, exchange entry `i` with entry `rand.Intn(i)`, in place. The
      slice ends up a permutation of what it held; nothing outside it
      changes. */
  method Shuffle(buf: array<PrimWall>, lo: int, hi: int, rng: Random)
    requires 0 <= lo <= hi <= buf.Length
    modifies buf, rng
    ensures buf[lo..hi] == Shuffled(old(buf[lo..hi]), rng.draws, old(rng.used), hi - lo - 1)
    ensures multiset(buf[lo..hi]) == multiset(old(buf[lo..hi]))
    ensures buf[..lo] == old(buf[..lo]) && buf[hi..] == old(buf[hi..])
    ensures rng.used == old(rng.used) + if hi - lo > 0 then hi - lo - 1 else 0
  {
    ghost var start := buf[lo..hi];
    var i := hi - lo - 1;
    while i > 0
      invariant -1 <= i < hi - lo && (hi - lo > 0 ==> i >= 0)
      invariant Shuffled(buf[lo..hi], rng.draws, rng.used, i) == Shuffled(start, rng.draws, old(rng.used), hi - lo - 1)
      invariant rng.used == old(rng.used) + (hi - lo - 1 - i)
      invariant buf[..lo] == old(buf[..lo]) && buf[hi..] == old(buf[hi..])
      decreases i
    {
      var j := rng.Intn(i);
      SwapAt(buf, lo, hi, i, j);
      i := i - 1;
    }
    ShuffledPermutes(start, rng.draws, old(rng.used), hi - lo - 1);
  }

  /** `arr[i], arr[j] = arr[j], arr[i]` on the slice `buf[lo..hi]`. */
  method SwapAt(buf: array<PrimWall>, lo: int, hi: int, i: int, j: int)
    requires 0 <= lo <= hi <= buf.Length && 0 <= i < hi - lo && 0 <= j < hi - lo
    modifies buf
    ensures buf[lo..hi] == Swap(old(buf[lo..hi]), i, j)
    ensures buf[..lo] == old(buf[..lo]) && buf[hi..] == old(buf[hi..])
  {
    buf[lo + i], buf[lo + j] := buf[lo + j], buf[lo + i];
  }

  // ----- numbering the shared edges -----

  /** The number of edges between two rooms of a `w` by `h` grid, and the
      capacity both generators give their wall stack. */
  function EdgeCount(w: int, h: int): int {
    (w - 1) * h + (h - 1) * w
  }

  /** A number for the edge on side `d` of room `c`: the edges between
      horizontal neighbours row by row first, then those between vertical
      neighbours. */
  function EdgeKey(w: int, h: int, c: Coordinate, d: Direction): int {
    match d
    case 0 => (w - 1) * h + (c.y - 1) * w + c.x
    case 1 => c.y * (w - 1) + c.x
    case 2 => (w - 1) * h + c.y * w + c.x
    case 3 => c.y * (w - 1) + c.x - 1
  }

  /** Both sides of an edge get the same number. */
  lemma KeySymmetric(w: int, h: int, c: Coordinate, d: Direction)
    ensures EdgeKey(w, h, c, d) == EdgeKey(w, h, Neighbour(c, d), Opposite(d))
  {
    if d == 0 {
      assert c.y - 1 + 0 == Neighbour(c, d).y;
    }
  }

  /** The number of an edge of the grid lies in `[0, EdgeCount(w, h))`. */
  lemma KeyRange(w: int, h: int, c: Coordinate, d: Direction)
    requires Inside(w, h, c) && Inside(w, h, Neighbour(c, d))
    ensures 0 <= EdgeKey(w, h, c, d) < EdgeCount(w, h)
  {
    if d == 1 {
      RightKeyRange(w, h, c.x, c.y);
    } else if d == 3 {
      RightKeyRange(w, h, c.x - 1, c.y);
    } else if d == 2 {
      DownKeyRange(w, h, c.x, c.y);
    } else {
      DownKeyRange(w, h, c.x, c.y - 1);
    }
  }

  /** The number of the edge right of room `(x, y)`. */
  lemma RightKeyRange(w: int, h: int, x: int, y: int)
    requires 0 <= x < w - 1 && 0 <= y < h
    ensures 0 <= y * (w - 1) + x < EdgeCount(w, h)
  {
    RowKeyRange(y, x, w - 1, h);
    MulLess(0, h - 1, w);
  }

  /** The number of the edge below room `(x, y)`. */
  lemma DownKeyRange(w: int, h: int, x: int, y: int)
    requires 0 <= x < w && 0 <= y < h - 1
    ensures 0 <= (w - 1) * h + y * w + x < EdgeCount(w, h)
  {
    RowKeyRange(y, x, w, h - 1);
    MulLess(0, w - 1, h);
  }

  /** Entry `x` of row `y` of a table with `h` rows of `m` entries. */
  lemma RowKeyRange(y: int, x: int, m: int, h: int)
    requires 0 <= y < h && 0 <= x < m
    ensures 0 <= y * m + x < h * m && (h - 1) * m + m == h * m
  {
    MulLess(y, h - 1, m);
    MulLess(0, y, m);
  }

  /** `a * k <= b * k` for `0 <= a <= b` and `k >= 0`. */
  lemma MulLess(a: int, b: int, k: int)
    requires 0 <= a <= b && k >= 0
    ensures a * k <= b * k
  {
  }

  /** Division by `m` is unique: a row and an entry of the table are found
      again from their number. */
  lemma RowKeyUnique(y: int, x: int, y': int, x': int, m: int)
    requires 0 <= y && 0 <= y' && 0 <= x < m && 0 <= x' < m
    requires y * m + x == y' * m + x'
    ensures y == y' && x == x'
  {
    if y < y' {
      assert (y + 1) * m == y * m + m;
      MulLess(y + 1, y', m);
    } else if y' < y {
      assert (y' + 1) * m == y' * m + m;
      MulLess(y' + 1, y, m);
    }
  }

  /** The right and bottom sides name each edge once: two of them with the
      same number are the same side of the same room. */
  lemma KeyInjective(w: int, h: int, c: Coordinate, d: Direction, c': Coordinate, d': Direction)
    requires d == 1 || d == 2
    requires d' == 1 || d' == 2
    requires Inside(w, h, c) && Inside(w, h, Neighbour(c, d))
    requires Inside(w, h, c') && Inside(w, h, Neighbour(c', d'))
    requires EdgeKey(w, h, c, d) == EdgeKey(w, h, c', d')
    ensures c == c' && d == d'
  {
    if d == 1 && d' == 1 {
      RowKeyUnique(c.y, c.x, c'.y, c'.x, w - 1);
    } else if d == 2 && d' == 2 {
      RowKeyUnique(c.y, c.x, c'.y, c'.x, w);
    } else if d == 1 {
      RightBeforeDown(w, h, c, c');
    } else {
      RightBeforeDown(w, h, c', c);
    }
  }

  /** The numbers of right sides lie below those of bottom sides. */
  lemma RightBeforeDown(w: int, h: int, c: Coordinate, c': Coordinate)
    requires Inside(w, h, c) && Inside(w, h, Neighbour(c, 1))
    requires Inside(w, h, c') && Inside(w, h, Neighbour(c', 2))
    ensures EdgeKey(w, h, c, 1) < EdgeKey(w, h, c', 2)
  {
    RowKeyRange(c.y, c.x, w - 1, h);
    MulLess(0, c'.y, w);
  }

  /** A set of numbers below `n` has at most `n` members. */
  lemma {:induction false} RangeCard(s: set<int>, n: nat)
    requires forall k :: k in s ==> 0 <= k < n
    ensures |s| <= n
  {
    if n > 0 {
      var t := s - {n - 1};
      RangeCard(t, n - 1);
      assert s <= t + {n - 1};
    } else {
      assert forall k :: k !in s;
      assert s == {};
    }
  }

  // ----- the frontier of `primMaze` -----

  /** The edges pushed so far, by number, are exactly the edges with a
      visited room on at least one side. */
  ghost predicate Frontier(w: int, h: int, seen: set<Coordinate>, pushed: set<int>) {
    forall c: Coordinate, d: Direction {:trigger EdgeKey(w, h, c, d)} ::
      (d == 1 || d == 2) && Inside(w, h, c) && Inside(w, h, Neighbour(c, d)) ==>
        (EdgeKey(w, h, c, d) in pushed <==> c in seen || Neighbour(c, d) in seen)
  }

  /** Every number pushed belongs to an edge of the grid. */
  ghost predicate Numbered(w: int, h: int, pushed: set<int>) {
    forall k :: k in pushed ==> 0 <= k < EdgeCount(w, h)
  }

  /** The number `primMaze` pushes for side `d` of the room `n` it has just
      entered: there is one when the room across lies in the grid and was
      not visited before. */
  ghost function SideKey(w: int, h: int, n: Coordinate, d: Direction, seen: set<Coordinate>): set<int> {
    if Inside(w, h, Neighbour(n, d)) && Neighbour(n, d) !in seen then {EdgeKey(w, h, n, d)} else {}
  }

  /** The pushes of one newly entered room. */
  ghost function RoomKeys(w: int, h: int, n: Coordinate, seen: set<Coordinate>): set<int> {
    SideKey(w, h, n, 3, seen) + SideKey(w, h, n, 1, seen) + SideKey(w, h, n, 0, seen) + SideKey(w, h, n, 2, seen)
  }

  /** The four sides of a room are four different edges. */
  lemma SidesDistinct(w: int, h: int, n: Coordinate, d: Direction, d': Direction)
    requires d != d' && Inside(w, h, n) && Inside(w, h, Neighbour(n, d)) && Inside(w, h, Neighbour(n, d'))
    ensures EdgeKey(w, h, n, d) != EdgeKey(w, h, n, d')
  {
    if EdgeKey(w, h, n, d) == EdgeKey(w, h, n, d') {
      var c, e := Canonical(w, h, n, d);
      var c', e' := Canonical(w, h, n, d');
      KeyInjective(w, h, c, e, c', e');
      NeighbourBack(n, d);
      NeighbourBack(n, d');
      assert false;
    }
  }

  /** The right or bottom side naming the same edge as side `d` of `n`. */
  lemma Canonical(w: int, h: int, n: Coordinate, d: Direction) returns (c: Coordinate, e: Direction)
    requires Inside(w, h, n) && Inside(w, h, Neighbour(n, d))
    ensures e == 1 || e == 2
    ensures Inside(w, h, c) && Inside(w, h, Neighbour(c, e))
    ensures EdgeKey(w, h, c, e) == EdgeKey(w, h, n, d)
    ensures (c == n && e == d) || (c == Neighbour(n, d) && e == Opposite(d))
  {
    if d == 1 || d == 2 {
      c, e := n, d;
    } else {
      c, e := Neighbour(n, d), Opposite(d);
      KeySymmetric(w, h, n, d);
      NeighbourBack(n, d);
    }
  }

  /** Entering a room `n` that was not visited and pushing the edges to its
      unvisited neighbours keeps the frontier exact. */
  lemma VisitFrontier(w: int, h: int, seen: set<Coordinate>, pushed: set<int>, n: Coordinate)
    requires Frontier(w, h, seen, pushed) && Inside(w, h, n) && n !in seen
    ensures Frontier(w, h, seen + {n}, pushed + RoomKeys(w, h, n, seen))
  {
    var pushed' := pushed + RoomKeys(w, h, n, seen);
    forall c: Coordinate, d: Direction | (d == 1 || d == 2) && Inside(w, h, c) && Inside(w, h, Neighbour(c, d))
      ensures EdgeKey(w, h, c, d) in pushed' <==> c in seen + {n} || Neighbour(c, d) in seen + {n}
    {
      var k := EdgeKey(w, h, c, d);
      if c == n {
        assert k in SideKey(w, h, n, d, seen) || k in pushed;
      } else if Neighbour(c, d) == n {
        KeySymmetric(w, h, c, d);
        NeighbourBack(c, d);
        assert k in SideKey(w, h, n, Opposite(d), seen) || k in pushed;
      } else {
        forall e: Direction | Inside(w, h, Neighbour(n, e))
          ensures k != EdgeKey(w, h, n, e)
        {
          var c', e' := Canonical(w, h, n, e);
          if k == EdgeKey(w, h, n, e) {
            KeyInjective(w, h, c, d, c', e');
            NeighbourBack(n, e);
            assert false;
          }
        }
        assert k !in RoomKeys(w, h, n, seen);
      }
    }
  }

  /** An edge of the grid, with both sides of it unvisited, was not pushed. */
  lemma FreshSide(w: int, h: int, seen: set<Coordinate>, pushed: set<int>, n: Coordinate, d: Direction)
    requires Frontier(w, h, seen, pushed)
    requires Inside(w, h, n) && Inside(w, h, Neighbour(n, d)) && n !in seen && Neighbour(n, d) !in seen
    ensures EdgeKey(w, h, n, d) !in pushed
  {
    var c, e := Canonical(w, h, n, d);
    NeighbourBack(n, d);
  }

  // ----- the wall stack -----

  /** Side `e.w` of room `(e.x, e.y)` is an edge between two rooms of the grid. */
  predicate Wallable(a: array2<Room>, e: PrimWall) {
    0 <= e.w < 4 && InGrid(a, Coordinate(e.x, e.y)) && InGrid(a, Neighbour(Coordinate(e.x, e.y), e.w))
  }

  /** Every wall of the stack `s` is an edge of the grid. */
  ghost predicate WallsInGrid(a: array2<Room>, s: seq<PrimWall>) {
    forall e :: e in s ==> Wallable(a, e)
  }

  /** A permutation of a stack of edges of the grid is one too. */
  lemma PermutedInGrid(a: array2<Room>, s: seq<PrimWall>, t: seq<PrimWall>)
    requires WallsInGrid(a, s) && multiset(t) == multiset(s)
    ensures WallsInGrid(a, t)
  {
    forall e | e in t ensures Wallable(a, e) {
      assert e in multiset(t);
    }
  }

  /** Every wall of the stack `s` is a side of a room of `rooms`. */
  ghost predicate FromRooms(s: seq<PrimWall>, rooms: set<Coordinate>) {
    forall e :: e in s ==> Coordinate(e.x, e.y) in rooms
  }

  lemma PermutedFromRooms(s: seq<PrimWall>, t: seq<PrimWall>, rooms: set<Coordinate>)
    requires FromRooms(s, rooms) && multiset(t) == multiset(s)
    ensures FromRooms(t, rooms)
  {
    forall e | e in t ensures Coordinate(e.x, e.y) in rooms {
      assert e in multiset(t);
    }
  }

  /** The room behind wall `e` of the stack. */
  function Behind(e: PrimWall): Coordinate {
    if 0 <= e.w < 4 then Neighbour(Coordinate(e.x, e.y), e.w) else Coordinate(e.x, e.y)
  }

  /** The edge wall `e` of the stack stands on. */
  function WallEdge(e: PrimWall): Edge {
    if 0 <= e.w < 4 then EdgeOf(Coordinate(e.x, e.y), e.w) else Edge(e.x, e.y, true)
  }

  /** `addPrimWall`: the slice `buf[lo..hi]` grows by `e` into the room
      left in its backing array; the program panics when there is none. */
  method AddPrimWall(buf: array<PrimWall>, lo: int, hi: int, e: PrimWall) returns (hi': int)
    requires 0 <= lo <= hi < buf.Length
    modifies buf
    ensures hi' == hi + 1 && buf[lo..hi'] == old(buf[lo..hi]) + [e]
  {
    buf[hi] := e;
    hi' := hi + 1;
    assert buf[lo..hi'] == buf[lo..hi] + [e];
  }

  /** One of the four pushes after `primMaze` enters room `n`: side `d`,
      when the room across it lies in the grid and is not visited. The edge
      must not have been pushed before; counting then shows that the
      backing array still has room. */
  method PushSide(a: array2<Room>, buf: array<PrimWall>, lo: int, hi: int, n: Coordinate, d: Direction,
                  ghost seen: set<Coordinate>, ghost pushed: set<int>) returns (hi': int, ghost pushed': set<int>)
    requires InGrid(a, n) && n !in seen
    requires InGrid(a, Neighbour(n, d)) ==> (a[Neighbour(n, d).y, Neighbour(n, d).x].visited <==> Neighbour(n, d) in seen + {n})
    requires InGrid(a, Neighbour(n, d)) && Neighbour(n, d) !in seen ==> EdgeKey(a.Length1, a.Length0, n, d) !in pushed
    requires buf.Length == EdgeCount(a.Length1, a.Length0) && 0 <= lo <= hi <= buf.Length
    requires Numbered(a.Length1, a.Length0, pushed) && hi == |pushed| && WallsInGrid(a, buf[lo..hi])
    requires FromRooms(buf[lo..hi], seen + {n})
    modifies buf
    ensures pushed' == pushed + SideKey(a.Length1, a.Length0, n, d, seen)
    ensures lo <= hi' <= buf.Length && hi' == |pushed'| && Numbered(a.Length1, a.Length0, pushed')
    ensures WallsInGrid(a, buf[lo..hi']) && FromRooms(buf[lo..hi'], seen + {n})
  {
    var w, h := a.Length1, a.Length0;
    var m := Neighbour(n, d);
    if InGrid(a, m) && !a[m.y, m.x].visited {
      var k := EdgeKey(w, h, n, d);
      KeyRange(w, h, n, d);
      RangeCard(pushed + {k}, buf.Length);
      hi' := AddPrimWall(buf, lo, hi, PrimWall(n.x, n.y, d));
      pushed' := pushed + {k};
    } else {
      hi', pushed' := hi, pushed;
    }
  }

  /** The four pushes after `primMaze` enters room `n`, in the program's
      order: left, right, up, down. */
  method PushSides(a: array2<Room>, buf: array<PrimWall>, lo: int, hi: int, n: Coordinate,
                   ghost seen: set<Coordinate>, ghost pushed: set<int>) returns (hi': int, ghost pushed': set<int>)
    requires InGrid(a, n) && n !in seen && Around(a, n, seen + {n})
    requires buf.Length == EdgeCount(a.Length1, a.Length0) && 0 <= lo <= hi <= buf.Length
    requires Frontier(a.Length1, a.Length0, seen, pushed)
    requires Numbered(a.Length1, a.Length0, pushed) && hi == |pushed| && WallsInGrid(a, buf[lo..hi])
    requires FromRooms(buf[lo..hi], seen + {n})
    modifies buf
    ensures pushed' == pushed + RoomKeys(a.Length1, a.Length0, n, seen)
    ensures lo <= hi' <= buf.Length && hi' == |pushed'| && Numbered(a.Length1, a.Length0, pushed')
    ensures WallsInGrid(a, buf[lo..hi']) && FromRooms(buf[lo..hi'], seen + {n})
  {
    var w, h := a.Length1, a.Length0;
    RoomSidesFresh(w, h, seen, pushed, n);
    hi', pushed' := PushSide(a, buf, lo, hi, n, 3, seen, pushed);
    hi', pushed' := PushSide(a, buf, lo, hi', n, 1, seen, pushed');
    hi', pushed' := PushSide(a, buf, lo, hi', n, 0, seen, pushed');
    hi', pushed' := PushSide(a, buf, lo, hi', n, 2, seen, pushed');
  }

  /** The rooms around `n` are visited exactly when they were entered. */
  ghost predicate Around(a: array2<Room>, n: Coordinate, seen: set<Coordinate>)
    reads a
  {
    forall d: Direction :: InGrid(a, Neighbour(n, d)) ==>
      (a[Neighbour(n, d).y, Neighbour(n, d).x].visited <==> Neighbour(n, d) in seen)
  }

  /** While carving, that holds around every room. */
  lemma SeenAround(a: array2<Room>, n: Coordinate, seen: set<Coordinate>)
    requires Carving(a, seen)
    ensures Around(a, n, seen)
  {
  }

  /** Each of the four pushes of a newly entered room is new. */
  lemma RoomSidesFresh(w: int, h: int, seen: set<Coordinate>, pushed: set<int>, n: Coordinate)
    requires Frontier(w, h, seen, pushed) && Inside(w, h, n) && n !in seen
    ensures Inside(w, h, Neighbour(n, 3)) && Neighbour(n, 3) !in seen ==>
              EdgeKey(w, h, n, 3) !in pushed
    ensures Inside(w, h, Neighbour(n, 1)) && Neighbour(n, 1) !in seen ==>
              EdgeKey(w, h, n, 1) !in pushed + SideKey(w, h, n, 3, seen)
    ensures Inside(w, h, Neighbour(n, 0)) && Neighbour(n, 0) !in seen ==>
              EdgeKey(w, h, n, 0) !in pushed + SideKey(w, h, n, 3, seen) + SideKey(w, h, n, 1, seen)
    ensures Inside(w, h, Neighbour(n, 2)) && Neighbour(n, 2) !in seen ==>
              EdgeKey(w, h, n, 2) !in pushed + SideKey(w, h, n, 3, seen) + SideKey(w, h, n, 1, seen) + SideKey(w, h, n, 0, seen)
    ensures pushed + SideKey(w, h, n, 3, seen) + SideKey(w, h, n, 1, seen) + SideKey(w, h, n, 0, seen) + SideKey(w, h, n, 2, seen)
            == pushed + RoomKeys(w, h, n, seen)
  {
    AllSides(w, h, n, seen);
    NewSide(w, h, seen, pushed, n, 3, []);
    NewSide(w, h, seen, pushed, n, 1, [3]);
    NewSide(w, h, seen, pushed, n, 0, [3, 1]);
    NewSide(w, h, seen, pushed, n, 2, [3, 1, 0]);
  }

  /** The pushes for the sides of a room taken in the program's order. */
  lemma AllSides(w: int, h: int, n: Coordinate, seen: set<Coordinate>)
    ensures SideKeys(w, h, n, [], seen) == {}
    ensures SideKeys(w, h, n, [3], seen) == SideKey(w, h, n, 3, seen)
    ensures SideKeys(w, h, n, [3, 1], seen) == SideKey(w, h, n, 3, seen) + SideKey(w, h, n, 1, seen)
    ensures SideKeys(w, h, n, [3, 1, 0], seen) == SideKey(w, h, n, 3, seen) + SideKey(w, h, n, 1, seen) + SideKey(w, h, n, 0, seen)
    ensures SideKeys(w, h, n, [3, 1, 0, 2], seen) == RoomKeys(w, h, n, seen)
  {
    assert [3][..0] == [];
    assert [3, 1][..1] == [3];
    assert [3, 1, 0][..2] == [3, 1];
    assert [3, 1, 0, 2][..3] == [3, 1, 0];
  }

  /** The pushes for the sides `ds` of room `n`. */
  ghost function SideKeys(w: int, h: int, n: Coordinate, ds: seq<Direction>, seen: set<Coordinate>): set<int> {
    if ds == [] then {} else SideKeys(w, h, n, ds[..|ds| - 1], seen) + SideKey(w, h, n, ds[|ds| - 1], seen)
  }

  /** The push for side `d` of a newly entered room `n` is new: not pushed
      before `n` was entered, and not among the pushes for its other sides. */
  lemma NewSide(w: int, h: int, seen: set<Coordinate>, pushed: set<int>, n: Coordinate, d: Direction, ds: seq<Direction>)
    requires Frontier(w, h, seen, pushed) && Inside(w, h, n) && n !in seen && d !in ds
    ensures Inside(w, h, Neighbour(n, d)) && Neighbour(n, d) !in seen ==>
              EdgeKey(w, h, n, d) !in pushed + SideKeys(w, h, n, ds, seen)
    decreases |ds|
  {
    if Inside(w, h, Neighbour(n, d)) && Neighbour(n, d) !in seen {
      FreshSide(w, h, seen, pushed, n, d);
      if ds != [] {
        var e := ds[|ds| - 1];
        NewSide(w, h, seen, pushed, n, d, ds[..|ds| - 1]);
        if Inside(w, h, Neighbour(n, e)) {
          SidesDistinct(w, h, n, d, e);
        }
      }
    }
  }

  // ----- primMaze -----

  /** What holds between two iterations of the loop of `primMaze`: the carve
      invariant for the rooms entered so far, the unpopped walls
      `buf[lo..hi]` all edges of the grid, the `hi` walls pushed so far
      numbered by `pushed` and exactly the edges touching an entered room,
      every unpopped wall a side of an entered room, and the open edges
      one fewer than the rooms entered, each of them between two entered
      rooms. */
  ghost predicate PrimState(a: array2<Room>, buf: array<PrimWall>, lo: int, hi: int,
                            seen: set<Coordinate>, pushed: set<int>, carved: int)
    reads a, buf
  {
    && Carving(a, seen) && (forall p :: p in seen ==> InGrid(a, p))
    && buf.Length == EdgeCount(a.Length1, a.Length0) && 0 <= lo <= hi <= buf.Length
    && WallsInGrid(a, buf[lo..hi])
    && Frontier(a.Length1, a.Length0, seen, pushed) && Numbered(a.Length1, a.Length0, pushed) && hi == |pushed|
    && FromRooms(buf[lo..hi], seen)
    && carved == |OpenEdges(a)| && Joins(a, seen) && |seen| == carved + 1
  }

  /** One iteration of the loop of `primMaze`: pop the first wall; when the
      room behind it is not visited, knock the wall down, enter that room,
      push its walls towards unvisited rooms and shuffle the stack. When
      that room was entered before, the grid is left as it was. */
  method PrimStep(a: array2<Room>, buf: array<PrimWall>, lo: int, hi: int, rng: Random,
                  ghost seen: set<Coordinate>, ghost pushed: set<int>, ghost carved: int)
    returns (hi': int, ghost seen': set<Coordinate>, ghost pushed': set<int>, ghost carved': int)
    requires PrimState(a, buf, lo, hi, seen, pushed, carved) && lo < hi
    modifies a, buf, rng
    ensures PrimState(a, buf, lo + 1, hi', seen', pushed', carved')
    ensures Behind(old(buf[lo])) in seen ==> unchanged(a) && seen' == seen && carved' == carved
    ensures Behind(old(buf[lo])) !in seen ==>
              && seen' == seen + {Behind(old(buf[lo]))} && carved' == carved + 1
              && OpenEdges(a) == old(OpenEdges(a)) + {WallEdge(old(buf[lo]))}
  {
    var wall := buf[lo];
    var c := Coordinate(wall.x, wall.y);
    PopState(a, buf, lo, hi, seen, pushed, carved);
    var n := Neighbour(c, wall.w);
    if !a[n.y, n.x].visited {
      hi', seen', pushed', carved' := PrimVisit(a, buf, lo + 1, hi, c, wall.w, rng, seen, pushed, carved);
    } else {
      hi', seen', pushed', carved' := hi, seen, pushed, carved;
    }
  }

  /** Popping the first wall keeps the loop's invariant; that wall is an
      edge of the grid from an entered room. */
  lemma PopState(a: array2<Room>, buf: array<PrimWall>, lo: int, hi: int,
                 seen: set<Coordinate>, pushed: set<int>, carved: int)
    requires PrimState(a, buf, lo, hi, seen, pushed, carved) && lo < hi
    ensures PrimState(a, buf, lo + 1, hi, seen, pushed, carved)
    ensures Wallable(a, buf[lo]) && Coordinate(buf[lo].x, buf[lo].y) in seen
    ensures Behind(buf[lo]) == Neighbour(Coordinate(buf[lo].x, buf[lo].y), buf[lo].w)
    ensures WallEdge(buf[lo]) == EdgeOf(Coordinate(buf[lo].x, buf[lo].y), buf[lo].w)
  {
    assert buf[lo + 1..hi] == buf[lo..hi][1..] && buf[lo] == buf[lo..hi][0];
    PopWall(a, buf[lo..hi], seen);
  }

  /** The first wall of a stack of edges from rooms of `rooms` is one such
      edge, and so is every wall after it. */
  lemma PopWall(a: array2<Room>, s: seq<PrimWall>, rooms: set<Coordinate>)
    requires |s| > 0 && WallsInGrid(a, s) && FromRooms(s, rooms)
    ensures Wallable(a, s[0]) && Coordinate(s[0].x, s[0].y) in rooms
    ensures WallsInGrid(a, s[1..]) && FromRooms(s[1..], rooms)
  {
    assert s[0] in s;
    forall e | e in s[1..] ensures e in s {
      var k :| 0 <= k < |s| - 1 && s[1..][k] == e;
      assert s[k + 1] == e;
    }
  }

  /** The carving branch of an iteration of `primMaze`: knock down side `d`
      of the entered room `c`, enter the unvisited room behind it, push
      that room's walls towards unvisited rooms and shuffle the stack. */
  method PrimVisit(a: array2<Room>, buf: array<PrimWall>, lo: int, hi: int, c: Coordinate, d: Direction,
                   rng: Random, ghost seen: set<Coordinate>, ghost pushed: set<int>, ghost carved: int)
    returns (hi': int, ghost seen': set<Coordinate>, ghost pushed': set<int>, ghost carved': int)
    requires InGrid(a, c) && InGrid(a, Neighbour(c, d)) && !a[Neighbour(c, d).y, Neighbour(c, d).x].visited
    requires c in seen && PrimState(a, buf, lo, hi, seen, pushed, carved)
    modifies a, buf, rng
    ensures PrimState(a, buf, lo, hi', seen', pushed', carved')
    ensures seen' == seen + {Neighbour(c, d)} && carved' == carved + 1
    ensures OpenEdges(a) == old(OpenEdges(a)) + {EdgeOf(c, d)}
  {
    hi', seen', pushed', carved' := PrimEnter(a, buf, lo, hi, c, d, seen, pushed, carved);
    ghost var edges := OpenEdges(a);
    ShuffleWalls(a, buf, lo, hi', rng, seen', pushed', carved');
    assert OpenEdges(a) == edges;
  }

  /** The carve and the pushes of `PrimVisit`, before the shuffle. */
  method PrimEnter(a: array2<Room>, buf: array<PrimWall>, lo: int, hi: int, c: Coordinate, d: Direction,
                   ghost seen: set<Coordinate>, ghost pushed: set<int>, ghost carved: int)
    returns (hi': int, ghost seen': set<Coordinate>, ghost pushed': set<int>, ghost carved': int)
    requires InGrid(a, c) && InGrid(a, Neighbour(c, d)) && !a[Neighbour(c, d).y, Neighbour(c, d).x].visited
    requires c in seen && PrimState(a, buf, lo, hi, seen, pushed, carved)
    modifies a, buf
    ensures PrimState(a, buf, lo, hi', seen', pushed', carved')
    ensures seen' == seen + {Neighbour(c, d)} && carved' == carved + 1
    ensures OpenEdges(a) == old(OpenEdges(a)) + {EdgeOf(c, d)}
  {
    var n := Neighbour(c, d);
    seen', carved' := PrimOpen(a, c, d, seen, carved);
    assert FromRooms(buf[lo..hi], seen');
    SeenAround(a, n, seen');
    hi', pushed' := PushSides(a, buf, lo, hi, n, seen, pushed);
    VisitFrontier(a.Length1, a.Length0, seen, pushed, n);
  }

  /** The carve of `PrimEnter`: knock down side `d` of the entered room
      `c` and enter the room behind it, one more open edge and one more
      entered room, the open edges still between entered rooms. */
  method PrimOpen(a: array2<Room>, c: Coordinate, d: Direction, ghost seen: set<Coordinate>, ghost carved: int)
    returns (ghost seen': set<Coordinate>, ghost carved': int)
    requires InGrid(a, c) && InGrid(a, Neighbour(c, d)) && !a[Neighbour(c, d).y, Neighbour(c, d).x].visited
    requires c in seen && Carving(a, seen) && (forall p :: p in seen ==> InGrid(a, p))
    requires carved == |OpenEdges(a)| && Joins(a, seen) && |seen| == carved + 1
    modifies a
    ensures seen' == seen + {Neighbour(c, d)} && carved' == carved + 1 && Neighbour(c, d) !in seen
    ensures Carving(a, seen') && (forall p :: p in seen' ==> InGrid(a, p))
    ensures carved' == |OpenEdges(a)| && Joins(a, seen') && |seen'| == carved' + 1
    ensures OpenEdges(a) == old(OpenEdges(a)) + {EdgeOf(c, d)}
  {
    var n := Neighbour(c, d);
    ghost var edges := OpenEdges(a);
    OpenSide(a, c, d, seen);
    Enter(a, n, seen);
    TreeGrows(edges, seen, c, d);
    seen', carved' := seen + {n}, carved + 1;
  }

  /** `primMaze`: enter a random room, push its walls and shuffle them;
      then pop walls until the stack is empty, carving into every room
      behind a popped wall that is not yet visited and pushing that room's
      walls towards unvisited rooms; finally place Icarus and the treasure.
      The stack never outgrows its capacity `EdgeCount(w, h)`: every edge
      is pushed at most once, by the first of its rooms to be entered. Every
      carve opens one edge from an entered room into a new room, so the
      open edges number one less than the rooms entered and each lies
      between two of them; the maze stays consistent and closed. */
  method PrimMaze(width: nat, height: nat, rng: Random) returns (m: Maze, ghost carved: int, ghost entered: set<Coordinate>)
    requires width > 0 && height > 0
    modifies rng
    ensures fresh(m) && fresh(m.rooms)
    ensures m.rooms.Length0 == height && m.rooms.Length1 == width
    ensures Symmetric(m.rooms) && Closed(m.rooms)
    ensures forall y, x :: 0 <= y < height && 0 <= x < width ==> (m.rooms[y, x].visited <==> Coordinate(x, y) in entered)
    ensures |OpenEdges(m.rooms)| == carved && |entered| == carved + 1 && Joins(m.rooms, entered)
    ensures (!rng.Exhausted() ==> Placed(m)) && FlagsAt(m)
  {
    m := FullMaze(width, height);
    carved, entered := PrimCarve(m.rooms, rng);
    PlaceIcarusAndTreasure(m, rng);
  }

  /** The carve of `primMaze` on a full grid. */
  method PrimCarve(rooms: array2<Room>, rng: Random) returns (ghost carved: int, ghost seen: set<Coordinate>)
    requires rooms.Length0 > 0 && rooms.Length1 > 0
    requires forall y, x :: 0 <= y < rooms.Length0 && 0 <= x < rooms.Length1 ==> rooms[y, x] == FullRoom
    modifies rooms, rng
    ensures Carving(rooms, seen) && |seen| == carved + 1
    ensures carved == |OpenEdges(rooms)| && Joins(rooms, seen)
  {
    var buf, hi;
    ghost var pushed;
    buf, hi, seen, pushed := PrimStart(rooms, rng);
    var lo := 0;
    carved := 0;
    while lo < hi
      invariant fresh(buf)
      invariant PrimState(rooms, buf, lo, hi, seen, pushed, carved)
      decreases buf.Length - lo
    {
      hi, seen, pushed, carved := PrimStep(rooms, buf, lo, hi, rng, seen, pushed, carved);
      lo := lo + 1;
    }
  }

  /** The start of `primMaze`: a random room entered, its walls pushed onto
      a stack of capacity `EdgeCount(w, h)` and shuffled. Every room is
      unvisited then, so the visited test of the later pushes, which the
      program leaves out here, changes nothing. */
  method PrimStart(rooms: array2<Room>, rng: Random)
    returns (buf: array<PrimWall>, hi: int, ghost seen: set<Coordinate>, ghost pushed: set<int>)
    requires rooms.Length0 > 0 && rooms.Length1 > 0
    requires forall y, x :: 0 <= y < rooms.Length0 && 0 <= x < rooms.Length1 ==> rooms[y, x] == FullRoom
    modifies rooms, rng
    ensures fresh(buf)
    ensures PrimState(rooms, buf, 0, hi, seen, pushed, 0)
  {
    var height, width := rooms.Length0, rooms.Length1;
    var stackSize := EdgeCount(width, height);
    assert stackSize >= 0 by {
      MulLess(0, width - 1, height);
      MulLess(0, height - 1, width);
    }
    buf := new PrimWall[stackSize](_ => PrimWall(0, 0, 0));
    var x := rng.Intn(width);
    var y := rng.Intn(height);
    var start := Coordinate(x, y);
    FullNoEdges(rooms);
    Enter(rooms, start, {});
    seen := {start};
    assert buf[0..0] == [];
    hi, pushed := PushSides(rooms, buf, 0, 0, start, {}, {});
    VisitFrontier(width, height, {}, {}, start);
    assert OpenEdges(rooms) == {} && Joins(rooms, seen);
    ShuffleWalls(rooms, buf, 0, hi, rng, seen, pushed, 0);
  }

  /** `shuffle` on the unpopped walls of `primMaze`: it keeps the loop's
      invariant. */
  method ShuffleWalls(a: array2<Room>, buf: array<PrimWall>, lo: int, hi: int, rng: Random,
                      ghost seen: set<Coordinate>, ghost pushed: set<int>, ghost carved: int)
    requires PrimState(a, buf, lo, hi, seen, pushed, carved)
    modifies buf, rng
    ensures PrimState(a, buf, lo, hi, seen, pushed, carved)
  {
    ghost var before := buf[lo..hi];
    Shuffle(buf, lo, hi, rng);
    PermutedInGrid(a, before, buf[lo..hi]);
    PermutedFromRooms(before, buf[lo..hi], seen);
  }

  // ----- rightDownMaze -----

  /** Every wall of the stack `s` is a right or a bottom side. */
  ghost predicate RightOrDown(s: seq<PrimWall>) {
    forall e :: e in s ==> e.w == 1 || e.w == 2
  }

  /** Only the 1 by 1 grid has no edge. */
  lemma NoEdges(w: int, h: int)
    requires w > 0 && h > 0
    ensures EdgeCount(w, h) == 0 <==> w == 1 && h == 1
  {
    MulLess(0, w - 1, h);
    MulLess(0, h - 1, w);
    if w > 1 {
      MulLess(1, w - 1, h);
    }
    if h > 1 {
      MulLess(1, h - 1, w);
    }
  }

  /** The room right of or below every edge of `edges` is one of `rooms`. */
  ghost predicate Into(edges: set<Edge>, rooms: set<Coordinate>) {
    forall e :: e in edges ==> Across(e) in rooms
  }

  /** A right or bottom edge into a room outside `rooms` is none of the
      edges into rooms of `rooms`; adding both keeps that so, and each set
      grows by one. */
  lemma {:induction false} IntoGrows(edges: set<Edge>, rooms: set<Coordinate>, c: Coordinate, d: Direction)
    requires Into(edges, rooms) && (d == 1 || d == 2) && Neighbour(c, d) !in rooms
    ensures EdgeOf(c, d) !in edges && |edges + {EdgeOf(c, d)}| == |edges| + 1
    ensures Into(edges + {EdgeOf(c, d)}, rooms + {Neighbour(c, d)})
    ensures |rooms + {Neighbour(c, d)}| == |rooms| + 1
  {
  }

  /** What holds between two iterations of the loop of `rightDownMaze`:
      the carve invariant for the rooms entered so far, and the open edges
      one fewer than those rooms, each leading right or down into one of
      them. */
  ghost predicate RightDownState(a: array2<Room>, seen: set<Coordinate>, carved: int)
    reads a
  {
    && Carving(a, seen) && (forall p :: p in seen ==> InGrid(a, p))
    && carved == |OpenEdges(a)| && Into(OpenEdges(a), seen) && |seen| == carved + 1
  }

  /** Wall `e` is the right side of a room left of the last column or the
      bottom side of a room above the last row of a `w` by `h` grid: an
      edge between two rooms, named from its left or upper room. */
  predicate InnerWall(w: int, h: int, e: PrimWall) {
    || (e.w == 1 && 0 <= e.x < w - 1 && 0 <= e.y < h)
    || (e.w == 2 && 0 <= e.x < w && 0 <= e.y < h - 1)
  }

  /** Side `d` of the first `n` rooms of column `i`, top to bottom. */
  function ColumnWalls(i: int, n: nat, d: int): (s: seq<PrimWall>)
    ensures |s| == n
  {
    if n == 0 then [] else ColumnWalls(i, n - 1, d) + [PrimWall(i, n - 1, d)]
  }

  /** Side `d` of the first `rows` rooms of each of the first `n` columns,
      column by column. */
  function Columns(n: nat, rows: nat, d: int): seq<PrimWall> {
    if n == 0 then [] else Columns(n - 1, rows, d) + ColumnWalls(n - 1, rows, d)
  }

  /** What the two push loops of `rightDownMaze` write, in order. */
  function InnerWalls(w: nat, h: nat): seq<PrimWall>
    requires h > 0
  {
    Columns(if w > 0 then w - 1 else 0, h, 1) + Columns(w, h - 1, 2)
  }

  /** How many times `e` occurs in `s`. */
  function Occ(s: seq<PrimWall>, e: PrimWall): (k: nat)
    ensures k <= |s|
  {
    if s == [] then 0 else Occ(s[..|s| - 1], e) + (if s[|s| - 1] == e then 1 else 0)
  }

  lemma {:induction false} OccConcat(s: seq<PrimWall>, t: seq<PrimWall>, e: PrimWall)
    ensures Occ(s + t, e) == Occ(s, e) + Occ(t, e)
  {
    if t != [] {
      assert (s + t)[..|s + t| - 1] == s + t[..|t| - 1];
      OccConcat(s, t[..|t| - 1], e);
    } else {
      assert s + t == s;
    }
  }

  /** `Occ` is the multiplicity of the sequence's multiset. */
  lemma {:induction false} OccCount(s: seq<PrimWall>, e: PrimWall)
    ensures multiset(s)[e] == Occ(s, e)
  {
    if s != [] {
      var front := s[..|s| - 1];
      assert s == front + [s[|s| - 1]];
      OccCount(front, e);
    }
  }

  lemma {:induction false} ColumnWallsCount(i: int, n: nat, d: int, e: PrimWall)
    ensures Occ(ColumnWalls(i, n, d), e) == if e.w == d && e.x == i && 0 <= e.y < n then 1 else 0
  {
    if n > 0 {
      ColumnWallsCount(i, n - 1, d, e);
      assert ColumnWalls(i, n, d)[..n - 1] == ColumnWalls(i, n - 1, d);
    }
  }

  lemma {:induction false} ColumnsCount(n: nat, rows: nat, d: int, e: PrimWall)
    ensures Occ(Columns(n, rows, d), e) == if e.w == d && 0 <= e.x < n && 0 <= e.y < rows then 1 else 0
  {
    if n > 0 {
      OccConcat(Columns(n - 1, rows, d), ColumnWalls(n - 1, rows, d), e);
      ColumnsCount(n - 1, rows, d, e);
      ColumnWallsCount(n - 1, rows, d, e);
    }
  }

  lemma {:induction false} ColumnsLength(n: nat, rows: nat, d: int)
    ensures |Columns(n, rows, d)| == n * rows
  {
    if n > 0 {
      ColumnsLength(n - 1, rows, d);
      assert n * rows == (n - 1) * rows + rows;
    }
  }

  lemma InnerWallCount(w: nat, h: nat, e: PrimWall)
    requires h > 0
    ensures Occ(InnerWalls(w, h), e) == if InnerWall(w, h, e) then 1 else 0
  {
    OccConcat(Columns(if w > 0 then w - 1 else 0, h, 1), Columns(w, h - 1, 2), e);
    ColumnsCount(if w > 0 then w - 1 else 0, h, 1, e);
    ColumnsCount(w, h - 1, 2, e);
  }

  /** The walls `rightDownMaze` pushes are every inner edge of the grid,
      each exactly once, and as many as the stack's capacity. */
  lemma InnerWallsOnce(w: nat, h: nat)
    requires w > 0 && h > 0
    ensures forall e :: multiset(InnerWalls(w, h))[e] == if InnerWall(w, h, e) then 1 else 0
    ensures |InnerWalls(w, h)| == EdgeCount(w, h)
  {
    forall e ensures multiset(InnerWalls(w, h))[e] == if InnerWall(w, h, e) then 1 else 0 {
      OccCount(InnerWalls(w, h), e);
      InnerWallCount(w, h, e);
    }
    ColumnsLength(w - 1, h, 1);
    ColumnsLength(w, h - 1, 2);
    assert w * (h - 1) == (h - 1) * w;
  }

  /** Every inner wall is an edge of the grid pointing right or down. */
  lemma InnerWallsInGrid(a: array2<Room>, s: seq<PrimWall>)
    requires forall e :: e in s ==> InnerWall(a.Length1, a.Length0, e)
    ensures WallsInGrid(a, s) && RightOrDown(s)
  {
  }

  /** The two push loops of `rightDownMaze`: the right side of every room
      but the last column, column by column, then the bottom side of every
      room but the last row. */
  method PushAllEdges(a: array2<Room>, buf: array<PrimWall>) returns (hi: int)
    requires a.Length0 > 0 && a.Length1 > 0 && buf.Length == EdgeCount(a.Length1, a.Length0)
    modifies buf
    ensures hi == buf.Length
    ensures buf[0..hi] == InnerWalls(a.Length1, a.Length0)
  {
    var h, w := a.Length0, a.Length1;
    ColumnStep(0, w - 1, h);
    ColumnStep(0, w, h - 1);
    hi := PushColumns(buf, 0, w - 1, h, 1);
    hi := PushColumns(buf, hi, w, h - 1, 2);
  }

  /** One of the two push loops: side `d` of the first `rows` rooms of
      each of the first `n` columns, column by column. */
  method PushColumns(buf: array<PrimWall>, hi: int, n: nat, rows: nat, d: int) returns (hi': int)
    requires 0 <= hi && hi + n * rows <= buf.Length
    modifies buf
    ensures hi' == hi + n * rows
    ensures buf[0..hi'] == old(buf[0..hi]) + Columns(n, rows, d)
  {
    hi' := hi;
    ColumnStep(0, n, rows);
    for i := 0 to n
      invariant hi' == hi + i * rows && i * rows <= n * rows
      invariant buf[0..hi'] == old(buf[0..hi]) + Columns(i, rows, d)
    {
      ColumnStep(i + 1, n, rows);
      hi' := PushColumn(buf, hi', i, rows, d);
    }
  }

  /** The arithmetic of the push loops: `i` columns of `k` walls each,
      one more column after `i - 1`, never more than the `n` columns. */
  lemma ColumnStep(i: int, n: int, k: int)
    requires 0 <= i <= n && k >= 0
    ensures 0 <= i * k <= n * k && n * k == k * n
    ensures i > 0 ==> i * k == (i - 1) * k + k
  {
    MulLess(i, n, k);
  }

  /** One iteration of either push loop: side `d` of the first `rows`
      rooms of column `i`, top to bottom. */
  method PushColumn(buf: array<PrimWall>, hi: int, i: int, rows: nat, d: int) returns (hi': int)
    requires 0 <= hi && hi + rows <= buf.Length
    modifies buf
    ensures hi' == hi + rows
    ensures buf[0..hi'] == old(buf[0..hi]) + ColumnWalls(i, rows, d)
  {
    hi' := hi;
    for j := 0 to rows
      invariant hi' == hi + j && buf[0..hi'] == old(buf[0..hi]) + ColumnWalls(i, j, d)
    {
      hi' := AddPrimWall(buf, 0, hi', PrimWall(i, j, d));
    }
  }

  /** `rightDownMaze`: push every edge once, shuffle, mark the room of the
      first wall visited, then pop every wall, carving into the room behind
      it when that room is not visited; finally place Icarus and the
      treasure. On the 1 by 1 grid there is no wall and the program indexes
      its empty stack, which `ok` reports. Every carve enters a new room,
      so the carves number one less than the rooms entered. */
  method RightDownMaze(width: nat, height: nat, rng: Random) returns (m: Maze, ok: bool, ghost carved: int, ghost entered: set<Coordinate>)
    requires width > 0 && height > 0
    modifies rng
    ensures fresh(m) && fresh(m.rooms)
    ensures m.rooms.Length0 == height && m.rooms.Length1 == width
    ensures Symmetric(m.rooms) && Closed(m.rooms)
    ensures ok <==> !(width == 1 && height == 1)
    ensures ok ==> forall y, x :: 0 <= y < height && 0 <= x < width ==> (m.rooms[y, x].visited <==> Coordinate(x, y) in entered)
    ensures ok ==> |OpenEdges(m.rooms)| == carved && |entered| == carved + 1 && Into(OpenEdges(m.rooms), entered)
    ensures ok ==> (!rng.Exhausted() ==> Placed(m)) && FlagsAt(m)
  {
    m := FullMaze(width, height);
    ok, carved, entered := RightDownCarve(m.rooms, rng);
    if ok {
      PlaceIcarusAndTreasure(m, rng);
    }
  }

  /** The carve of `rightDownMaze` on a full grid. */
  method RightDownCarve(rooms: array2<Room>, rng: Random) returns (ok: bool, ghost carved: int, ghost seen: set<Coordinate>)
    requires rooms.Length0 > 0 && rooms.Length1 > 0
    requires forall y, x :: 0 <= y < rooms.Length0 && 0 <= x < rooms.Length1 ==> rooms[y, x] == FullRoom
    modifies rooms, rng
    ensures Symmetric(rooms) && Closed(rooms) && NoFlags(rooms)
    ensures ok <==> !(rooms.Length1 == 1 && rooms.Length0 == 1)
    ensures ok ==> RightDownState(rooms, seen, carved)
  {
    NoEdges(rooms.Length1, rooms.Length0);
    var buf := RightDownStack(rooms, rng);
    if buf.Length == 0 {
      return false, 0, {};
    }
    var wall := buf[0];
    assert wall in buf[..];
    FullNoEdges(rooms);
    Enter(rooms, Coordinate(wall.x, wall.y), {});
    seen, carved := RightDownLoop(rooms, buf, {Coordinate(wall.x, wall.y)});
    ok := true;
  }

  /** The stack of `rightDownMaze`: the right side of every room left of the
      last column and the bottom side of every room above the last row, in
      random order. */
  method RightDownStack(rooms: array2<Room>, rng: Random) returns (buf: array<PrimWall>)
    requires rooms.Length0 > 0 && rooms.Length1 > 0
    modifies rng
    ensures fresh(buf) && buf.Length == EdgeCount(rooms.Length1, rooms.Length0)
    ensures forall e :: multiset(buf[..])[e] == if InnerWall(rooms.Length1, rooms.Length0, e) then 1 else 0
    ensures WallsInGrid(rooms, buf[..]) && RightOrDown(buf[..])
  {
    var height, width := rooms.Length0, rooms.Length1;
    var stackSize := EdgeCount(width, height);
    assert stackSize >= 0 by {
      MulLess(0, width - 1, height);
      MulLess(0, height - 1, width);
    }
    buf := new PrimWall[stackSize](_ => PrimWall(0, 0, 0));
    var hi := PushAllEdges(rooms, buf);
    InnerWallsOnce(width, height);
    Shuffle(buf, 0, hi, rng);
    assert buf[..] == buf[0..hi];
    forall e | e in buf[..] ensures InnerWall(width, height, e) {
      assert multiset(buf[..])[e] > 0;
    }
    InnerWallsInGrid(rooms, buf[..]);
  }

  /** The loop of `rightDownMaze`: every shuffled wall is popped in turn. */
  method RightDownLoop(rooms: array2<Room>, buf: array<PrimWall>, ghost seen0: set<Coordinate>)
    returns (ghost seen: set<Coordinate>, ghost carved: int)
    requires WallsInGrid(rooms, buf[..]) && RightOrDown(buf[..])
    requires RightDownState(rooms, seen0, 0)
    modifies rooms
    ensures RightDownState(rooms, seen, carved)
  {
    seen, carved := seen0, 0;
    var lo := 0;
    while lo < buf.Length
      invariant 0 <= lo <= buf.Length
      invariant WallsInGrid(rooms, buf[lo..]) && RightOrDown(buf[lo..])
      invariant RightDownState(rooms, seen, carved)
      decreases buf.Length - lo
    {
      assert buf[lo + 1..] == buf[lo..][1..];
      seen, carved := RightDownStep(rooms, buf[lo], seen, carved);
      lo := lo + 1;
    }
  }

  /** One iteration of the loop of `rightDownMaze`: the room behind the
      popped wall, to the right or below, is carved into when it is not
      visited; when it is, the grid is left as it was. */
  method RightDownStep(rooms: array2<Room>, wall: PrimWall, ghost seen: set<Coordinate>, ghost carved: int)
    returns (ghost seen': set<Coordinate>, ghost carved': int)
    requires Wallable(rooms, wall) && (wall.w == 1 || wall.w == 2)
    requires RightDownState(rooms, seen, carved)
    modifies rooms
    ensures RightDownState(rooms, seen', carved')
    ensures Behind(wall) in seen ==> unchanged(rooms) && seen' == seen && carved' == carved
    ensures Behind(wall) !in seen ==>
              && seen' == seen + {Behind(wall)} && carved' == carved + 1
              && OpenEdges(rooms) == old(OpenEdges(rooms)) + {WallEdge(wall)}
  {
    var c := Coordinate(wall.x, wall.y);
    var n := if wall.w % 2 == 1 then Coordinate(c.x + 1, c.y) else Coordinate(c.x, c.y + 1);
    assert n == Neighbour(c, wall.w) == Behind(wall) && WallEdge(wall) == EdgeOf(c, wall.w);
    if !rooms[n.y, n.x].visited {
      seen', carved' := RightDownVisit(rooms, c, wall.w, seen, carved);
    } else {
      assert n in seen;
      seen', carved' := seen, carved;
    }
  }

  /** The carving branch of an iteration of `rightDownMaze`: knock down
      side `d` of room `c` and enter the unvisited room behind it. */
  method RightDownVisit(rooms: array2<Room>, c: Coordinate, d: Direction, ghost seen: set<Coordinate>, ghost carved: int)
    returns (ghost seen': set<Coordinate>, ghost carved': int)
    requires InGrid(rooms, c) && (d == 1 || d == 2) && InGrid(rooms, Neighbour(c, d))
    requires !rooms[Neighbour(c, d).y, Neighbour(c, d).x].visited
    requires RightDownState(rooms, seen, carved)
    modifies rooms
    ensures RightDownState(rooms, seen', carved')
    ensures Neighbour(c, d) !in seen && seen' == seen + {Neighbour(c, d)} && carved' == carved + 1
    ensures OpenEdges(rooms) == old(OpenEdges(rooms)) + {EdgeOf(c, d)}
  {
    var n := Neighbour(c, d);
    ghost var edges := OpenEdges(rooms);
    OpenSide(rooms, c, d, seen);
    Enter(rooms, n, seen);
    RightDownGrows(rooms, edges, seen, c, d, carved);
    seen', carved' := seen + {n}, carved + 1;
  }

  /** After the carve of `RightDownVisit`, with the open edges `edges`
      before it, the loop's invariant holds for one more room and one
      more open edge. */
  lemma RightDownGrows(a: array2<Room>, edges: set<Edge>, seen: set<Coordinate>, c: Coordinate, d: Direction, carved: int)
    requires (d == 1 || d == 2) && InGrid(a, Neighbour(c, d)) && Neighbour(c, d) !in seen
    requires Carving(a, seen + {Neighbour(c, d)}) && (forall p :: p in seen ==> InGrid(a, p))
    requires carved == |edges| && Into(edges, seen) && |seen| == carved + 1
    requires OpenEdges(a) == edges + {EdgeOf(c, d)}
    ensures RightDownState(a, seen + {Neighbour(c, d)}, carved + 1)
  {
    IntoGrows(edges, seen, c, d);
  }
}
