# Daedalus and Icarus, modelled in Dafny

The program is a labyrinth game in two halves.

- **Daedalus** is the maze server. It holds a `rooms[height][width]` grid of rooms, each with four walls, a visited mark and start/treasure flags. It also holds Icarus's position, the treasure's position and a step count. It answers bounds-checked room queries, wall surveys and one-cell moves. Its generators build the grid: a full and an empty grid, the "void" maze (walls on the perimeter only), two spiky mazes, a maze tiled with a hand-drawn 4×4 pattern, a recursive-backtracker maze, Prim's algorithm, the "right-down" variant of Prim and a maze of concentric rings. Each generator ends by placing Icarus and the treasure in two distinct rooms.
- **Icarus** is the explorer. It knows only its position relative to where it woke up. It numbers cells by a Cantor-style pairing of signed coordinates (`coordsToInt`) into flat arrays that grow 200 entries at a time. It explores depth-first with a breadcrumb stack, in one of two ways:
  - the classic walker pops one breadcrumb at a dead end;
  - the other walker recomputes, at a dead end, the nearest unvisited cell it knows of by a bounded depth-first search (`nearestUnvisited`) and walks there.

Modules:

| module | file | contents |
|---|---|---|
| `Mazelib` | mazelib.dfy | coordinates, surveys, rooms, directions, errors |
| `Oracle` | oracle.dfy | `rand.Intn` as a sequence of draws |
| `Daedalus` | maze.dfy | the `Maze` class, its queries and moves, and the grid predicates `Symmetric` and `Closed` |
| `Grid` | grid.dfy | edge writes that update both rooms, the full maze, the placement of Icarus and the treasure |
| `FixedMazes` | fixed.dfy | the void maze and the spiky mazes |
| `PatternMazes` | pattern.dfy | the pattern maze |
| `BacktrackerMazes` | backtracker.dfy | the backtracker maze |
| `PrimMazes` | prim.dfy | `shuffle`, `addPrimWall`, Prim's maze and the right-down maze |
| `CircleMazes` | circle.dfy | the circle maze |
| `Pairing` | pairing.dfy | `coordsToInt` |
| `Virtual` | virtual.dfy | the explorer's growing arrays |
| `Nearest` | nearest.dfy | `nearestUnvisited`, as a function and as the buffer-writing recursive method |
| `Icarus` | icarus.dfy | what the explorers share: moves, direction order, endings |
| `ClassicIcarus` | classic.dfy | `backtrackerClassicIcarus` |
| `BacktrackerIcarus` | backtracking.dfy | `backtrackerIcarus` |

How the inputs are modelled:

- Width, height, `max-steps` and the explorer strategy are parameters.
- Every `rand.Intn(n)` is a draw from an `Oracle.Random` object, which hands out a fixed sequence of numbers. A draw in range is returned as it is; one out of range is reduced modulo `n`.
- The explorer's HTTP `Move` is a call into the `Maze` model. `Icarus.MoveTo` does what the server's `MoveDirection` handler and the client's `Move` do together: a move, then a look around.
- Where a run of the program ends in a Go panic (an index out of range) or a call to `os.Exit`, the model returns an explicit outcome: `ok` false, or `Panicked`/`NoPath`.

Three grid predicates carry most of the generator proofs:

- `Symmetric`: two rooms that share an edge agree on the wall between them.
- `Closed`: every side on the perimeter is walled.
- `Placed`: Icarus and the treasure stand in distinct rooms of the grid, each room carrying its flag.

## Model

| member | source | states |
|---|---|---|
| Daedalus.Maze.Empty | commands/daedalus.go:333-347 | `emptyMaze`: a `height`×`width` grid of rooms without walls or flags, positions at the origin, no steps |
| Daedalus.Maze.GetRoom | commands/daedalus.go:176-185 | fails with the out-of-bounds error exactly when `x<0`, `y<0`, `x>=Width()` or `y>=Height()`; otherwise returns `rooms[y][x]` |
| Daedalus.Maze.SetStartPoint | commands/daedalus.go:193-207 | out of the grid, or a treasure room: the matching error, and nothing changes; otherwise that room gets the start flag and Icarus stands in it; no other room changes |
| Daedalus.Maze.SetTreasure | commands/daedalus.go:210-224 | out of the grid, or a start room: the matching error, and nothing changes; otherwise that room gets the treasure flag and the treasure stands in it; no other room changes |
| Daedalus.Maze.Discover | commands/daedalus.go:239-245 | never fails: inside the grid it gives the room's walls, outside it the all-open survey |
| Daedalus.Maze.LookAround | commands/daedalus.go:228-235 | the Victory error exactly when Icarus stands on the treasure; otherwise the walls of Icarus's room |
| Daedalus.Maze.Move | commands/daedalus.go:249-329 | the checks come in order: victory, then the wall, then the bounds; it succeeds exactly when none fires, and then Icarus moves one cell in that direction and the step count grows by 1; a failure changes nothing; in a closed grid it never fails on the bounds |
| Daedalus.ClosedKeepsInside | commands/daedalus.go:249-329 | in a closed grid an open side always leads to a room of the grid, so a move never leaves the grid |
| Mazelib.Neighbour | commands/daedalus.go:249-329 | a move changes one coordinate by one: up is y−1, right x+1, down y+1, left x−1 |
| Mazelib.NeighbourBack | commands/daedalus.go:249-329 | a move followed by the opposite move returns to the starting cell |
| Mazelib.SetWall | commands/daedalus.go:455-475 | a wall write sets one side and leaves the other three alone |
| Mazelib.DirectionTowards | commands/icarus.go:225-233 | the direction chosen by comparing coordinates leads to the target when the target is adjacent |
| Mazelib.TowardsNeighbour | commands/icarus.go:225-233 | comparing coordinates recovers the direction of any one-cell step |
| Oracle.Random.Intn | commands/daedalus.go:442 | `rand.Intn(n)`: a value in `[0, n)`, the next draw when that is in range, and one draw used |
| Grid.SetEdge | commands/daedalus.go:455-475 | writes the wall on both sides of one edge; keeps the grid symmetric, and closed when it adds a wall or the edge is inside the grid |
| Grid.OpenEdge | commands/daedalus.go:936-942 | removes the wall on both sides of an inner edge; only walls change; symmetry and closedness are kept; the open edges of the grid gain exactly that edge |
| Grid.MarkVisited | commands/daedalus.go:476-483 | marks one room visited and changes nothing else; the open edges stay the same |
| Grid.LayoutConsistent | commands/daedalus.go:636-651 | a grid laid from a wall layout is symmetric and closed when the layout agrees on inner edges and walls the perimeter |
| Grid.FullMaze | commands/daedalus.go:351-363 | `fullMaze`: a `height`×`width` grid whose every room has four walls |
| Grid.FullNoEdges | commands/daedalus.go:351-363 | a grid of four-walled rooms has no open edge |
| Grid.TreeGrows | commands/daedalus.go:1021-1035 | carving from an entered room into a room not entered adds an edge that was not open before, and keeps every open edge between two entered rooms; edges and rooms each grow by one |
| Grid.PlaceIcarusAndTreasure | commands/daedalus.go:494-509 | Icarus and the treasure in two distinct rooms of the grid, each with its flag and no other flag anywhere; walls, visited marks and open edges untouched |
| Grid.DrawPlaces | commands/daedalus.go:494-507 | the start and the treasure drawn in the grid, the treasure redrawn while both are the same room, so that they differ unless the draws run out |
| FixedMazes.VoidWalls | commands/daedalus.go:636-651 | a room has a wall on a side exactly when that side faces no room of the grid |
| FixedMazes.VoidMaze | commands/daedalus.go:631-674 | every room gets the void layout; Icarus and the treasure are placed |
| FixedMazes.SpikyHorizontalAgree | commands/daedalus.go:522-551 | the horizontal spiky layout agrees on every inner edge |
| FixedMazes.SpikyHorizontalWalls | commands/daedalus.go:522-551 | the horizontal spiky layout walls the whole perimeter |
| FixedMazes.SpikyHorizontalMaze | commands/daedalus.go:514-574 | the grid holds the horizontal spiky layout: open rows, a wall between columns `w/2` and `w/2+1` except in the top and bottom rows, open outer columns with one wall in the right column below row `h/2`; Icarus and the treasure are placed |
| FixedMazes.JoinHalves | commands/daedalus.go:545-551 | the four openings in the top and bottom rows and the wall in the right column turn the loop's layout into the final one |
| FixedMazes.SpikyVerticalAgree | commands/daedalus.go:583-607 | the vertical spiky layout agrees on every inner edge |
| FixedMazes.SpikyVerticalWalls | commands/daedalus.go:583-607 | the vertical spiky layout walls the whole perimeter |
| FixedMazes.SpikyVerticalMaze | commands/daedalus.go:576-629 | the grid holds the vertical spiky layout; Icarus and the treasure are placed |
| PatternMazes.TileWalls | commands/daedalus.go:687-705 | the hand-drawn tile is walled on all four borders |
| PatternMazes.TileAgrees | commands/daedalus.go:687-705 | the tile agrees with itself on every inner edge |
| PatternMazes.PatternAgrees | commands/daedalus.go:717-730 | the tiled layout agrees on every inner edge of the grid, across tile borders too |
| PatternMazes.PatternClosed | commands/daedalus.go:717-730 | the tiled layout walls the grid's perimeter |
| PatternMazes.PlaceTiles | commands/daedalus.go:685-715 | every whole 4×4 square of the grid becomes a copy of the tile with its visited marks; the other rooms stay full |
| PatternMazes.PlaceTile | commands/daedalus.go:687-713 | one iteration of the tile loop: the sixteen rooms of the square at (`4x`, `4y`) get the tile walls and the tile's visited marks are added; every other room is unchanged |
| PatternMazes.TileRow | commands/daedalus.go:687-705 | one row of four wall writes: the four rooms of that row of the square get their tile walls, nothing else changes |
| PatternMazes.MarkTile | commands/daedalus.go:707-713 | the seven visited writes: exactly the tile's right column and bottom row become visited, nothing else changes |
| PatternMazes.LaidTilesConsistent | commands/daedalus.go:685-715 | right after the tiles are laid the grid is symmetric and closed and has no flags |
| PatternMazes.LaidEdges | commands/daedalus.go:685-715 | right after the tiles are laid every open edge lies inside one tile |
| PatternMazes.ScanThree | commands/daedalus.go:731-781 | the fill's scan: each side except the one it came from is marked taken exactly when it leaves the grid or leads to a visited room; `free` counts the others |
| PatternMazes.FillStep | commands/daedalus.go:731-834 | one fill step either carves: the wall on the drawn side of the current room is opened, the open edges gain exactly that edge, only the two rooms of the edge change, and the adjacent room behind it, not entered before, is pushed; or it pops one room and leaves the grid unchanged; symmetry and closedness are kept; a fault is a pop on the bottom entry with every side but the one it came from taken, or a push past the end of the stack after the carve |
| PatternMazes.FillBack | commands/daedalus.go:783-788 | with every side but the way back taken, the way back is marked taken and the room below on the stack resumed; at the bottom of the stack the step faults, every side but the way back taken |
| PatternMazes.FillCarve | commands/daedalus.go:789-829 | the carve into a free side opens the wall on that side, adds exactly that edge to the open edges and changes only the two rooms of the edge; the room behind it, adjacent and not entered before, is pushed as the only change of the stack; a push past the end faults after the carve, the carve invariant kept |
| PatternMazes.FillRest | commands/daedalus.go:717-834 | the fill of the rooms outside the tiles keeps the grid symmetric and closed and every room of the tiles exactly as it was; the open edges become the old ones plus the fill's passages, each new and between two rooms outside the tiles; when it ends without a fault every room outside the tiles is visited and the passages number `n - 1` to `n` for the `n = w*h - 16*(w/4)*(h/4)` rooms outside the tiles; a fault happens only back in the bottom right room with at most one free side, or with at most one room outside the tiles unvisited |
| PatternMazes.FillLoop | commands/daedalus.go:729-834 | the fill loop from the bottom right room: symmetry and closedness kept, the rooms of the tiles unchanged, the open edges the old ones plus the passages, each between two rooms outside the tiles; without a fault every room outside the tiles visited and the passages one per stack entry or one fewer; a fault only back in the bottom right room with at most one free side, or with at most one room outside the tiles unvisited |
| PatternMazes.FillTurn | commands/daedalus.go:731-834 | one turn of the fill loop: either one more room entered, or one entry popped with the count unchanged, the loop's state kept (tiles unchanged, passages new and between rooms outside the tiles, counted against the rooms entered); a fault is back in the bottom right room with at most one free side, or with at most one room outside the tiles unvisited |
| PatternMazes.FillingEnds | commands/daedalus.go:729-834 | once the loop has entered as many rooms as the stack holds, every room outside the tiles is visited and the passages number the stack size or one fewer |
| PatternMazes.FillAdvance | commands/daedalus.go:731-834 | one step of the fill loop with its bookkeeping: the rooms of the tiles unchanged; a carve adds one passage, between two rooms outside the tiles and not an edge of the tiles, and enters a new room outside the tiles; the stack stays rooted at the bottom right room and the passages stay counted against the rooms entered |
| PatternMazes.FillOutside | commands/daedalus.go:731-834 | one fill step from a room outside the tiles leaves every room of the tiles unchanged; a carve opens exactly one edge, between two rooms outside the tiles, into a room not entered before; a pop opens none |
| PatternMazes.NewPassage | commands/daedalus.go:789-829 | a passage between two rooms outside the tiles is never an edge the tiles opened |
| PatternMazes.AddPassage | commands/daedalus.go:789-829 | a carve keeps the open edges the disjoint union of the tiles' edges and the fill's passages, each passage between rooms outside the tiles |
| PatternMazes.LeaveFence | commands/daedalus.go:731-781 | a step from a room outside the tiles into the tiles lands in their last column or last row, which the tiles mark visited, so the fill never enters a tile |
| PatternMazes.OutsideCount | commands/daedalus.go:719 | the rooms outside the tiles number the stack size `w*h - 16*(w/4)*(h/4)` |
| PatternMazes.OutsideVisited | commands/daedalus.go:729-834 | once the fill has entered as many new rooms outside the tiles as the stack size, every room outside the tiles is visited |
| PatternMazes.FewUnfilled | commands/daedalus.go:729-834 | once it has entered one fewer, at most one room outside the tiles is unvisited |
| PatternMazes.TileAndFill | commands/daedalus.go:685-834 | the tile loop and the fill on a full grid: symmetric and closed, no flags; every room of the tiles holds the tile walls and visited marks; every open edge is an edge inside a tile or a passage of the fill between two rooms outside the tiles; unless the fill faults the rooms outside the tiles are visited and the passages number `n - 1` to `n` for the `n` rooms outside the tiles; the fault cases of FillRest otherwise |
| PatternMazes.Open | commands/daedalus.go:841-848 | a door removes the wall on both sides of an inner edge, changes nothing else in the two rooms and no other room, and keeps symmetry and closedness |
| PatternMazes.ConnectTiles | commands/daedalus.go:836-851 | with the intended guards, every tile gets a door to the tile on its right and to the tile below, when there is one; only sides across a tile border change, each from walled to open; every edge that was open stays open; no visited mark changes |
| PatternMazes.JoinAll | commands/daedalus.go:837-851 | the two tile loops record a door for every tile with rooms to its right and every tile with rooms below it; since the loop began each room changed only by opening sides across a tile border |
| PatternMazes.JoinColumn | commands/daedalus.go:838-850 | one column of tiles: each tile of column `x` gets its recorded doors, the doors recorded before are kept, and only sides across a tile border open |
| PatternMazes.JoinRight | commands/daedalus.go:839-843 | where rooms lie right of the tile, a random row of its last column gets a door to the right; only sides across a tile border open; no visited mark changes |
| PatternMazes.JoinDown | commands/daedalus.go:845-849 | where rooms lie below the tile, a random column of its last row gets a door downwards; only sides across a tile border open; no visited mark changes |
| PatternMazes.Knock | commands/daedalus.go:841-848 | a door across a tile border opens that side, keeps every recorded door open and every room differing from the laid tiles only by sides across tile borders opened; no visited mark changes |
| PatternMazes.KnockKeeps | commands/daedalus.go:841-848 | the same for a snapshot of the grid taken before the door is knocked through |
| PatternMazes.KnockDoor | commands/daedalus.go:841-848 | knocking down a door across a tile border keeps every room a copy of its earlier self with only sides across a tile border opened |
| PatternMazes.AllJoined | commands/daedalus.go:836-851 | doors recorded for every tile with rooms to its right and below give every tile its doors |
| PatternMazes.DoorsKeepEdges | commands/daedalus.go:836-851 | a grid changed only by opening sides keeps every edge that was open before |
| PatternMazes.ConnectTilesAsWritten | commands/daedalus.go:836-851 | with the guards as written, the loop runs off the grid exactly when there is a whole tile and the width or the height is a multiple of 4 |
| PatternMazes.PatternMaze | commands/daedalus.go:676-874 | a symmetric, closed maze; every room of the tiles holds the tile's wall on every side that is not on a tile border, and the tile's visited marks; the fill's passages are open edges between two rooms outside the tiles; unless the fill faults every room outside the tiles is visited, the passages number `n - 1` to `n` for the `n` rooms outside the tiles, every tile has its doors (the corrected ones, see Findings) and Icarus and the treasure are placed; the fill faults only in the two cases of FillRest |
| BacktrackerMazes.ScanNeighbours | commands/daedalus.go:383-433 | the scan marks a direction taken exactly when it leaves the grid or leads to a visited room; `free` counts the others |
| BacktrackerMazes.ScanOrder | commands/daedalus.go:383-433 | the scan starts after the previous direction and visits the four directions once each, in clockwise order |
| BacktrackerMazes.ScanCoversAll | commands/daedalus.go:383-433 | whatever the starting direction, the scan writes all four entries |
| BacktrackerMazes.ScanCountsAll | commands/daedalus.go:383-433 | `free`, counted down from 4 as the scan goes, is the number of free directions |
| BacktrackerMazes.SelectFree | commands/daedalus.go:442-452 | the selection picks the `t`-th free direction: a free one with exactly `t` free directions before it |
| BacktrackerMazes.PickSide | commands/daedalus.go:442-452 | the chosen direction leads into an unvisited room of the grid; one draw is used |
| BacktrackerMazes.OpenSide | commands/daedalus.go:455-475 | knocks down the wall on a free side of the room: exactly those two walls change, the open edges gain exactly that edge, and the room behind it was not entered before |
| BacktrackerMazes.Enter | commands/daedalus.go:476-483 | marks the room moved into visited: it joins the entered rooms, and no wall or open edge changes |
| BacktrackerMazes.Carve | commands/daedalus.go:454-483 | it carves into the chosen neighbour, which is in the grid and not entered before: the wall on that side is opened and the open edges gain exactly that edge; only the two rooms of the edge change; the neighbour is pushed when the stack has room and is then visited; symmetry and closedness are kept |
| BacktrackerMazes.Step | commands/daedalus.go:383-483 | one step either carves: the wall on the drawn side opens, the open edges gain exactly that edge, and the room behind it, not entered before, is pushed; or it pops one room and leaves the grid unchanged; either way the stack stays rooted at the start and the open edges counted against the rooms entered; it faults only by popping the bottom entry of a room with no free side, or by pushing past the end of the stack after the carve |
| BacktrackerMazes.StepCarve | commands/daedalus.go:441-483 | the carving branch of a step opens the wall on the drawn side, adds exactly that edge to the open edges, changes only the two rooms of the edge, and pushes the room behind it, not entered before; a push past the end faults after the carve, the carve invariant kept |
| BacktrackerMazes.CarvePush | commands/daedalus.go:454-483 | the knock-down and push shared by both carving walks: the wall on side `d` opens, the open edges gain exactly that edge, only the two rooms of the edge change, and the room behind it, not entered before, is pushed and visited; a push past the end of the stack faults after the carve |
| BacktrackerMazes.StepBack | commands/daedalus.go:433-440 | with no free side the stack pops and the room below resumes, the bookkeeping kept; at the bottom of the stack it faults in a room with no free side |
| BacktrackerMazes.Advance | commands/daedalus.go:383-483 | one step of the carve loop, with the counts: a carve enters a new room, a pop goes back one entry, and the stack stays rooted at the start with the open edges counted against the rooms entered |
| BacktrackerMazes.CountedGrows | commands/daedalus.go:454-483 | a carve from an entered room (or the start) into a room not entered before keeps every open edge between entered rooms and the open edges one fewer than or as many as the rooms entered; the edge is new unless the room carved into is the start |
| BacktrackerMazes.ReEnterStart | commands/daedalus.go:378-483 | after the first carve from the start, a carve back into the never-visited start through the same passage opens no new edge: two rooms entered, one open edge |
| BacktrackerMazes.PushedTracked | commands/daedalus.go:476-483 | pushing a newly entered room keeps the stack rooted at the start and the open edges counted |
| BacktrackerMazes.TrackedPush | commands/daedalus.go:476-483 | the same for the push written as a sequence update |
| BacktrackerMazes.CellsCount | commands/daedalus.go:370-371 | the grid holds `width*height` rooms, the length of the stack |
| BacktrackerMazes.CarveAll | commands/daedalus.go:370-483 | the carve keeps the grid symmetric and closed; when it ends without a stack fault, every room is visited and the open edges number `w*h - 1` to `w*h`; a fault happens only in the starting room with no free side, or with all rooms but one visited |
| BacktrackerMazes.CarveLoop | commands/daedalus.go:380-483 | the loop from the unvisited first room on a full grid: symmetric and closed; without a fault every room visited and `w*h - 1` to `w*h` edges open; a fault only in the starting room with no free side, or with all rooms but one visited |
| BacktrackerMazes.SeenVisited | commands/daedalus.go:370-483 | under the carve invariant the visited rooms are exactly the rooms entered |
| BacktrackerMazes.BacktrackerMaze | commands/daedalus.go:366-512 | a symmetric, closed maze; unless the stack overflows or underflows, every room was visited, the grid has `w*h - 1` to `w*h` open edges, and Icarus and the treasure are placed; it underflows only in the starting room with no free side, and overflows only with all rooms but one visited |
| PrimMazes.Swap | commands/daedalus.go:886-889 | a swap exchanges two entries and leaves the rest alone |
| PrimMazes.SwapPermutes | commands/daedalus.go:886-889 | a swap is a permutation |
| PrimMazes.ShuffledPermutes | commands/daedalus.go:882-891 | the shuffle is a permutation of the frontier |
| PrimMazes.Shuffle | commands/daedalus.go:882-891 | the in-place shuffle leaves the specified shuffle of the slice, a permutation of it, changes nothing outside the slice and uses one draw per swap |
| PrimMazes.AddPrimWall | commands/daedalus.go:969-974 | appends one wall to the stack |
| PrimMazes.KeySymmetric | commands/daedalus.go:1022-1034 | both sides of an inner edge get the same edge number |
| PrimMazes.KeyRange | commands/daedalus.go:1037-1048 | the edge numbers of inner edges lie below the count of inner edges `(w-1)*h + (h-1)*w` |
| PrimMazes.KeyInjective | commands/daedalus.go:1037-1048 | distinct inner edges get distinct numbers |
| PrimMazes.FreshSide | commands/daedalus.go:1037-1048 | a wall between two unvisited rooms has not been pushed yet, so every push is of a new edge |
| PrimMazes.VisitFrontier | commands/daedalus.go:1037-1048 | after a room is entered and its sides toward unvisited rooms are pushed, the pushed walls are still exactly those between a visited and an unvisited room or between two visited ones |
| PrimMazes.PushSides | commands/daedalus.go:1037-1048 | the pushes of a newly entered room add exactly its sides toward unvisited rooms of the grid, and the stack stays within its capacity |
| PrimMazes.SeenAround | commands/daedalus.go:1037-1048 | while carving, the four rooms the pushes test are visited exactly when they have been entered |
| PrimMazes.PrimVisit | commands/daedalus.go:1021-1051 | carving into an unvisited room opens exactly the popped edge, enters that room, and keeps the loop's invariant: open edges one fewer than entered rooms, each between two entered rooms |
| PrimMazes.PrimEnter | commands/daedalus.go:1021-1048 | the knock-down, the visit and the pushes: the popped edge becomes open, the room behind it entered, the invariant kept |
| PrimMazes.PrimOpen | commands/daedalus.go:1021-1035 | the knock-down and the visit: exactly the popped edge is added to the open edges and the room behind it to the entered rooms, which stay one more than the open edges, each open edge between two entered rooms |
| PrimMazes.ShuffleWalls | commands/daedalus.go:1049 | the shuffle of the unpopped walls keeps the loop's invariant |
| PrimMazes.PopState | commands/daedalus.go:1007-1019 | the popped wall is a side of an entered room towards a room of the grid, and the rest of the stack keeps the invariant |
| PrimMazes.PrimStep | commands/daedalus.go:1005-1053 | when the room behind the popped wall was entered before, the grid is unchanged; otherwise exactly that edge becomes open and that room is entered; the invariant is kept either way |
| PrimMazes.PrimMaze | commands/daedalus.go:976-1074 | a symmetric, closed maze; the visited rooms are the entered ones, the open edges number one fewer than them and each lies between two of them; the stack never exceeds its capacity; Icarus and the treasure are placed |
| PrimMazes.PrimCarve | commands/daedalus.go:980-1053 | the carve on a full grid: the visited rooms are the entered ones, one more than the open edges, each edge between two entered rooms |
| PrimMazes.PrimStart | commands/daedalus.go:980-1002 | a stack of capacity `EdgeCount(w, h)` holding the sides of the random first room towards rooms of the grid, shuffled; that room entered, no edge open |
| PrimMazes.NoEdges | commands/daedalus.go:893-917 | the one-room grid is the only grid without an inner edge |
| PrimMazes.PushAllEdges | commands/daedalus.go:897-917 | the two push loops leave exactly the right sides of all rooms but the last column, column by column, then the bottom sides of all rooms but the last row, filling the stack's capacity |
| PrimMazes.PushColumn | commands/daedalus.go:903-907 | one inner push loop appends side `d` of the first `rows` rooms of column `i`, top to bottom |
| PrimMazes.PushColumns | commands/daedalus.go:902-917 | either outer push loop appends side `d` of the first `rows` rooms of columns `0` to `n - 1`, column by column, `n * rows` walls in all |
| PrimMazes.InnerWallsOnce | commands/daedalus.go:897-917 | those walls hold every inner edge of the grid exactly once, as many as the stack's capacity |
| PrimMazes.RightDownStack | commands/daedalus.go:897-919 | after the shuffle the stack holds every inner edge exactly once, each pointing right or down |
| PrimMazes.RightDownStep | commands/daedalus.go:925-944 | when the room right of or below the popped wall was entered before, the grid is unchanged; otherwise exactly that edge becomes open and that room is entered; open edges stay one fewer than entered rooms, each leading into one |
| PrimMazes.RightDownVisit | commands/daedalus.go:935-944 | the carving branch opens exactly the popped edge and enters the room behind it, keeping the invariant |
| PrimMazes.RightDownGrows | commands/daedalus.go:935-944 | after the carve the invariant holds for one more entered room and one more open edge, every open edge still leading right or down into an entered room |
| PrimMazes.RightDownLoop | commands/daedalus.go:923-946 | the loop over the shuffled stack keeps the invariant from the first room on |
| PrimMazes.RightDownCarve | commands/daedalus.go:894-946 | the carve on a full grid faults exactly on the 1×1 grid; otherwise the visited rooms are the entered ones, one more than the open edges |
| PrimMazes.RightDownMaze | commands/daedalus.go:893-967 | a symmetric, closed maze; the one-room grid faults on the empty stack; otherwise the visited rooms are the entered ones, the open edges number one fewer than them and each leads right or down into one of them, and Icarus and the treasure are placed |
| CircleMazes.CircleBorder | commands/daedalus.go:1085-1109 | the ring layout walls the grid's perimeter |
| CircleMazes.CircleAgree | commands/daedalus.go:1085-1117 | the ring layout agrees on every inner edge |
| CircleMazes.OneGapPerRing | commands/daedalus.go:1111-1117 | each inner ring's top wall is open in exactly one room, the one drawn for it |
| CircleMazes.SideWalls | commands/daedalus.go:1085-1096 | the side-wall loop lays the left and right ring walls on both rooms of each edge |
| CircleMazes.TopBottomWalls | commands/daedalus.go:1098-1109 | the top/bottom loop lays the upper and lower ring walls on both rooms of each edge |
| CircleMazes.OpenRings | commands/daedalus.go:1111-1117 | one gap per inner ring, drawn in range, opened on both rooms of its edge |
| CircleMazes.CircleMaze | commands/daedalus.go:1077-1157 | the grid holds the ring layout with the drawn gaps; Icarus and the treasure are placed |
| Pairing.CoordsToInt | commands/icarus.go:466-481 | the accumulating loop computes the closed-form pairing `Key`, a natural number |
| Pairing.OriginKey | commands/icarus.go:466-481 | the origin is numbered 3 |
| Pairing.KeyInjective | commands/icarus.go:458-481 | two cells with the same number are the same cell |
| Virtual.ExtendVisited | commands/icarus.go:483-488 | an array of `size+200` entries; the old entries are copied to the front (as many as fit) and the rest are false |
| Virtual.ExtendVirtual | commands/icarus.go:490-495 | the same growth with empty cell records |
| Virtual.GrownKeeps | commands/icarus.go:490-495 | growing the map changes no recorded cell, and the cells marked visited stay exactly the same |
| Virtual.GrownTwice | commands/icarus.go:305-307 | growing the map twice is growing it once: the old entries kept, the new ones unwritten |
| Nearest.Nearest | commands/icarus.go:378-444 | if the path has reached the bound: a one-cell path with the bound; if its last cell is not in the map: the path itself; otherwise a success is shorter than the bound and extends the path by open, in-map steps through visited cells without repeating a cell, to an unvisited cell; a failure returns the bound |
| Nearest.Scan | commands/icarus.go:392-437 | the four-way loop keeps the best path so far: a result length below the bound is a `Found` path of that length |
| Nearest.CandidateFound | commands/icarus.go:409-434 | a neighbour passed by the guard, or a path found from it, is a `Found` answer for the shorter path |
| Nearest.NearestGrown | commands/icarus.go:378-444 | growing the map does not change the search's answer |
| Nearest.NearestUnvisited | commands/icarus.go:378-444 | the recursive search that writes into the shared path buffer returns the answer of `Nearest` on the buffer's prefix and leaves that prefix as it was |
| Nearest.TrySide | commands/icarus.go:405-436 | one side of the four-way loop updates the best path and length as `Scan` does |
| Nearest.Deeper | commands/icarus.go:419-434 | the recursive call on the extended buffer gives the candidate's answer |
| Nearest.OnPath | commands/icarus.go:411-417 | the repeat check finds the cell exactly when it already lies on the path |
| Icarus.Awake | commands/icarus.go:73-80 | the survey of the room Icarus wakes up in |
| Icarus.MoveTo | commands/icarus.go:448-457 | a move in direction 0 = up, 1 = right, 2 = down, 3 = left, as the server answers it: Icarus stays put exactly when the server refuses the move; the step count grows by one per accepted move; Victory exactly when the move reaches the treasure; otherwise the walls of the new room |
| Icarus.ScanOrder | commands/icarus.go:165-167 | from any starting direction `nr`, the turns `(nr+w)%4` for `w` = 0..3 try each direction exactly once |
| ClassicIcarus.FreeSide | commands/icarus.go:165-194 | the first turn whose side is open and whose cell is not marked, or 4 when there is none; every earlier side is blocked; growing the map adds no mark |
| ClassicIcarus.Grow | commands/icarus.go:191-193 | the growth loop makes the map long enough for the cell's number, adding and losing no mark |
| ClassicIcarus.Step | commands/icarus.go:156-236 | a forward move: the new cell is marked, the breadcrumbs grow by the neighbour in an unblocked direction, the old ones kept. A dead end: every direction is blocked, one breadcrumb is popped and no mark changes. Running out of breadcrumbs below: No path. Pushing past the end: a panic. Marks are never lost |
| ClassicIcarus.BacktrackerClassicIcarus | commands/icarus.go:133-239 | Solved only on the treasure; out of steps only after all `maxSteps` steps; a panic only when `maxSteps <= 3` or on the last step; at most one move per step |
| BacktrackerIcarus.AllBlocked | commands/icarus.go:279-328 | when all four turns are blocked, every direction is |
| BacktrackerIcarus.GrowVirtual | commands/icarus.go:305-307 | the growth loop makes the map long enough for the cell's number and keeps every known entry |
| BacktrackerIcarus.FreeSide | commands/icarus.go:279-307 | the first turn whose side is open and whose cell is not recorded as visited, or 4; earlier sides blocked; the map only grows |
| BacktrackerIcarus.TryTurn | commands/icarus.go:281-309 | a direction is free exactly when the survey shows no wall there and the cell behind it is not recorded as visited; the map grows to hold that cell |
| BacktrackerIcarus.Record | commands/icarus.go:363-364 | marks one entry visited with the observed walls, the others unchanged |
| BacktrackerIcarus.WalkStep | commands/icarus.go:344-369 | one step of the walk: at most one move; the target recorded as visited with the survey the move answered (the old survey when no move was tried, the all-open one when the move was refused or reached the treasure); no mark lost |
| BacktrackerIcarus.Walk | commands/icarus.go:343-371 | the walk ends on the treasure, or on the route's last cell with every route cell recorded as visited; the cell it ends on holds the survey it carries; at most one move per route step |
| BacktrackerIcarus.Forward | commands/icarus.go:309-325 | a forward move records the new cell as visited with its walls and pushes it; Solved on the treasure; a panic when the breadcrumbs are full |
| BacktrackerIcarus.MarkKeeps | commands/icarus.go:309-313 | recording a visit in a grown map loses no recorded visit |
| BacktrackerIcarus.Back | commands/icarus.go:329-373 | a dead end walks to the last cell of `Nearest` from the current cell with bound `max-steps`, which is unvisited, when that search found a path of length 2 or more below the bound; otherwise to `path[pathIndex-1]`, panicking when `pathIndex` is 0; the breadcrumbs are never changed |
| BacktrackerIcarus.Step | commands/icarus.go:266-373 | one step: a forward move that pushes a neighbour in an unblocked direction, or a dead-end walk with every direction blocked; Solved only on the treasure; no mark is lost; the explorer's cell stays recorded as visited with the walls it sees |
| BacktrackerIcarus.BacktrackerIcarus | commands/icarus.go:246-376 | Solved only on the treasure; never "No path"; out of steps only after all `maxSteps` steps; at most `maxSteps` moves per step |
| BacktrackerIcarus.Explore | commands/icarus.go:266-376 | the step loop: Solved only on the treasure; never "No path"; out of steps only after all `maxSteps` steps; at most `maxSteps` moves per step |

## Left out

- HTTP routing, handlers and transport (`RunServer`, `GetStartingPoint`, `MoveDirection`, `End`, `makeRequest`, `ToReply`, the request half of `Move`): network I/O. The explorers call the `Maze` model directly.
- `viper` configuration reads and the string dispatch of `createMaze` and `solveMaze`: plain parameter passing. Width, height, `max-steps` and the strategy are parameters.
- Console output (`MazeString`, `printResults`, the victory print in `LookAround`, `fmt.Println`) and `os.Exit`: I/O. An exit is an `Ending`.
- `rand.Seed` in `init` and in `shuffle`, and the clock they read: seeding. The draws are an oracle sequence.
- Package-level state (`currentMaze`, `scores`) and its unsafety under concurrent requests: the maze is an explicit object, and there is one caller.
- Daedalus.Maze.Icarus: the getter returns the `icarus` field, which the model reads directly.
- Daedalus.Maze.Width, Daedalus.Maze.Height: they only read the grid's dimensions, and `GetRoom`'s contract is stated in terms of them.
- Grid.PlaceIcarusAndTreasure: the source redraws forever while the two rooms coincide. With a finite oracle the model stops redrawing once the draws run out, and it promises distinct rooms only while draws remain.
- Pairing.CoordsToInt: Go's `int` is 64 bits wide; the model's integers are unbounded, so the wrap-around for coordinates of about 2^31 is not modelled.
- `math.Abs(float64(x))` and `math.Floor(float64(n/4))`: floating point. They are integer absolute value and integer division.
- Slices: the explorers' `visited`, `virtual` and `path` slices are values (`seq`) that the model reassigns. `nearestUnvisited`'s shared path buffer is an `array`. Two slices sharing a backing array are not modelled. `mapSize` is always the length of the map, so it is not a separate variable.
- PrimMazes.PrimMaze: the spanning-tree claim is proved as "the open edges of the grid number one fewer than the rooms entered, and each lies between two entered rooms", because each carve opens one edge from an entered room into a room not entered before. That the open edges connect all the entered rooms, and that every room of the grid ends up visited, is not stated.
- PrimMazes.RightDownMaze: each open edge leads right or down into an entered room, and the open edges number one fewer than the rooms entered. The near room of a popped wall is never tested, so the result can be disconnected and can leave rooms unvisited (a 2×2 grid whose draws are all 0 ends in two parts); no connectivity is claimed.
- BacktrackerMazes.BacktrackerMaze, PatternMazes.PatternMaze: the open edges are counted and their rooms named, but that they connect every room is not stated.
- The `start` field of `Maze` (commands/daedalus.go:36) is never written by the program and is not modelled.
- PatternMazes.PatternMaze: it runs ConnectTiles, the door loop with the intended guards (see Findings). The source's door loop as written indexes out of range on grids with a whole tile whose width or height is a multiple of 4; ConnectTilesAsWritten models that and proves when it happens, but the composite does not call it.
- Nearest.Nearest: the result is a valid simple path through visited cells to an unvisited cell, shorter than the bound. That it is the shortest such path, and that ties keep the first path found, is not stated.
- ClassicIcarus.BacktrackerClassicIcarus, BacktrackerIcarus.BacktrackerIcarus: the explorer's believed position is not proved to track the server's real position. A refused move still updates the believed position in the source.
- BacktrackerIcarus.Walk: it states the survey recorded for the cell it ends on. The earlier route cells are stated as visited but not with their surveys, because the believed coordinates are not tied to the server's rooms.
- BacktrackerIcarus.Walk: the source's `err` carries over from earlier moves when a route step does not move. Any earlier Victory has already ended the run, so the walk starts with no victory.

Source behaviours the model keeps as written:

- `backtrackerMaze` never marks its first room visited, so the carve can enter it again. Re-entering it through the passage it left by opens no new edge, and through another side closes a cycle, so the open edges number one fewer than the rooms or as many (BacktrackerMazes.ReEnterStart). The pattern maze's fill starts in the bottom right room without marking it visited either, so the same holds for its passages. The stack can overflow (1×2, 2×2) or underflow (1×1). Both faults are the `ok` = false outcome.
- `rightDownMaze` reads `wallStack[0]` from an empty stack on a 1×1 grid.
- `shuffle` draws `rand.Intn(i)`, not `rand.Intn(i+1)`, for the swap partner of entry `i`.
- The spiky mazes need at least 3×3 (horizontal) and 1×2 (vertical) rooms, and the circle maze needs `width > 2*(height/2-1)` for its draws. These are preconditions.
- `Discover` answers a room outside the grid with an all-open survey and no error.
- Both explorers store the start at `path[coordsToInt(0,0)]`, which is `path[3]`, so they panic when `max-steps <= 3`.
- Both explorers panic when a forward move pushes past the end of the breadcrumbs.
- The classic explorer's dead-end move ignores a Victory answer.
- The fallback of `backtrackerIcarus` walks to `path[pathIndex-1]` without decrementing `pathIndex`. A second dead end falls back to the same cell, and `pathIndex` 0 panics. Its breadcrumbs change only on forward moves, so it never reports "No path".

## Findings

| source | as written | input that shows it | evidently intended | confidence | as-written member | corrected member |
|---|---|---|---|---|---|---|
| commands/daedalus.go:839-848 | the door guards test `4*x+3 < xSize` and `4*y+3 < ySize`, which always hold inside the tile loops, and then write column `4*x+4` (row `4*y+4`) | a 4×4 grid: the single tile's right door writes column 4 of a 4-wide grid, an index out of range | guards `4*x+4 < xSize` and `4*y+4 < ySize`, so a door is made only where a room lies beyond the tile | not executed | PatternMazes.ConnectTilesAsWritten | PatternMazes.ConnectTiles |
