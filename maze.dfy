/** `MazeGenerator` (app.py): carves a perfect maze by randomised depth-first
    search, opens an entrance and a random choice of boundary exits, and finds
    a shortest path from the entrance to every exit with A*.

    `random.shuffle` and `random.sample` are inputs here: `shuffle(x, y)` is
    the order `random.shuffle` leaves the four moves in when room (x, y) is
    carved (each room is carved exactly once), and `sample(pool, k)` the
    positions of the pool that `random.sample` draws. */
module Maze {
  import opened Grid
  import opened Carving
  import opened Search

  /** One outcome of `random.sample` over a pool of n: k distinct positions. */
  predicate IsSelection(picks: seq<nat>, n: nat, k: nat) {
    |picks| == k &&
    (forall i :: 0 <= i < k ==> picks[i] < n) &&
    (forall i, j :: 0 <= i < j < k ==> picks[i] != picks[j])
  }

  function Min(a: int, b: int): int {
    if a <= b then a else b
  }

  /** The positions below n, in order. */
  function Iota(n: nat): (r: seq<nat>)
    ensures |r| == n && forall i :: 0 <= i < n ==> r[i] == i
  {
    seq(n, i => i)
  }

  /** The values a sequence takes. */
  ghost function Values(s: seq<nat>): set<nat> {
    set i | i in s
  }

  /** The values of a sequence without repeats are as many as its elements. */
  lemma {:induction false} DistinctSize(picks: seq<nat>)
    requires forall i, j :: 0 <= i < j < |picks| ==> picks[i] != picks[j]
    ensures |Values(picks)| == |picks|
  {
    if picks != [] {
      var init, last := picks[..|picks| - 1], picks[|picks| - 1];
      DistinctSize(init);
      assert last !in Values(init);
      assert Values(picks) == Values(init) + {last};
    }
  }

  /** Pigeonhole: a selection of n distinct positions below n picks every
      position. */
  lemma SelectionCovers(picks: seq<nat>, n: nat)
    requires IsSelection(picks, n, n)
    ensures forall i :: 0 <= i < n ==> i in picks
  {
    var picked, all := Values(picks), Values(Iota(n));
    DistinctSize(picks);
    DistinctSize(Iota(n));
    forall i | i in picked ensures i in all {
      assert Iota(n)[i] == i;
    }
    assert |all - picked| == 0;
    forall i | 0 <= i < n ensures i in picks {
      assert Iota(n)[i] == i;
      assert i in all;
    }
  }

  predicate OnPerimeter(g: array2<Cell>, p: Pos) {
    InGrid(g, p) && (p.row == 0 || p.row == g.Length0 - 1 || p.col == 0 || p.col == g.Length1 - 1)
  }

  /** The cell one step inward from a boundary cell. */
  function Inward(g: array2<Cell>, p: Pos): Pos {
    if p.col == 0 then Pos(p.row, 1)
    else if p.col == g.Length1 - 1 then Pos(p.row, g.Length1 - 2)
    else if p.row == 0 then Pos(1, p.col)
    else Pos(g.Length0 - 2, p.col)
  }

  /** A cell on the left or right edge at an odd row, not a corner. */
  predicate SideSlot(g: array2<Cell>, p: Pos) {
    (p.col == 0 || p.col == g.Length1 - 1) && 0 < p.row < g.Length0 - 1 && p.row % 2 == 1
  }

  /** A cell on the top or bottom edge at an odd column, not a corner. */
  predicate EndSlot(g: array2<Cell>, p: Pos) {
    (p.row == 0 || p.row == g.Length0 - 1) && 0 < p.col < g.Length1 - 1 && p.col % 2 == 1
  }

  /** A side slot whose inward neighbour is open. */
  ghost predicate SideExit(g: array2<Cell>, p: Pos)
    reads g
  {
    SideSlot(g, p) && IsOpenAt(g, Inward(g, p))
  }

  /** An end slot whose inward neighbour is open. */
  ghost predicate EndExit(g: array2<Cell>, p: Pos)
    reads g
  {
    EndSlot(g, p) && IsOpenAt(g, Inward(g, p))
  }

  /** The cell inward of a slot is a room of the maze, next to the slot, and
      the slot itself lies on the perimeter. */
  lemma SlotInward(g: array2<Cell>, w: nat, h: nat, p: Pos)
    requires g.Length0 == 2 * h + 1 && g.Length1 == 2 * w + 1 && w >= 1 && h >= 1
    requires SideSlot(g, p) || EndSlot(g, p)
    ensures IsRoom(w, h, Inward(g, p).col, Inward(g, p).row)
    ensures Adjacent(Inward(g, p), p) && OnPerimeter(g, p)
  {
  }

  /** A boundary cell `_generate_exits` may pick. */
  ghost predicate IsExitCandidate(g: array2<Cell>, p: Pos)
    reads g
  {
    SideExit(g, p) || EndExit(g, p)
  }

  /** A walk from the entrance (1, 0) to the cell of every visited room,
      through room (1, 1). */
  lemma EntranceReaches(open: set<Pos>, visited: set<(int, int)>, parent: map<(int, int), (int, int)>,
                        order: map<(int, int), nat>, carved: set<Pos>, r: (int, int)) returns (q: seq<Pos>)
    requires ParentTree(visited, parent, order, carved) && carved <= open
    requires forall v :: v in visited ==> RoomCell(v) in open
    requires (1, 1) in visited && r in visited
    ensures IsWalk(open, q, Pos(1, 0), RoomCell(r))
  {
    var q1 := RoomReachable(open, visited, parent, order, carved, r);
    assert RoomCell((1, 1)) in open;
    var q0 := [Pos(1, 0), Pos(1, 1)];
    assert IsWalk(open, q0, Pos(1, 0), Pos(1, 1));
    WalkConcat(open, q0, q1, Pos(1, 0), Pos(1, 1), RoomCell(r));
    q := q0 + q1[1..];
  }

  /** Extending a walk to an open neighbour of its end. */
  lemma WalkSnoc(open: set<Pos>, q: seq<Pos>, s: Pos, t: Pos, u: Pos)
    requires IsWalk(open, q, s, t) && Step(open, t, u)
    ensures IsWalk(open, q + [u], s, u)
  {
    WalkConcat(open, q, [t, u], s, t, u);
    assert [t, u][1..] == [u];
  }

  /** Once the carving has opened the rooms and passages, the entrance and the
      exits, every open cell can be reached from the entrance. */
  lemma OpenCellsReachable(g: array2<Cell>, w: int, h: int, open: set<Pos>, visited: set<(int, int)>,
                           parent: map<(int, int), (int, int)>, order: map<(int, int), nat>,
                           carved: set<Pos>, exits: seq<Pos>)
    requires ParentTree(visited, parent, order, carved) && PassagesJoin(w, h, visited, carved)
    requires (1, 1) in visited && carved <= open
    requires forall v :: v in visited ==> RoomCell(v) in open
    requires forall e :: e in exits ==> Adjacent(Inward(g, e), e) && (Inward(g, e).col, Inward(g, e).row) in visited
    requires forall p :: p in open ==> (p.col, p.row) in visited || p in carved || p == Pos(1, 0) || p in exits
    ensures forall p :: p in open ==> Reachable(open, Pos(1, 0), p)
  {
    forall p | p in open ensures Reachable(open, Pos(1, 0), p) {
      if (p.col, p.row) in visited {
        var q := EntranceReaches(open, visited, parent, order, carved, (p.col, p.row));
        assert IsWalk(open, q, Pos(1, 0), p);
      } else if p in carved {
        assert PassageJoins(w, h, visited, p);
        var r := PassageEnds(p).0;
        var q := EntranceReaches(open, visited, parent, order, carved, r);
        assert Step(open, RoomCell(r), p);
        WalkSnoc(open, q, Pos(1, 0), RoomCell(r), p);
      } else if p == Pos(1, 0) {
        assert IsWalk(open, [p], Pos(1, 0), p);
      } else {
        var r := (Inward(g, p).col, Inward(g, p).row);
        var q := EntranceReaches(open, visited, parent, order, carved, r);
        assert Step(open, RoomCell(r), p);
        WalkSnoc(open, q, Pos(1, 0), RoomCell(r), p);
      }
    }
  }

  class MazeGenerator {
    const width: nat
    const height: nat
    const numExits: int
    /** `maze[row, col]`, of shape (2 * height + 1, 2 * width + 1). */
    const maze: array2<Cell>
    const start: Pos
    /** Rooms carved so far, as (x, y) = (column, row). */
    var visited: set<(int, int)>
    var paths: seq<seq<Pos>>
    var exits: seq<Pos>
    /** The passages `_dfs` has opened, each room's predecessor in the
        traversal, and the order in which rooms were first entered. */
    ghost var carved: set<Pos>
    ghost var parent: map<(int, int), (int, int)>
    ghost var order: map<(int, int), nat>

    ghost predicate Valid() {
      maze.Length0 == 2 * height + 1 && maze.Length1 == 2 * width + 1 && start == Pos(1, 0)
    }

    ghost predicate AllRoomsOpen()
      reads maze
    {
      Valid() && forall x, y :: IsRoom(width, height, x, y) ==> maze[y, x] == Open
    }

    /** A cell is open exactly when it is a visited room or a carved passage. */
    ghost predicate MazeMatches()
      reads this, maze
    {
      forall i, j {:trigger maze[i, j]} :: 0 <= i < maze.Length0 && 0 <= j < maze.Length1 ==>
        (maze[i, j] == Open <==> (j, i) in visited || Pos(i, j) in carved)
    }

    /** What the carving keeps, with the rooms in `pending` about to be entered. */
    ghost predicate CarveInv(pending: set<(int, int)>)
      reads this, maze
    {
      Valid() && CarveShape(width, height, visited, carved, parent, order, pending) && MazeMatches()
    }

    /** While carving, the open cells are rooms and passages: strictly inside
        the outer ring, with at least one odd coordinate, so the perimeter
        and the wall junctions stay closed. */
    lemma CarvedInside()
      requires CarveInv({})
      ensures forall i, j :: 0 <= i < maze.Length0 && 0 <= j < maze.Length1 && maze[i, j] == Open ==>
        0 < i < maze.Length0 - 1 && 0 < j < maze.Length1 - 1 && (i % 2 == 1 || j % 2 == 1)
    {
      forall i, j | 0 <= i < maze.Length0 && 0 <= j < maze.Length1 && maze[i, j] == Open
        ensures 0 < i < maze.Length0 - 1 && 0 < j < maze.Length1 - 1 && (i % 2 == 1 || j % 2 == 1)
      {
        assert MazeMatches();
        if (j, i) in visited {
          assert RoomNumbered(width, height, visited, order, (j, i));
        } else {
          assert Pos(i, j) in carved;
          assert PassageJoins(width, height, visited + {}, Pos(i, j));
        }
      }
    }

    /** `__init__`: an all-wall grid, no rooms visited, no exits, no paths. */
    constructor (width: nat, height: nat, numExits: int)
      ensures Valid()
      ensures this.width == width && this.height == height && this.numExits == numExits
      ensures fresh(maze)
      ensures forall i, j :: 0 <= i < maze.Length0 && 0 <= j < maze.Length1 ==> maze[i, j] == Wall
      ensures visited == {} && paths == [] && exits == [] && carved == {}
      ensures parent == map[] && order == map[]
    {
      this.width := width;
      this.height := height;
      this.numExits := numExits;
      maze := new Cell[2 * height + 1, 2 * width + 1]((i, j) => Wall);
      visited := {};
      paths := [];
      start := Pos(1, 0);
      exits := [];
      carved := {};
      parent := map[];
      order := map[];
    }

    /** Opens the passage from the visited room a to the unvisited room b
        and records a as b's parent, leaving b pending. */
    method OpenPassage(a: (int, int), b: (int, int))
      requires Valid() && CarveShape(width, height, visited, carved, parent, order, {}) && MazeMatches()
      requires a in visited && IsRoom(width, height, b.0, b.1) && b !in visited && RoomStep(a, b)
      modifies this`carved, this`parent, maze
      ensures a.0 % 2 == 1 && a.1 % 2 == 1
      ensures carved == old(carved) + {Between(a, b)} && |carved| == |old(carved)| + 1
      ensures parent == old(parent)[b := a]
      ensures CarveInv({b}) && Enterable(visited, carved, parent, b)
    {
      CarveKeepsShape(width, height, visited, carved, parent, order, a, b);
      var p := Between(a, b);
      maze[p.row, p.col] := Open;
      carved := carved + {p};
      parent := parent[b := a];
    }

    /** The first two steps of `_dfs(x, y)`: marks room (x, y) visited and
        opens its cell. */
    method EnterRoom(x: int, y: int)
      requires CarveInv({(x, y)})
      requires IsRoom(width, height, x, y) && (x, y) !in visited
      requires Enterable(visited, carved, parent, (x, y))
      modifies this`visited, this`order, maze
      ensures visited == old(visited) + {(x, y)}
      ensures order == old(order)[(x, y) := |old(visited)|]
      ensures CarveInv({})
    {
      EnterKeepsShape(width, height, visited, carved, parent, order, (x, y));
      order := order[(x, y) := |visited|];
      visited := visited + {(x, y)};
      maze[y, x] := Open;
    }

    /** `generate_maze` on a fresh generator: carves from room (1, 1), opens
        the entrance, then draws and opens the exits.  A maze without rooms
        fails inside `_dfs`, right after room (1, 1) is marked visited; a
        negative exit count fails inside `_generate_exits`, after the carving
        and the entrance.  Afterwards every room is open, the passages are one
        fewer than the rooms, every open cell can be reached from the
        entrance, and the open boundary cells are the entrance and the exits. */
    method GenerateMaze(shuffle: (int, int) -> seq<(int, int)>, sample: (seq<Pos>, int) -> seq<nat>)
      returns (ok: bool)
      requires Valid() && visited == {} && carved == {} && parent == map[] && order == map[]
      requires forall i, j :: 0 <= i < maze.Length0 && 0 <= j < maze.Length1 ==> maze[i, j] == Wall
      requires forall a, b :: IsShuffle(shuffle(a, b))
      requires forall pool, k :: 0 <= k <= |pool| ==> IsSelection(sample(pool, k), |pool|, k)
      modifies this`visited, this`carved, this`parent, this`order, this`exits, maze
      ensures ok <==> width >= 1 && height >= 1 && numExits >= 0
      ensures !ok ==> exits == old(exits)
      ensures width == 0 || height == 0 ==> visited == {(1, 1)} && unchanged(maze)
      ensures width >= 1 && height >= 1 ==>
        (forall x, y :: (x, y) in visited <==> IsRoom(width, height, x, y)) &&
        AllRoomsOpen() && |carved| + 1 == |visited|
      ensures width >= 1 && height >= 1 ==>
        forall p :: IsOpenAt(maze, p) ==> Reachable(OpenCells(maze), start, p)
      ensures width >= 1 && height >= 1 ==>
        PassagesJoin(width, height, visited, carved) &&
        forall i, j :: 0 <= i < maze.Length0 && 0 <= j < maze.Length1 ==>
          (maze[i, j] == Open <==> (j, i) in visited || Pos(i, j) in carved || Pos(i, j) == start || (ok && Pos(i, j) in exits))
      ensures width >= 1 && height >= 1 ==>
        forall p :: OnPerimeter(maze, p) ==> (IsOpenAt(maze, p) <==> p == start || (ok && p in exits))
      ensures width >= 1 && height >= 1 ==>
        forall i, j :: 0 <= i < maze.Length0 && 0 <= j < maze.Length1 && i % 2 == 0 && j % 2 == 0 ==> maze[i, j] == Wall
      ensures ok ==>
        NoRepeats(exits) && |exits| == Min(numExits, 2 * width + 2 * height) &&
        forall e :: e in exits ==> OnPerimeter(maze, e) && Reachable(OpenCells(maze), start, e)
    {
      if width == 0 || height == 0 {
        visited := visited + {(1, 1)};
        return false;
      }
      Dfs(1, 1, shuffle);
      assert visited - {} == visited;
      AllRoomsReached(width, height, visited);
      assert forall x, y :: (x, y) in visited ==> RoomNumbered(width, height, visited, order, (x, y));
      assert AllRoomsOpen() by {
        forall x, y | IsRoom(width, height, x, y) ensures maze[y, x] == Open {
          assert (x, y) in visited;
          assert MazeMatches();
        }
      }
      maze[start.row, start.col] := Open;
      assert AllRoomsOpen();
      ghost var pool;
      ok, pool := GenerateExits(sample);
      Connected(ok);
    }

    /** What `generate_maze` leaves, from what its steps promise. */
    lemma Connected(ok: bool)
      requires Valid() && width >= 1 && height >= 1
      requires CarveShape(width, height, visited, carved, parent, order, {})
      requires forall x, y :: (x, y) in visited <==> IsRoom(width, height, x, y)
      requires forall i, j :: 0 <= i < maze.Length0 && 0 <= j < maze.Length1 ==>
        (maze[i, j] == Open <==> (j, i) in visited || Pos(i, j) in carved || Pos(i, j) == start || (ok && Pos(i, j) in exits))
      requires ok ==> forall e :: e in exits ==> SideSlot(maze, e) || EndSlot(maze, e)
      ensures AllRoomsOpen()
      ensures forall p :: IsOpenAt(maze, p) ==> Reachable(OpenCells(maze), start, p)
      ensures forall p :: OnPerimeter(maze, p) ==> (IsOpenAt(maze, p) <==> p == start || (ok && p in exits))
      ensures forall i, j :: 0 <= i < maze.Length0 && 0 <= j < maze.Length1 && i % 2 == 0 && j % 2 == 0 ==> maze[i, j] == Wall
      ensures ok ==> forall e :: e in exits ==> OnPerimeter(maze, e) && Reachable(OpenCells(maze), start, e)
    {
      assert visited + {} == visited;
      var open := OpenCells(maze);
      var shown := if ok then exits else [];
      forall v | v in visited ensures RoomCell(v) in open {
        assert RoomNumbered(width, height, visited, order, v);
        assert maze[v.1, v.0] == Open;
      }
      forall p | p in carved ensures p in open {
        assert PassageJoins(width, height, visited, p);
        assert maze[p.row, p.col] == Open;
      }
      forall e | e in shown ensures Adjacent(Inward(maze, e), e) && (Inward(maze, e).col, Inward(maze, e).row) in visited {
        SlotInward(maze, width, height, e);
      }
      OpenCellsReachable(maze, width, height, open, visited, parent, order, carved, shown);
      forall p | OnPerimeter(maze, p) ensures IsOpenAt(maze, p) <==> p == start || (ok && p in exits) {
        assert p in carved ==> PassageJoins(width, height, visited, p);
      }
      forall i, j | 0 <= i < maze.Length0 && 0 <= j < maze.Length1 && i % 2 == 0 && j % 2 == 0
        ensures maze[i, j] == Wall
      {
        assert Pos(i, j) in carved ==> PassageJoins(width, height, visited, Pos(i, j));
        assert ok && Pos(i, j) in exits ==> SideSlot(maze, Pos(i, j)) || EndSlot(maze, Pos(i, j));
      }
      forall e | ok && e in exits ensures OnPerimeter(maze, e) && Reachable(open, start, e) {
        SlotInward(maze, width, height, e);
        assert e in open;
      }
    }
    /** `_dfs(x, y)`: carves room (x, y), then, in the shuffled order, every
        neighbouring room not yet visited together with the passage to it. */
    method Dfs(x: int, y: int, shuffle: (int, int) -> seq<(int, int)>)
      requires CarveInv({(x, y)})
      requires forall a, b :: IsShuffle(shuffle(a, b))
      requires IsRoom(width, height, x, y) && (x, y) !in visited
      requires Enterable(visited, carved, parent, (x, y))
      modifies this`visited, this`carved, this`parent, this`order, maze
      decreases Rooms(width, height) - visited, 0
      ensures CarveInv({})
      ensures old(visited) + {(x, y)} <= visited && old(carved) <= carved
      ensures |visited| == |old(visited)| + |carved| - |old(carved)| + 1
      ensures AllClosed(width, height, visited - old(visited), visited)
    {
      EnterRoom(x, y);
      var directions := shuffle(x, y);
      var k := 0;
      while k < 4
        invariant 0 <= k <= 4
        invariant Valid()
        invariant CarveShape(width, height, visited, carved, parent, order, {})
        invariant MazeMatches()
        invariant old(visited) + {(x, y)} <= visited && old(carved) <= carved
        invariant |visited| == |old(visited)| + |carved| - |old(carved)| + 1
        invariant AllClosed(width, height, visited - old(visited) - {(x, y)}, visited)
        invariant MovesTried(width, height, (x, y), directions[..k], visited)
      {
        ShuffleMember(directions, k);
        ghost var before, carvedBefore := visited, carved;
        RoomsShrink(width, height, old(visited), visited, (x, y));
        TryMove(x, y, directions[k], shuffle);
        CountStep(|old(visited)|, |old(carved)|, |before|, |carvedBefore|, |visited|, |carved|);
        ChildReturned(width, height, (x, y), directions[..k], old(visited), before, visited);
        MovesTriedExtend(width, height, (x, y), directions[..k], directions[k], visited);
        TakeSnoc(directions, k);
        k := k + 1;
      }
      assert directions[..4] == directions;
      ShuffleCloses(width, height, (x, y), directions, visited);
      AllClosedJoin(width, height, visited - old(visited) - {(x, y)}, visited, {(x, y)}, visited);
      assert visited - old(visited) == (visited - old(visited) - {(x, y)}) + {(x, y)};
    }

    /** One pass of the loop of `_dfs` over the moves: if the move d from
        room (x, y) stays strictly inside the outer ring and lands on a room
        not yet visited, opens the passage to it and carves from there. */
    method TryMove(x: int, y: int, d: (int, int), shuffle: (int, int) -> seq<(int, int)>)
      requires Valid() && CarveShape(width, height, visited, carved, parent, order, {}) && MazeMatches()
      requires forall a, b :: IsShuffle(shuffle(a, b))
      requires IsRoom(width, height, x, y) && (x, y) in visited && d in Directions
      modifies this`visited, this`carved, this`parent, this`order, maze
      decreases Rooms(width, height) - visited, 1
      ensures Valid() && CarveShape(width, height, visited, carved, parent, order, {}) && MazeMatches()
      ensures old(visited) <= visited && old(carved) <= carved
      ensures |visited| - |old(visited)| == |carved| - |old(carved)|
      ensures AllClosed(width, height, visited - old(visited), visited)
      ensures MoveTried(width, height, (x, y), d, visited)
    {
      var nx, ny := x + d.0, y + d.1;
      if 0 < nx < maze.Length1 - 1 && 0 < ny < maze.Length0 - 1 && (nx, ny) !in visited {
        MoveTarget(width, height, x, y, d);
        OpenPassage((x, y), (nx, ny));
        Dfs(nx, ny, shuffle);
      }
    }
  
    /** `_get_neighbors(pos)`: the in-grid open cells one step right, down,
        left and up of pos, in that order. */
    method GetNeighbors(pos: Pos) returns (neighbors: seq<Pos>)
      ensures forall q :: q in neighbors <==> Step(OpenCells(maze), pos, q)
      ensures NoRepeats(neighbors)
    {
      var directions := [(0, 1), (1, 0), (0, -1), (-1, 0)];
      neighbors := [];
      var k := 0;
      while k < 4
        invariant 0 <= k <= 4
        invariant forall q :: q in neighbors <==>
          IsOpenAt(maze, q) && exists i :: 0 <= i < k && q == Pos(pos.row + directions[i].0, pos.col + directions[i].1)
        invariant NoRepeats(neighbors)
      {
        var next := Pos(pos.row + directions[k].0, pos.col + directions[k].1);
        if 0 <= next.row < maze.Length0 && 0 <= next.col < maze.Length1 && maze[next.row, next.col] == Open {
          assert next !in neighbors;
          neighbors := neighbors + [next];
        }
        k := k + 1;
      }
      forall q ensures q in neighbors <==> Step(OpenCells(maze), pos, q) {
        if Adjacent(pos, q) {
          if q.row == pos.row && q.col == pos.col + 1 {
            assert q == Pos(pos.row + directions[0].0, pos.col + directions[0].1);
          } else if q.row == pos.row + 1 {
            assert q == Pos(pos.row + directions[1].0, pos.col + directions[1].1);
          } else if q.row == pos.row {
            assert q == Pos(pos.row + directions[2].0, pos.col + directions[2].1);
          } else {
            assert q == Pos(pos.row + directions[3].0, pos.col + directions[3].1);
          }
        }
      }
    }

    /** `find_all_paths`: runs the search from the entrance to every exit in
        turn and keeps the paths it finds.  `found` lists, in increasing
        order, the exits those paths lead to: exactly the reachable ones. */
    method FindAllPaths() returns (ghost found: seq<nat>)
      modifies this`paths
      ensures |paths| == |found| <= |exits|
      ensures forall k :: 0 <= k < |found| ==>
        found[k] < |exits| && IsShortestWalk(OpenCells(maze), paths[k], start, exits[found[k]])
      ensures forall k, l :: 0 <= k < l < |found| ==> found[k] < found[l]
      ensures forall i :: 0 <= i < |exits| ==> (i in found <==> Reachable(OpenCells(maze), start, exits[i]))
    {
      paths := [];
      found := [];
      var i := 0;
      while i < |exits|
        invariant 0 <= i <= |exits| && |paths| == |found| <= i
        invariant forall k :: 0 <= k < |found| ==>
          found[k] < i && IsShortestWalk(OpenCells(maze), paths[k], start, exits[found[k]])
        invariant forall k, l :: 0 <= k < l < |found| ==> found[k] < found[l]
        invariant forall j :: 0 <= j < i ==> (j in found <==> Reachable(OpenCells(maze), start, exits[j]))
      {
        var path := AStar(start, exits[i]);
        if path.Some? {
          paths := paths + [path.value];
          found := found + [i];
        }
        i := i + 1;
      }
    }

    /** `_astar(start, goal)`: A* over the open cells with unit moves and the
        Manhattan heuristic.  Returns None exactly when no walk over open
        cells leads from start to goal, and otherwise a shortest such walk. */
    method AStar(start: Pos, goal: Pos) returns (path: Option<seq<Pos>>)
      ensures path.None? <==> !Reachable(OpenCells(maze), start, goal)
      ensures path.Some? ==> IsShortestWalk(OpenCells(maze), path.value, start, goal)
    {
      ghost var open := OpenCells(maze);
      var frontier := [Entry(0, start)];
      var cameFrom: map<Pos, Option<Pos>> := map[start := None];
      var cost: map<Pos, nat> := map[start := 0];
      ghost var popped := false;
      while |frontier| > 0
        invariant TreeInv(open, start, cost, cameFrom)
        invariant FrontierInv(cost, frontier)
        invariant OpenOrSettled(open, goal, cost, frontier, None)
        invariant cost.Keys <= GridCells(maze) + {start}
        invariant !popped
        decreases (GridCells(maze) + {start}) - cost.Keys, Budget(cost), |frontier|
      {
        ghost var frontier0 := frontier;
        var e, rest := PopMin(frontier);
        assert |multiset(rest)| + 1 == |multiset(frontier)|;
        var current := e.pos;
        if current == goal {
          forall q | IsWalk(open, q, start, goal) ensures goal in cost && cost[goal] <= |q| - 1 {
            CostIsOptimal(open, start, goal, cost, frontier, q);
          }
          popped := true;
          break;
        }
        PopKeepsOthers(open, goal, cost, frontier, e, rest);
        frontier := rest;
        var neighbors := GetNeighbors(current);
        ghost var cost0 := cost;
        cost, cameFrom, frontier := Expand(open, start, goal, current, neighbors, cost, cameFrom, frontier);
        assert cost.Keys <= GridCells(maze) + {start};
        assert |rest| < |frontier0|;
        MeasureDrops(GridCells(maze) + {start}, cost0, cost, |frontier0|, |frontier|);
      }
      if !popped {
        forall q | IsWalk(open, q, start, goal) ensures goal in cost && cost[goal] <= |q| - 1 {
          CostIsOptimal(open, start, goal, cost, frontier, q);
        }
      }
      assert CostBounded(open, start, goal, cost);
      if goal !in cameFrom {
        return None;
      }
      var walk := WalkBack(open, start, goal, cost, cameFrom);
      path := Some(walk);
    }

    /** The collection loops of `_generate_exits`: every boundary cell at an
        odd row or column whose inward room is open, each once, the left
        and right edges first.  When every room is open there is one on
        each side of every row and every column of rooms. */
    method ExitCandidates() returns (pool: seq<Pos>)
      requires Valid() && width >= 1 && height >= 1
      ensures forall p :: p in pool <==> IsExitCandidate(maze, p)
      ensures NoRepeats(pool)
      ensures AllRoomsOpen() ==> |pool| == 2 * width + 2 * height
      ensures IsOpenAt(maze, Pos(1, 1)) ==> start in pool
    {
      var sides := SideCandidates();
      var ends := EndCandidates();
      pool := sides + ends;
      forall i, j | 0 <= i < j < |pool| ensures pool[i] != pool[j] {
        if i < |sides| && |sides| <= j {
          assert SideExit(maze, pool[i]) && EndExit(maze, pool[j]);
        }
      }
    }

    /** The loop of `_generate_exits` over the rows of rooms: the right then
        the left edge cell of each row whose end room is open. */
    method SideCandidates() returns (pool: seq<Pos>)
      requires Valid() && width >= 1 && height >= 1
      ensures forall p :: p in pool <==> SideExit(maze, p)
      ensures NoRepeats(pool)
      ensures AllRoomsOpen() ==> |pool| == 2 * height
    {
      pool := [];
      var y := 1;
      while y < maze.Length0 - 1
        invariant 1 <= y <= maze.Length0 && y % 2 == 1
        invariant forall p :: p in pool <==> SideExit(maze, p) && p.row < y
        invariant NoRepeats(pool)
        invariant AllRoomsOpen() ==> |pool| == y - 1
      {
        if maze[y, maze.Length1 - 2] == Open {
          assert Pos(y, maze.Length1 - 1) !in pool;
          pool := pool + [Pos(y, maze.Length1 - 1)];
        }
        if maze[y, 1] == Open {
          assert Pos(y, 0) !in pool;
          pool := pool + [Pos(y, 0)];
        }
        assert AllRoomsOpen() ==> IsRoom(width, height, maze.Length1 - 2, y) && IsRoom(width, height, 1, y);
        y := y + 2;
      }
    }

    /** The loop of `_generate_exits` over the columns of rooms: the bottom
        then the top edge cell of each column whose end room is open. */
    method EndCandidates() returns (pool: seq<Pos>)
      requires Valid() && width >= 1 && height >= 1
      ensures forall p :: p in pool <==> EndExit(maze, p)
      ensures NoRepeats(pool)
      ensures AllRoomsOpen() ==> |pool| == 2 * width
    {
      pool := [];
      var x := 1;
      while x < maze.Length1 - 1
        invariant 1 <= x <= maze.Length1 && x % 2 == 1
        invariant forall p :: p in pool <==> EndExit(maze, p) && p.col < x
        invariant NoRepeats(pool)
        invariant AllRoomsOpen() ==> |pool| == x - 1
      {
        if maze[maze.Length0 - 2, x] == Open {
          assert Pos(maze.Length0 - 1, x) !in pool;
          pool := pool + [Pos(maze.Length0 - 1, x)];
        }
        if maze[1, x] == Open {
          assert Pos(0, x) !in pool;
          pool := pool + [Pos(0, x)];
        }
        assert AllRoomsOpen() ==> IsRoom(width, height, x, maze.Length0 - 2) && IsRoom(width, height, x, 1);
        x := x + 2;
      }
    }

    /** `_generate_exits`: draws min(numExits, number of candidates) distinct
        candidates and opens them.  A negative numExits makes the draw fail
        (`random.sample` rejects a negative size); then nothing changes. */
    method GenerateExits(sample: (seq<Pos>, int) -> seq<nat>) returns (ok: bool, ghost pool: seq<Pos>)
      requires Valid() && width >= 1 && height >= 1
      requires forall pool, k :: 0 <= k <= |pool| ==> IsSelection(sample(pool, k), |pool|, k)
      modifies this`exits, maze
      ensures ok <==> numExits >= 0
      ensures NoRepeats(pool) && forall p :: p in pool <==> old(IsExitCandidate(maze, p))
      ensures old(AllRoomsOpen()) ==> |pool| == 2 * width + 2 * height
      ensures ok ==> |exits| == Min(numExits, |pool|)
      ensures !ok ==> exits == old(exits) && unchanged(maze)
      ensures ok ==> NoRepeats(exits) && forall e :: e in exits ==> old(IsExitCandidate(maze, e))
      ensures ok ==>
        |exits| == numExits ||
        (|exits| < numExits && forall p :: old(IsExitCandidate(maze, p)) ==> p in exits)
      ensures forall i, j :: 0 <= i < maze.Length0 && 0 <= j < maze.Length1 ==>
        (maze[i, j] == Open <==> old(maze[i, j]) == Open || (ok && Pos(i, j) in exits))
    {
      var candidates := ExitCandidates();
      pool := candidates;
      var k := Min(numExits, |candidates|);
      if k < 0 {
        ok := false;
        return;
      }
      var picks := sample(candidates, k);
      var chosen := seq(k, i requires 0 <= i < k => candidates[picks[i]]);
      exits := chosen;
      forall i, j | 0 <= i < j < k ensures exits[i] != exits[j] {
        assert candidates[picks[i]] != candidates[picks[j]];
      }
      forall e | e in exits ensures old(IsExitCandidate(maze, e)) && InGrid(maze, e) {
        var i :| 0 <= i < k && exits[i] == e;
        assert candidates[picks[i]] in candidates;
      }
      if k < numExits {
        SelectionCovers(picks, |candidates|);
        forall p | old(IsExitCandidate(maze, p)) ensures p in exits {
          assert IsExitCandidate(maze, p);
          var m :| 0 <= m < |candidates| && candidates[m] == p;
          assert m in picks;
          var i :| 0 <= i < k && picks[i] == m;
          assert exits[i] == p;
        }
      }
      OpenExits();
      ok := true;
    }

    /** The carving loop of `_generate_exits`: opens every exit cell. */
    method OpenExits()
      requires forall e :: e in exits ==> InGrid(maze, e)
      modifies maze
      ensures forall i, j :: 0 <= i < maze.Length0 && 0 <= j < maze.Length1 ==>
        (maze[i, j] == Open <==> old(maze[i, j]) == Open || Pos(i, j) in exits)
    {
      var k := 0;
      while k < |exits|
        invariant 0 <= k <= |exits|
        invariant forall i, j :: 0 <= i < maze.Length0 && 0 <= j < maze.Length1 ==>
          (maze[i, j] == Open <==> old(maze[i, j]) == Open || Pos(i, j) in exits[..k])
      {
        var e := exits[k];
        assert e in exits;
        maze[e.row, e.col] := Open;
        k := k + 1;
      }
      assert exits[..k] == exits;
    }
  }
}
