/** Rooms, passages and the shape of the depth-first carving of
    `MazeGenerator._dfs` (app.py), stated over values.  A room is written as
    `_dfs` keeps it in `visited`: the pair (x, y) = (column, row). */
module Carving {
  import opened Grid

  /** The four moves of `_dfs`, as (dx, dy) = (column step, row step):
      down, right, up and left.  They are shuffled before use, so their
      listed order does not matter. */
  const Directions: seq<(int, int)> := [(0, 2), (2, 0), (0, -2), (-2, 0)]

  /** One outcome of `random.shuffle(directions)`. */
  predicate IsShuffle(s: seq<(int, int)>) {
    |s| == 4 && multiset(s) == multiset(Directions)
  }

  /** (x, y) is a room of a maze of w by h rooms: odd, and strictly inside
      the outer ring. */
  predicate IsRoom(w: int, h: int, x: int, y: int) {
    0 < x < 2 * w && 0 < y < 2 * h && x % 2 == 1 && y % 2 == 1
  }

  ghost function Rooms(w: int, h: int): set<(int, int)> {
    set x, y | 0 < x < 2 * w && 0 < y < 2 * h && x % 2 == 1 && y % 2 == 1 :: (x, y)
  }

  /** The grid cell of a room. */
  function RoomCell(r: (int, int)): Pos {
    Pos(r.1, r.0)
  }

  /** A cell with exactly one odd coordinate, strictly inside the outer ring. */
  predicate IsPassage(w: int, h: int, p: Pos) {
    0 < p.row < 2 * h && 0 < p.col < 2 * w && (p.row + p.col) % 2 == 1
  }

  /** The two rooms a passage joins. */
  function PassageEnds(p: Pos): ((int, int), (int, int)) {
    if p.row % 2 == 1 then ((p.col - 1, p.row), (p.col + 1, p.row))
    else ((p.col, p.row - 1), (p.col, p.row + 1))
  }

  /** b is one `_dfs` move away from a. */
  predicate RoomStep(a: (int, int), b: (int, int)) {
    (a.1 == b.1 && (b.0 == a.0 + 2 || b.0 == a.0 - 2)) ||
    (a.0 == b.0 && (b.1 == a.1 + 2 || b.1 == a.1 - 2))
  }

  /** The passage cell between two rooms one move apart, as `_dfs` computes
      it: (y + dy // 2, x + dx // 2). */
  function Between(a: (int, int), b: (int, int)): (p: Pos)
    requires RoomStep(a, b) && a.0 % 2 == 1 && a.1 % 2 == 1
    ensures PassageEnds(p) == (a, b) || PassageEnds(p) == (b, a)
    ensures Adjacent(p, RoomCell(a)) && Adjacent(p, RoomCell(b))
  {
    Pos(a.1 + (b.1 - a.1) / 2, a.0 + (b.0 - a.0) / 2)
  }

  /** The room that move d leads to from r, if there is one, has been visited. */
  ghost predicate MoveTried(w: int, h: int, r: (int, int), d: (int, int), visited: set<(int, int)>) {
    IsRoom(w, h, r.0 + d.0, r.1 + d.1) ==> (r.0 + d.0, r.1 + d.1) in visited
  }

  /** Every room that one of `moves` leads to from r has been visited. */
  ghost predicate MovesTried(w: int, h: int, r: (int, int), moves: seq<(int, int)>, visited: set<(int, int)>) {
    forall d :: d in moves ==> MoveTried(w, h, r, d, visited)
  }

  /** Every room one move away from r has been visited. */
  ghost predicate Closed(w: int, h: int, r: (int, int), visited: set<(int, int)>) {
    MovesTried(w, h, r, Directions, visited)
  }

  /** Trying one more move. */
  lemma MovesTriedExtend(w: int, h: int, r: (int, int), moves: seq<(int, int)>, d: (int, int), visited: set<(int, int)>)
    requires MovesTried(w, h, r, moves, visited)
    requires MoveTried(w, h, r, d, visited)
    ensures MovesTried(w, h, r, moves + [d], visited)
  {
    forall e | e in moves + [d] ensures MoveTried(w, h, r, e, visited) {
      if e != d {
        assert e in moves;
      }
    }
  }

  /** Tried moves stay tried when more rooms are visited. */
  lemma MovesTriedGrow(w: int, h: int, r: (int, int), moves: seq<(int, int)>, visited1: set<(int, int)>, visited2: set<(int, int)>)
    requires MovesTried(w, h, r, moves, visited1) && visited1 <= visited2
    ensures MovesTried(w, h, r, moves, visited2)
  {
    forall d | d in moves ensures MoveTried(w, h, r, d, visited2) {
      assert MoveTried(w, h, r, d, visited1);
    }
  }

  /** Trying all the moves of a shuffle tries all four moves. */
  lemma ShuffleCloses(w: int, h: int, r: (int, int), s: seq<(int, int)>, visited: set<(int, int)>)
    requires IsShuffle(s) && MovesTried(w, h, r, s, visited)
    ensures Closed(w, h, r, visited)
  {
    forall d | d in Directions ensures MoveTried(w, h, r, d, visited) {
      assert d in multiset(Directions);
      assert d in s;
    }
  }

  /** Every room of `rooms` is closed in `visited`. */
  ghost predicate AllClosed(w: int, h: int, rooms: set<(int, int)>, visited: set<(int, int)>) {
    forall r {:trigger Closed(w, h, r, visited)} :: r in rooms ==> Closed(w, h, r, visited)
  }

  /** Closedness survives visiting more rooms. */
  lemma AllClosedJoin(w: int, h: int, rooms1: set<(int, int)>, visited1: set<(int, int)>,
                      rooms2: set<(int, int)>, visited2: set<(int, int)>)
    requires AllClosed(w, h, rooms1, visited1) && AllClosed(w, h, rooms2, visited2)
    requires visited1 <= visited2
    ensures AllClosed(w, h, rooms1 + rooms2, visited2)
  {
    forall r | r in rooms1 + rooms2 ensures Closed(w, h, r, visited2) {
      if r in rooms1 {
        assert Closed(w, h, r, visited1);
      }
    }
  }

  /** After the carving returns from a child of r: the moves of r tried so
      far stay tried, and the rooms entered since r are closed. */
  lemma ChildReturned(w: int, h: int, r: (int, int), moves: seq<(int, int)>,
                      visited0: set<(int, int)>, before: set<(int, int)>, after: set<(int, int)>)
    requires MovesTried(w, h, r, moves, before) && visited0 + {r} <= before <= after
    requires AllClosed(w, h, before - visited0 - {r}, before) && AllClosed(w, h, after - before, after)
    ensures MovesTried(w, h, r, moves, after)
    ensures AllClosed(w, h, after - visited0 - {r}, after)
  {
    MovesTriedGrow(w, h, r, moves, before, after);
    AllClosedJoin(w, h, before - visited0 - {r}, before, after - before, after);
    assert after - visited0 - {r} == (before - visited0 - {r}) + (after - before);
  }

  /** The count of rooms entered stays one above the count of passages
      opened across a child's carving. */
  lemma CountStep(visited0: int, carved0: int, visitedBefore: int, carvedBefore: int,
                  visitedAfter: int, carvedAfter: int)
    requires visitedBefore == visited0 + carvedBefore - carved0 + 1
    requires visitedAfter - visitedBefore == carvedAfter - carvedBefore
    ensures visitedAfter == visited0 + carvedAfter - carved0 + 1
  {
  }

  /** A set of rooms that holds room (1, 1) and is closed under moves holds
      every room: the depth-first carving reaches the whole maze. */
  lemma AllRoomsReached(w: int, h: int, visited: set<(int, int)>)
    requires (1, 1) in visited
    requires AllClosed(w, h, visited, visited)
    ensures forall x, y :: IsRoom(w, h, x, y) ==> (x, y) in visited
  {
    forall x, y | IsRoom(w, h, x, y) ensures (x, y) in visited {
      ColumnReached(w, h, visited, (x - 1) / 2, (y - 1) / 2);
    }
  }

  lemma {:induction false} RowReached(w: int, h: int, visited: set<(int, int)>, i: nat)
    requires (1, 1) in visited
    requires AllClosed(w, h, visited, visited)
    requires i < w && 0 < h
    ensures (2 * i + 1, 1) in visited
  {
    if i > 0 {
      RowReached(w, h, visited, i - 1);
      assert Closed(w, h, (2 * i - 1, 1), visited);
      assert (2, 0) in Directions;
    }
  }

  lemma {:induction false} ColumnReached(w: int, h: int, visited: set<(int, int)>, i: nat, j: nat)
    requires (1, 1) in visited
    requires AllClosed(w, h, visited, visited)
    requires i < w && j < h
    ensures (2 * i + 1, 2 * j + 1) in visited
  {
    if j == 0 {
      RowReached(w, h, visited, i);
    } else {
      ColumnReached(w, h, visited, i, j - 1);
      assert Closed(w, h, (2 * i + 1, 2 * j - 1), visited);
      assert (0, 2) in Directions;
    }
  }

  /** Room r was entered as number `order[r]`; unless it is room (1, 1), its
      parent is a visited room one move away entered before it, joined to it
      by a carved passage. */
  ghost predicate ParentLink(visited: set<(int, int)>, parent: map<(int, int), (int, int)>,
                             order: map<(int, int), nat>, carved: set<Pos>, r: (int, int)) {
    r in order &&
    (r == (1, 1) ||
     (r in parent && parent[r] in visited && parent[r] in order && order[parent[r]] < order[r] &&
      RoomStep(parent[r], r) && parent[r].0 % 2 == 1 && parent[r].1 % 2 == 1 &&
      Between(parent[r], r) in carved))
  }

  /** The tree of the carving: every visited room is linked to its parent. */
  ghost predicate ParentTree(visited: set<(int, int)>, parent: map<(int, int), (int, int)>,
                             order: map<(int, int), nat>, carved: set<Pos>) {
    forall r {:trigger ParentLink(visited, parent, order, carved, r)} :: r in visited ==>
      ParentLink(visited, parent, order, carved, r)
  }

  /** Every visited room is reachable from room (1, 1) through open cells. */
  lemma {:induction false} RoomReachable(open: set<Pos>, visited: set<(int, int)>, parent: map<(int, int), (int, int)>,
                                         order: map<(int, int), nat>, carved: set<Pos>, r: (int, int))
      returns (q: seq<Pos>)
    requires ParentTree(visited, parent, order, carved)
    requires forall v :: v in visited ==> RoomCell(v) in open
    requires carved <= open
    requires r in visited
    ensures IsWalk(open, q, Pos(1, 1), RoomCell(r))
    decreases if r in order then order[r] else 0
  {
    assert ParentLink(visited, parent, order, carved, r);
    if r == (1, 1) {
      q := [Pos(1, 1)];
    } else {
      var p := parent[r];
      var q1 := RoomReachable(open, visited, parent, order, carved, p);
      var mid := Between(p, r);
      var q2 := [RoomCell(p), mid, RoomCell(r)];
      assert Step(open, RoomCell(p), mid) && Step(open, mid, RoomCell(r));
      assert IsWalk(open, q2, RoomCell(p), RoomCell(r));
      WalkConcat(open, q1, q2, Pos(1, 1), RoomCell(p), RoomCell(r));
      q := q1 + q2[1..];
    }
  }

  /** Room r is a room, numbered below the count of visited rooms. */
  ghost predicate RoomNumbered(w: int, h: int, visited: set<(int, int)>, order: map<(int, int), nat>, r: (int, int)) {
    IsRoom(w, h, r.0, r.1) && r in order && order[r] < |visited|
  }

  /** Visited cells are rooms, numbered by the order they were entered in. */
  ghost predicate RoomsNumbered(w: int, h: int, visited: set<(int, int)>, order: map<(int, int), nat>) {
    forall r {:trigger RoomNumbered(w, h, visited, order, r)} :: r in visited ==> RoomNumbered(w, h, visited, order, r)
  }

  /** Cell p is a passage whose two rooms are in `rooms`. */
  ghost predicate PassageJoins(w: int, h: int, rooms: set<(int, int)>, p: Pos) {
    IsPassage(w, h, p) && PassageEnds(p).0 in rooms && PassageEnds(p).1 in rooms
  }

  /** Carved cells are passages whose two rooms are visited or in `pending`. */
  ghost predicate PassagesJoin(w: int, h: int, rooms: set<(int, int)>, carved: set<Pos>) {
    forall p {:trigger PassageJoins(w, h, rooms, p)} :: p in carved ==> PassageJoins(w, h, rooms, p)
  }

  /** The shape the carving keeps, with the rooms of `pending` about to be
      entered. */
  ghost predicate CarveShape(w: int, h: int, visited: set<(int, int)>, carved: set<Pos>,
                             parent: map<(int, int), (int, int)>, order: map<(int, int), nat>,
                             pending: set<(int, int)>) {
    RoomsNumbered(w, h, visited, order) && PassagesJoin(w, h, visited + pending, carved) &&
    ParentTree(visited, parent, order, carved)
  }

  /** Room r may be entered: it is room (1, 1), or its recorded parent is a
      visited room one move away, joined to it by a carved passage. */
  ghost predicate Enterable(visited: set<(int, int)>, carved: set<Pos>, parent: map<(int, int), (int, int)>, r: (int, int)) {
    r == (1, 1) ||
    (r in parent && parent[r] in visited && RoomStep(parent[r], r) &&
     parent[r].0 % 2 == 1 && parent[r].1 % 2 == 1 && Between(parent[r], r) in carved)
  }

  /** Entering one more room leaves fewer rooms to enter. */
  lemma RoomsShrink(w: int, h: int, visited: set<(int, int)>, visited': set<(int, int)>, r: (int, int))
    requires IsRoom(w, h, r.0, r.1) && r !in visited && visited + {r} <= visited'
    ensures Rooms(w, h) - visited' < Rooms(w, h) - visited
  {
    assert r in Rooms(w, h);
  }

  /** Entering the pending room r keeps the shape, with nothing pending. */
  lemma EnterKeepsShape(w: int, h: int, visited: set<(int, int)>, carved: set<Pos>,
                        parent: map<(int, int), (int, int)>, order: map<(int, int), nat>, r: (int, int))
    requires CarveShape(w, h, visited, carved, parent, order, {r})
    requires IsRoom(w, h, r.0, r.1) && r !in visited
    requires Enterable(visited, carved, parent, r)
    ensures CarveShape(w, h, visited + {r}, carved, parent, order[r := |visited|], {})
  {
    var visited', order' := visited + {r}, order[r := |visited|];
    forall v | v in visited' ensures RoomNumbered(w, h, visited', order', v) {
      if v != r {
        assert RoomNumbered(w, h, visited, order, v);
      }
    }
    forall c | c in carved ensures PassageJoins(w, h, visited' + {}, c) {
      assert PassageJoins(w, h, visited + {r}, c);
      assert visited' + {} == visited + {r};
    }
    forall v | v in visited' ensures ParentLink(visited', parent, order', carved, v) {
      if v != r {
        assert ParentLink(visited, parent, order, carved, v);
        assert RoomNumbered(w, h, visited, order, v);
        if v != (1, 1) {
          assert parent[v] in visited;
          assert RoomNumbered(w, h, visited, order, parent[v]);
        }
      } else if v != (1, 1) {
        assert parent[v] in visited;
        assert RoomNumbered(w, h, visited, order, parent[v]);
        assert ParentLink(visited, parent, order, carved, parent[v]);
      }
    }
  }

  /** Opening the passage from visited room a to unvisited room b, and
      recording a as b's parent, keeps the shape with b pending; the passage
      was not carved before. */
  lemma CarveKeepsShape(w: int, h: int, visited: set<(int, int)>, carved: set<Pos>,
                        parent: map<(int, int), (int, int)>, order: map<(int, int), nat>,
                        a: (int, int), b: (int, int))
    requires CarveShape(w, h, visited, carved, parent, order, {})
    requires a in visited && IsRoom(w, h, b.0, b.1) && b !in visited && RoomStep(a, b)
    ensures a.0 % 2 == 1 && a.1 % 2 == 1
    ensures Between(a, b) !in carved
    ensures CarveShape(w, h, visited, carved + {Between(a, b)}, parent[b := a], order, {b})
  {
    assert RoomNumbered(w, h, visited, order, a);
    assert visited + {} == visited;
    CarveKeepsPassages(w, h, visited, carved, a, b);
    CarveKeepsTree(visited, carved, parent, order, a, b);
  }

  lemma CarveKeepsPassages(w: int, h: int, visited: set<(int, int)>, carved: set<Pos>, a: (int, int), b: (int, int))
    requires PassagesJoin(w, h, visited, carved)
    requires IsRoom(w, h, a.0, a.1) && a in visited && IsRoom(w, h, b.0, b.1) && b !in visited && RoomStep(a, b)
    ensures Between(a, b) !in carved
    ensures PassagesJoin(w, h, visited + {b}, carved + {Between(a, b)})
  {
    var p := Between(a, b);
    assert p in carved ==> PassageJoins(w, h, visited, p);
    forall c | c in carved + {p} ensures PassageJoins(w, h, visited + {b}, c) {
      if c != p {
        assert PassageJoins(w, h, visited, c);
      } else {
        BetweenIsPassage(w, h, a, b);
      }
    }
  }

  lemma CarveKeepsTree(visited: set<(int, int)>, carved: set<Pos>,
                       parent: map<(int, int), (int, int)>, order: map<(int, int), nat>,
                       a: (int, int), b: (int, int))
    requires ParentTree(visited, parent, order, carved)
    requires a.0 % 2 == 1 && a.1 % 2 == 1 && b !in visited && RoomStep(a, b)
    ensures ParentTree(visited, parent[b := a], order, carved + {Between(a, b)})
  {
    forall v | v in visited ensures ParentLink(visited, parent[b := a], order, carved + {Between(a, b)}, v) {
      assert ParentLink(visited, parent, order, carved, v);
      assert v != b;
    }
  }

  lemma BetweenIsPassage(w: int, h: int, a: (int, int), b: (int, int))
    requires IsRoom(w, h, a.0, a.1) && IsRoom(w, h, b.0, b.1) && RoomStep(a, b)
    ensures IsPassage(w, h, Between(a, b))
  {
    if b.0 == a.0 + 2 {
      assert Between(a, b) == Pos(a.1, a.0 + 1);
    } else if b.0 == a.0 - 2 {
      assert Between(a, b) == Pos(a.1, a.0 - 1);
    } else if b.1 == a.1 + 2 {
      assert Between(a, b) == Pos(a.1 + 1, a.0);
    } else {
      assert Between(a, b) == Pos(a.1 - 1, a.0);
    }
  }

  /** Every element of a shuffle is one of the four moves. */
  lemma ShuffleMember(s: seq<(int, int)>, k: int)
    requires IsShuffle(s) && 0 <= k < 4
    ensures s[k] in Directions
  {
    assert s[k] in multiset(s);
  }

  /** A move from a room that stays strictly inside the outer ring lands on
      a room one move away, and `_dfs` opens the passage between the two. */
  lemma MoveTarget(w: int, h: int, x: int, y: int, d: (int, int))
    requires IsRoom(w, h, x, y) && d in Directions
    requires 0 < x + d.0 < 2 * w && 0 < y + d.1 < 2 * h
    ensures IsRoom(w, h, x + d.0, y + d.1)
    ensures RoomStep((x, y), (x + d.0, y + d.1))
    ensures Between((x, y), (x + d.0, y + d.1)) == Pos(y + d.1 / 2, x + d.0 / 2)
  {
    if d == (0, 2) || d == (0, -2) {
      assert (y + d.1) % 2 == 1;
    } else {
      assert (x + d.0) % 2 == 1;
    }
  }

  lemma TakeSnoc(s: seq<(int, int)>, k: int)
    requires 0 <= k < |s|
    ensures s[..k + 1] == s[..k] + [s[k]]
  {
  }
}
