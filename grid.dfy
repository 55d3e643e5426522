/** The maze grid of `MazeGenerator` (app.py): a (2H+1) x (2W+1) array of
    cells, each a wall or open, addressed by (row, col).  Rooms sit at odd row
    and odd column, passages have exactly one odd coordinate, and the cells
    with two even coordinates are wall junctions. */
module Grid {

  datatype Pos = Pos(row: int, col: int)

  /** numpy's 1.0 (wall) and 0.0 (open). */
  datatype Cell = Wall | Open

  /** The two positions differ by one step along exactly one axis. */
  predicate Adjacent(a: Pos, b: Pos) {
    (a.row == b.row && (a.col - b.col == 1 || b.col - a.col == 1)) ||
    (a.col == b.col && (a.row - b.row == 1 || b.row - a.row == 1))
  }

  predicate InGrid(g: array2<Cell>, p: Pos) {
    0 <= p.row < g.Length0 && 0 <= p.col < g.Length1
  }

  predicate IsOpenAt(g: array2<Cell>, p: Pos)
    reads g
  {
    InGrid(g, p) && g[p.row, p.col] == Open
  }

  /** Every position of the grid. */
  ghost function GridCells(g: array2<Cell>): set<Pos> {
    set i, j | 0 <= i < g.Length0 && 0 <= j < g.Length1 :: Pos(i, j)
  }

  /** The open positions of the grid, as a value that outlives later writes. */
  ghost function OpenCells(g: array2<Cell>): (r: set<Pos>)
    reads g
    ensures forall p :: p in r <==> IsOpenAt(g, p)
    ensures r <= GridCells(g)
  {
    set i, j | 0 <= i < g.Length0 && 0 <= j < g.Length1 && g[i, j] == Open :: Pos(i, j)
  }

  /** One move of the search: onto an open cell next to the current one. */
  ghost predicate Step(open: set<Pos>, a: Pos, b: Pos) {
    b in open && Adjacent(a, b)
  }

  /** A 4-connected walk from s to t whose every move enters an open cell;
      s itself need not be open, as the search never inspects it. */
  ghost predicate IsWalk(open: set<Pos>, q: seq<Pos>, s: Pos, t: Pos) {
    |q| > 0 && q[0] == s && q[|q| - 1] == t &&
    forall i :: 0 <= i < |q| - 1 ==> Step(open, q[i], q[i + 1])
  }

  ghost predicate Reachable(open: set<Pos>, s: Pos, t: Pos) {
    exists q :: IsWalk(open, q, s, t)
  }

  ghost predicate NoRepeats(q: seq<Pos>) {
    forall i, j :: 0 <= i < j < |q| ==> q[i] != q[j]
  }

  /** A walk from s to t that repeats no cell and that no walk from s to t
      undercuts: its length minus one is the breadth-first distance. */
  ghost predicate IsShortestWalk(open: set<Pos>, q: seq<Pos>, s: Pos, t: Pos) {
    IsWalk(open, q, s, t) && NoRepeats(q) &&
    forall q' :: IsWalk(open, q', s, t) ==> |q| <= |q'|
  }

  function Abs(x: int): nat {
    if x < 0 then -x else x
  }

  /** `_heuristic`: the Manhattan distance between two positions. */
  function Heuristic(a: Pos, b: Pos): (r: nat)
    ensures r == 0 <==> a == b
    ensures Adjacent(a, b) ==> r == 1
  {
    Abs(a.row - b.row) + Abs(a.col - b.col)
  }

  /** The heuristic is consistent: one move changes it by at most one. */
  lemma HeuristicConsistent(goal: Pos, a: Pos, b: Pos)
    requires Adjacent(a, b)
    ensures Heuristic(goal, a) <= Heuristic(goal, b) + 1
    ensures Heuristic(goal, b) <= Heuristic(goal, a) + 1
  {
  }

  /** The heuristic is admissible: it never exceeds the number of moves of
      any walk to the goal. */
  lemma {:induction false} HeuristicAdmissible(open: set<Pos>, q: seq<Pos>, s: Pos, t: Pos)
    requires IsWalk(open, q, s, t)
    ensures Heuristic(t, s) <= |q| - 1
    decreases |q|
  {
    if |q| > 1 {
      var rest := q[1..];
      assert IsWalk(open, rest, q[1], t) by {
        forall i | 0 <= i < |rest| - 1 ensures Step(open, rest[i], rest[i + 1]) {
          assert Step(open, q[i + 1], q[i + 2]);
        }
      }
      HeuristicAdmissible(open, rest, q[1], t);
      assert Step(open, q[0], q[1]);
      HeuristicConsistent(t, q[0], q[1]);
    }
  }

  /** Two walks that meet join into one. */
  lemma WalkConcat(open: set<Pos>, q1: seq<Pos>, q2: seq<Pos>, s: Pos, m: Pos, t: Pos)
    requires IsWalk(open, q1, s, m) && IsWalk(open, q2, m, t)
    ensures IsWalk(open, q1 + q2[1..], s, t)
  {
    var q := q1 + q2[1..];
    forall i | 0 <= i < |q| - 1 ensures Step(open, q[i], q[i + 1]) {
      if i < |q1| - 1 {
        assert Step(open, q1[i], q1[i + 1]);
      } else {
        var k := i - |q1| + 1;
        assert q[i] == q2[k] && q[i + 1] == q2[k + 1];
        assert Step(open, q2[k], q2[k + 1]);
      }
    }
  }
}
