/** The pieces of the A* search of `MazeGenerator._astar` (app.py) that do
    not touch the maze object: the heap frontier, the bookkeeping invariants
    over `came_from` and `cost_so_far`, and the optimality argument. */
module Search {
  import opened Grid

  /** A heap entry `(priority, (row, col))`. */
  datatype Entry = Entry(priority: int, pos: Pos)

  /** Python's tuple order on heap entries: by priority, then row, then column. */
  predicate EntryLeq(a: Entry, b: Entry) {
    a.priority < b.priority ||
    (a.priority == b.priority &&
     (a.pos.row < b.pos.row || (a.pos.row == b.pos.row && a.pos.col <= b.pos.col)))
  }

  /** `heappop`: removes and returns the least entry of the frontier.  The heap
      layout is not modelled; the frontier is kept as a sequence. */
  method PopMin(frontier: seq<Entry>) returns (e: Entry, rest: seq<Entry>)
    requires |frontier| > 0
    ensures e in frontier
    ensures forall f :: f in frontier ==> EntryLeq(e, f)
    ensures multiset(rest) + multiset{e} == multiset(frontier)
  {
    var m := 0;
    var i := 1;
    while i < |frontier|
      invariant 0 <= m < i <= |frontier|
      invariant forall k :: 0 <= k < i ==> EntryLeq(frontier[m], frontier[k])
    {
      if !EntryLeq(frontier[m], frontier[i]) {
        m := i;
      }
      i := i + 1;
    }
    e := frontier[m];
    rest := frontier[..m] + frontier[m + 1..];
    assert frontier == frontier[..m] + [e] + frontier[m + 1..];
  }

  /** Every neighbour of u already has a cost at most one above u's: u has
      been expanded with its present cost. */
  ghost predicate Settled(open: set<Pos>, cost: map<Pos, nat>, u: Pos)
    requires u in cost
  {
    forall w :: Step(open, u, w) ==> w in cost && cost[w] <= cost[u] + 1
  }

  /** u waits on the heap under a priority no higher than its present cost
      and the heuristic give it. */
  ghost predicate Waiting(goal: Pos, cost: map<Pos, nat>, frontier: seq<Entry>, u: Pos)
    requires u in cost
  {
    exists p :: p <= cost[u] + Heuristic(goal, u) && Entry(p, u) in frontier
  }

  /** `came_from` and `cost_so_far` share their keys; start has cost 0 and
      no predecessor; every other key was reached by a step from a key of
      strictly lower cost. */
  ghost predicate TreeInv(open: set<Pos>, start: Pos, cost: map<Pos, nat>, cameFrom: map<Pos, Option<Pos>>) {
    cameFrom.Keys == cost.Keys && start in cost && cost[start] == 0 && cameFrom[start] == None &&
    forall p {:trigger Linked(open, cost, cameFrom, p)} :: p in cameFrom && p != start ==> Linked(open, cost, cameFrom, p)
  }

  /** p's recorded predecessor is a key of strictly lower cost, one step away. */
  ghost predicate Linked(open: set<Pos>, cost: map<Pos, nat>, cameFrom: map<Pos, Option<Pos>>, p: Pos)
    requires p in cameFrom && cameFrom.Keys == cost.Keys
  {
    cameFrom[p].Some? && cameFrom[p].value in cost &&
    cost[cameFrom[p].value] < cost[p] && Step(open, cameFrom[p].value, p)
  }

  /** Every heap entry names a key, and its priority is no lower than the
      key's present cost. */
  ghost predicate FrontierInv(cost: map<Pos, nat>, frontier: seq<Entry>) {
    forall f {:trigger Queued(cost, f)} :: f in frontier ==> Queued(cost, f)
  }

  /** The entry names a key and its priority is no lower than the key's cost. */
  ghost predicate Queued(cost: map<Pos, nat>, f: Entry) {
    f.pos in cost && f.priority >= cost[f.pos]
  }

  /** Every key other than `except` is either waiting on the heap or settled. */
  ghost predicate OpenOrSettled(open: set<Pos>, goal: Pos, cost: map<Pos, nat>, frontier: seq<Entry>, except: Option<Pos>) {
    forall u {:trigger Known(open, goal, cost, frontier, u)} :: u in cost && Some(u) != except ==>
      Known(open, goal, cost, frontier, u)
  }

  /** The key u is waiting on the heap or settled. */
  ghost predicate Known(open: set<Pos>, goal: Pos, cost: map<Pos, nat>, frontier: seq<Entry>, u: Pos)
    requires u in cost
  {
    Waiting(goal, cost, frontier, u) || Settled(open, cost, u)
  }

  datatype Option<T> = None | Some(value: T)

  /** Along any walk from start, some cell is known with a cost no higher than
      its index on the walk, and is either the walk's last cell or waiting on
      the heap with that cost. */
  lemma {:induction false} FrontierWitness(open: set<Pos>, start: Pos, goal: Pos, cost: map<Pos, nat>,
                                           frontier: seq<Entry>, q: seq<Pos>, t: Pos) returns (j: nat)
    requires start in cost && cost[start] == 0
    requires OpenOrSettled(open, goal, cost, frontier, None)
    requires IsWalk(open, q, start, t)
    ensures j < |q| && q[j] in cost && cost[q[j]] <= j
    ensures j == |q| - 1 || Waiting(goal, cost, frontier, q[j])
    decreases |q|
  {
    if |q| == 1 {
      j := 0;
    } else {
      var p := q[..|q| - 1];
      assert IsWalk(open, p, start, p[|p| - 1]) by {
        forall i | 0 <= i < |p| - 1 ensures Step(open, p[i], p[i + 1]) {
          assert Step(open, q[i], q[i + 1]);
        }
      }
      j := FrontierWitness(open, start, goal, cost, frontier, p, p[|p| - 1]);
      if j == |p| - 1 && !Waiting(goal, cost, frontier, q[j]) {
        assert Known(open, goal, cost, frontier, q[j]);
        assert Step(open, q[j], q[j + 1]);
        j := |q| - 1;
      }
    }
  }

  /** Once every key is on the heap or settled, no walk from start to goal is
      shorter than the goal's cost, provided either the heap is empty or the
      goal has just been popped as the least entry. */
  lemma CostIsOptimal(open: set<Pos>, start: Pos, goal: Pos, cost: map<Pos, nat>,
                      frontier: seq<Entry>, q: seq<Pos>)
    requires start in cost && cost[start] == 0
    requires OpenOrSettled(open, goal, cost, frontier, None)
    requires FrontierInv(cost, frontier)
    requires IsWalk(open, q, start, goal)
    requires frontier == [] ||
             exists e :: e in frontier && e.pos == goal && forall f :: f in frontier ==> EntryLeq(e, f)
    ensures goal in cost && cost[goal] <= |q| - 1
  {
    var j := FrontierWitness(open, start, goal, cost, frontier, q, goal);
    if j < |q| - 1 {
      var e :| e in frontier && e.pos == goal && forall f :: f in frontier ==> EntryLeq(e, f);
      var suffix := q[j..];
      assert IsWalk(open, suffix, q[j], goal) by {
        forall i | 0 <= i < |suffix| - 1 ensures Step(open, suffix[i], suffix[i + 1]) {
          assert Step(open, q[j + i], q[j + i + 1]);
        }
      }
      HeuristicAdmissible(open, suffix, q[j], goal);
      assert Queued(cost, e);
      var p :| p <= cost[q[j]] + Heuristic(goal, q[j]) && Entry(p, q[j]) in frontier;
      assert EntryLeq(e, Entry(p, q[j]));
    }
  }

  /** No walk from start to goal is shorter than the goal's recorded cost. */
  ghost predicate CostBounded(open: set<Pos>, start: Pos, goal: Pos, cost: map<Pos, nat>) {
    forall q :: IsWalk(open, q, start, goal) ==> goal in cost && cost[goal] <= |q| - 1
  }

  /** Popping the least entry e keeps every other key waiting or settled. */
  lemma PopKeepsOthers(open: set<Pos>, goal: Pos, cost: map<Pos, nat>, frontier: seq<Entry>, e: Entry, rest: seq<Entry>)
    requires OpenOrSettled(open, goal, cost, frontier, None) && FrontierInv(cost, frontier)
    requires multiset(rest) + multiset{e} == multiset(frontier)
    ensures e.pos in cost
    ensures OpenOrSettled(open, goal, cost, rest, Some(e.pos)) && FrontierInv(cost, rest)
  {
    assert e in multiset(frontier);
    assert Queued(cost, e);
    forall f | f in rest ensures Queued(cost, f) {
      assert f in multiset(frontier);
    }
    forall u | u in cost && Some(u) != Some(e.pos)
      ensures Known(open, goal, cost, rest, u)
    {
      assert Known(open, goal, cost, frontier, u);
      if !Settled(open, cost, u) {
        var p :| p <= cost[u] + Heuristic(goal, u) && Entry(p, u) in frontier;
      assert Entry(p, u) in multiset(frontier);
      assert Entry(p, u) != e;
        assert Entry(p, u) in multiset(rest);
      }
    }
  }

  /** Lowering next's cost to one above current's through the step from
      current, recording current as its predecessor and pushing it with its
      new priority, keeps the invariants. */
  lemma Relax(open: set<Pos>, start: Pos, goal: Pos, cost: map<Pos, nat>, cameFrom: map<Pos, Option<Pos>>,
              frontier: seq<Entry>, current: Pos, next: Pos)
    requires TreeInv(open, start, cost, cameFrom) && FrontierInv(cost, frontier)
    requires OpenOrSettled(open, goal, cost, frontier, Some(current))
    requires current in cost && Step(open, current, next)
    requires next !in cost || cost[current] + 1 < cost[next]
    ensures next != start && next != current
    ensures TreeInv(open, start, cost[next := cost[current] + 1], cameFrom[next := Some(current)])
    ensures FrontierInv(cost[next := cost[current] + 1],
                        frontier + [Entry(cost[current] + 1 + Heuristic(goal, next), next)])
    ensures OpenOrSettled(open, goal, cost[next := cost[current] + 1],
                          frontier + [Entry(cost[current] + 1 + Heuristic(goal, next), next)], Some(current))
  {
    var c := cost[current] + 1;
    var cost', cameFrom' := cost[next := c], cameFrom[next := Some(current)];
    var frontier' := frontier + [Entry(c + Heuristic(goal, next), next)];
    forall p | p in cameFrom' && p != start ensures Linked(open, cost', cameFrom', p) {
      if p != next {
        assert Linked(open, cost, cameFrom, p);
      }
    }
    forall f | f in frontier' ensures Queued(cost', f) {
      if f in frontier {
        assert Queued(cost, f);
      }
    }
    forall u | u in cost' && Some(u) != Some(current) ensures Known(open, goal, cost', frontier', u) {
      if u == next {
        assert Entry(c + Heuristic(goal, next), next) in frontier';
      } else if Settled(open, cost, u) {
        forall w | Step(open, u, w) ensures w in cost' && cost'[w] <= cost'[u] + 1 {
          assert w in cost && cost[w] <= cost[u] + 1;
        }
      } else {
        assert Known(open, goal, cost, frontier, u);
        var p :| p <= cost[u] + Heuristic(goal, u) && Entry(p, u) in frontier;
        assert Entry(p, u) in frontier';
      }
    }
  }

  /** rev runs backwards along steps, with costs falling strictly. */
  ghost predicate BackChain(open: set<Pos>, cost: map<Pos, nat>, rev: seq<Pos>) {
    (forall k :: 0 <= k < |rev| ==> rev[k] in cost) &&
    (forall k, l :: 0 <= k < l < |rev| ==> cost[rev[l]] < cost[rev[k]]) &&
    (forall k :: 0 <= k < |rev| - 1 ==> Step(open, rev[k + 1], rev[k]))
  }

  /** A predecessor of lower cost, one step back, extends the chain. */
  lemma BackChainSnoc(open: set<Pos>, cost: map<Pos, nat>, rev: seq<Pos>, u: Pos)
    requires BackChain(open, cost, rev) && u in cost
    requires rev != [] ==> cost[u] < cost[rev[|rev| - 1]] && Step(open, u, rev[|rev| - 1])
    ensures BackChain(open, cost, rev + [u])
  {
    var rev' := rev + [u];
    forall k | 0 <= k < |rev'| - 1 ensures Step(open, rev'[k + 1], rev'[k]) {
      if k < |rev| - 1 {
        assert rev'[k] == rev[k] && rev'[k + 1] == rev[k + 1];
      }
    }
    forall k, l | 0 <= k < l < |rev'| ensures cost[rev'[l]] < cost[rev'[k]] {
      if l < |rev| {
        assert rev'[k] == rev[k] && rev'[l] == rev[l];
      } else if k < |rev| - 1 {
        assert cost[rev[|rev| - 1]] < cost[rev[k]];
      }
    }
  }

  /** The path reconstruction of `_astar`: follows `came_from` back from the
      goal to the start and reverses what it collected.  Costs fall strictly
      along the way back, so the path is a walk that repeats no cell and has
      at most the goal's cost in moves. */
  method WalkBack(ghost open: set<Pos>, start: Pos, goal: Pos, ghost cost: map<Pos, nat>,
                  cameFrom: map<Pos, Option<Pos>>) returns (path: seq<Pos>)
    requires TreeInv(open, start, cost, cameFrom) && goal in cameFrom
    ensures IsWalk(open, path, start, goal) && NoRepeats(path)
    ensures |path| <= cost[goal] + 1
  {
    var rev: seq<Pos> := [];
    var cur: Option<Pos> := Some(goal);
    while cur.Some?
      invariant BackChain(open, cost, rev)
      invariant cur.Some? ==> cur.value in cost
      invariant rev == [] ==> cur == Some(goal)
      invariant rev != [] ==> rev[0] == goal
      invariant rev != [] && cur.Some? ==>
        cost[cur.value] < cost[rev[|rev| - 1]] && Step(open, cur.value, rev[|rev| - 1])
      invariant cur.None? ==> rev != [] && rev[|rev| - 1] == start
      invariant |rev| + (if cur.Some? then cost[cur.value] + 1 else 0) <= cost[goal] + 1
      decreases if cur.Some? then cost[cur.value] + 1 else 0
    {
      var u := cur.value;
      assert u != start ==> Linked(open, cost, cameFrom, u);
      BackChainSnoc(open, cost, rev, u);
      rev := rev + [u];
      cur := cameFrom[u];
    }
    path := Reversed(rev);
    ReversedWalk(open, rev, cost, start, goal);
  }

  /** A sequence walked backwards from goal to start, with costs falling
      strictly along it, reverses into a walk that repeats no cell. */
  lemma ReversedWalk(open: set<Pos>, rev: seq<Pos>, cost: map<Pos, nat>, start: Pos, goal: Pos)
    requires rev != [] && rev[0] == goal && rev[|rev| - 1] == start
    requires BackChain(open, cost, rev)
    ensures IsWalk(open, Reversed(rev), start, goal) && NoRepeats(Reversed(rev))
  {
    var path := Reversed(rev);
    forall i | 0 <= i < |path| - 1 ensures Step(open, path[i], path[i + 1]) {
      assert Step(open, rev[|rev| - 2 - i + 1], rev[|rev| - 2 - i]);
    }
    forall i, j | 0 <= i < j < |path| ensures path[i] != path[j] {
      assert cost[rev[|rev| - 1 - i]] < cost[rev[|rev| - 1 - j]];
    }
  }

  /** w is known with a cost at most one above c. */
  ghost predicate WithinOne(cost: map<Pos, nat>, w: Pos, c: nat) {
    w in cost && cost[w] <= c + 1
  }

  /** What the loop over the neighbours of current keeps, after the first i
      of them: the search invariants with current left aside, current's cost
      as it was, each neighbour seen so far within one of it, new keys only
      among those neighbours, and progress unless nothing changed. */
  ghost predicate ExpandInv(open: set<Pos>, start: Pos, goal: Pos, current: Pos, neighbors: seq<Pos>, i: int,
                            cost0: map<Pos, nat>, frontier0: seq<Entry>,
                            cost: map<Pos, nat>, cameFrom: map<Pos, Option<Pos>>, frontier: seq<Entry>) {
    0 <= i <= |neighbors| &&
    TreeInv(open, start, cost, cameFrom) && FrontierInv(cost, frontier) &&
    OpenOrSettled(open, goal, cost, frontier, Some(current)) &&
    current in cost0 && current in cost && cost[current] == cost0[current] &&
    (forall j :: 0 <= j < i ==> WithinOne(cost, neighbors[j], cost0[current])) &&
    cost0.Keys <= cost.Keys && (forall p :: p in cost ==> p in cost0 || Step(open, current, p)) &&
    ((cost == cost0 && frontier == frontier0) || Progressed(cost0, cost))
  }

  /** The loop step that finds a cheaper way to neighbour i. */
  lemma ExpandRelax(open: set<Pos>, start: Pos, goal: Pos, current: Pos, neighbors: seq<Pos>, i: int,
                    cost0: map<Pos, nat>, frontier0: seq<Entry>,
                    cost: map<Pos, nat>, cameFrom: map<Pos, Option<Pos>>, frontier: seq<Entry>)
    requires ExpandInv(open, start, goal, current, neighbors, i, cost0, frontier0, cost, cameFrom, frontier)
    requires i < |neighbors| && Step(open, current, neighbors[i])
    requires neighbors[i] !in cost || cost[current] + 1 < cost[neighbors[i]]
    ensures ExpandInv(open, start, goal, current, neighbors, i + 1, cost0, frontier0,
                      cost[neighbors[i] := cost[current] + 1], cameFrom[neighbors[i] := Some(current)],
                      frontier + [Entry(cost[current] + 1 + Heuristic(goal, neighbors[i]), neighbors[i])])
  {
    var next, c := neighbors[i], cost[current] + 1;
    Relax(open, start, goal, cost, cameFrom, frontier, current, next);
    ProgressStep(cost0, cost, next, c);
    WithinOneUpdate(cost, neighbors, i, cost0[current], c);
  }

  lemma WithinOneUpdate(cost: map<Pos, nat>, neighbors: seq<Pos>, i: int, c0: nat, c: nat)
    requires 0 <= i < |neighbors| && c <= c0 + 1
    requires forall j :: 0 <= j < i ==> WithinOne(cost, neighbors[j], c0)
    ensures forall j :: 0 <= j < i + 1 ==> WithinOne(cost[neighbors[i] := c], neighbors[j], c0)
  {
    forall j | 0 <= j < i + 1 ensures WithinOne(cost[neighbors[i] := c], neighbors[j], c0) {
      if j < i {
        assert WithinOne(cost, neighbors[j], c0);
      }
    }
  }

  /** The loop step that finds no cheaper way to neighbour i. */
  lemma ExpandSkip(open: set<Pos>, start: Pos, goal: Pos, current: Pos, neighbors: seq<Pos>, i: int,
                   cost0: map<Pos, nat>, frontier0: seq<Entry>,
                   cost: map<Pos, nat>, cameFrom: map<Pos, Option<Pos>>, frontier: seq<Entry>)
    requires ExpandInv(open, start, goal, current, neighbors, i, cost0, frontier0, cost, cameFrom, frontier)
    requires i < |neighbors|
    requires !(neighbors[i] !in cost || cost[current] + 1 < cost[neighbors[i]])
    ensures ExpandInv(open, start, goal, current, neighbors, i + 1, cost0, frontier0, cost, cameFrom, frontier)
  {
    forall j | 0 <= j < i + 1 ensures WithinOne(cost, neighbors[j], cost0[current]) {
      if j < i {
        assert WithinOne(cost, neighbors[j], cost0[current]);
      }
    }
  }

  /** After the last neighbour, current is settled. */
  lemma ExpandDone(open: set<Pos>, start: Pos, goal: Pos, current: Pos, neighbors: seq<Pos>,
                   cost0: map<Pos, nat>, frontier0: seq<Entry>,
                   cost: map<Pos, nat>, cameFrom: map<Pos, Option<Pos>>, frontier: seq<Entry>)
    requires ExpandInv(open, start, goal, current, neighbors, |neighbors|, cost0, frontier0, cost, cameFrom, frontier)
    requires forall q :: Step(open, current, q) ==> q in neighbors
    ensures OpenOrSettled(open, goal, cost, frontier, None)
  {
    forall w | Step(open, current, w) ensures w in cost && cost[w] <= cost[current] + 1 {
      var j :| 0 <= j < |neighbors| && neighbors[j] == w;
      assert WithinOne(cost, neighbors[j], cost0[current]);
    }
    assert Settled(open, cost, current);
  }

  /** The loop of `_astar` over the neighbours of the popped cell: every
      neighbour reached more cheaply through current gets the lower cost,
      current as predecessor and a fresh heap entry.  Afterwards current is
      settled; new keys are neighbours of current; and unless a key was added
      or a cost lowered, the heap is as it was. */
  method Expand(ghost open: set<Pos>, start: Pos, goal: Pos, current: Pos, neighbors: seq<Pos>,
                cost0: map<Pos, nat>, cameFrom0: map<Pos, Option<Pos>>, frontier0: seq<Entry>)
    returns (cost: map<Pos, nat>, cameFrom: map<Pos, Option<Pos>>, frontier: seq<Entry>)
    requires TreeInv(open, start, cost0, cameFrom0) && FrontierInv(cost0, frontier0)
    requires OpenOrSettled(open, goal, cost0, frontier0, Some(current)) && current in cost0
    requires forall q :: q in neighbors <==> Step(open, current, q)
    ensures TreeInv(open, start, cost, cameFrom) && FrontierInv(cost, frontier)
    ensures OpenOrSettled(open, goal, cost, frontier, None)
    ensures cost0.Keys <= cost.Keys && forall p :: p in cost ==> p in cost0 || Step(open, current, p)
    ensures (cost == cost0 && frontier == frontier0) || Progressed(cost0, cost)
  {
    cost, cameFrom, frontier := cost0, cameFrom0, frontier0;
    var i := 0;
    while i < |neighbors|
      invariant ExpandInv(open, start, goal, current, neighbors, i, cost0, frontier0, cost, cameFrom, frontier)
    {
      var next := neighbors[i];
      var newCost := cost[current] + 1;
      if next !in cost || newCost < cost[next] {
        ExpandRelax(open, start, goal, current, neighbors, i, cost0, frontier0, cost, cameFrom, frontier);
        cost := cost[next := newCost];
        frontier := frontier + [Entry(newCost + Heuristic(goal, next), next)];
        cameFrom := cameFrom[next := Some(current)];
      } else {
        ExpandSkip(open, start, goal, current, neighbors, i, cost0, frontier0, cost, cameFrom, frontier);
      }
      i := i + 1;
    }
    ExpandDone(open, start, goal, current, neighbors, cost0, frontier0, cost, cameFrom, frontier);
  }

  /** The cost units still to spend: lowering a key's cost removes some. */
  ghost function Budget(cost: map<Pos, nat>): set<(Pos, int)> {
    set p, c | p in cost.Keys && 0 <= c < cost[p] :: (p, c)
  }

  /** Since cost0, keys have been added, or none has and some cost has been
      lowered. */
  ghost predicate Progressed(cost0: map<Pos, nat>, cost: map<Pos, nat>) {
    cost0.Keys < cost.Keys || (cost.Keys == cost0.Keys && Budget(cost) < Budget(cost0))
  }

  /** Adding a key, or lowering the cost of one, makes progress. */
  lemma ProgressStep(cost0: map<Pos, nat>, cost: map<Pos, nat>, p: Pos, v: nat)
    requires cost0.Keys <= cost.Keys && (cost == cost0 || Progressed(cost0, cost))
    requires p !in cost || v < cost[p]
    ensures Progressed(cost0, cost[p := v])
  {
    var cost' := cost[p := v];
    if p in cost {
      assert cost'.Keys == cost.Keys;
      assert (p, v) in Budget(cost) && (p, v) !in Budget(cost');
      assert Budget(cost') <= Budget(cost);
    } else {
      assert p in cost'.Keys - cost0.Keys;
    }
  }

  /** The measure under which the main loop of `_astar` terminates: the
      cells not yet known within area, then the cost units still to spend,
      then the size of the heap. */
  lemma MeasureDrops(area: set<Pos>, cost0: map<Pos, nat>, cost: map<Pos, nat>, n0: int, n: int)
    requires cost0.Keys <= cost.Keys <= area
    requires (cost == cost0 && n < n0) || Progressed(cost0, cost)
    ensures area - cost.Keys < area - cost0.Keys ||
      (area - cost.Keys == area - cost0.Keys &&
       (Budget(cost) < Budget(cost0) || (Budget(cost) == Budget(cost0) && n < n0)))
  {
    if cost0.Keys < cost.Keys {
      var p :| p in cost.Keys && p !in cost0.Keys;
      assert p in area - cost0.Keys && p !in area - cost.Keys;
    } else {
      assert cost.Keys == cost0.Keys;
      assert area - cost.Keys == area - cost0.Keys;
    }
  }

  function Reversed(s: seq<Pos>): (r: seq<Pos>)
    ensures |r| == |s|
    ensures forall k :: 0 <= k < |s| ==> r[k] == s[|s| - 1 - k]
  {
    if s == [] then [] else Reversed(s[1..]) + [s[0]]
  }
}
