/**
 * NodeGrid.cs, BreadthFirstSearch and DepthFirstSearch: a frontier of
 * nodes (a queue, or a stack) from which each step takes one node and, unless
 * it is the goal, claims its unclaimed traversable neighbours.
 */
module UnweightedSearch {
  import opened Wrappers
  import opened Nodes
  import opened Grid
  import opened SearchState
  import opened Directions

  /** A search changes no node's configuration and no CostToStart: only PathfindingNode. */
  ghost predicate OnlyPredecessorsChanged(g0: seq<Node>, g: seq<Node>) {
    |g| == |g0| && forall k | 0 <= k < |g| :: g[k] == g0[k].(pathfindingNode := g[k].pathfindingNode)
  }

  /**
   * The guard of a neighbour check: edge `d` of node n is connected and
   * leads to a traversable node with no predecessor that is not in the
   * frontier.
   */
  ghost predicate Claimable(g: seq<Node>, w: int, n: int, d: Direction, frontier: seq<nat>)
    requires 0 <= n < |g|
  {
    var t := Target(g[n], d, w);
    && t.Some? && 0 <= t.value < |g|
    && g[t.value].traversable && g[t.value].pathfindingNode == None && t.value !in frontier
  }

  /**
   * The loop invariant of both searches. `pending` is the node being
   * expanded and `todo` the directions it has yet to check.
   */
  ghost predicate Exploring(g0: seq<Node>, g: seq<Node>, w: int, start: int, goal: int,
                            frontier: seq<nat>, rank: seq<nat>, pending: int, todo: set<Direction>) {
    && OnlyPredecessorsChanged(g0, g)
    && WellLinked(g, w)
    && 0 <= start < |g| && 0 <= goal < |g|
    && (forall i | 0 <= i < |frontier| :: Reached(g, start, frontier[i]))
    && PredecessorForest(g, w, start, rank)
    && ClosedExcept(g, w, start, frontier, pending, todo)
    && (Reached(g, start, goal) ==> goal in frontier)
  }

  /** The search starts from a reset grid with only the start in the frontier. */
  lemma StartExploring(g: seq<Node>, w: int, start: int, goal: int)
    requires WellLinked(g, w) && Reset(g) && 0 <= start < |g| && 0 <= goal < |g|
    ensures Exploring(g, g, w, start, goal, [start], seq(|g|, k => 0), -1, {})
  {
  }

  /**
   * Taking node `frontier[i]` off the frontier (the front of a queue, the
   * top of a stack) leaves it pending with every direction to check.
   */
  lemma TakeKeepsExploring(g0: seq<Node>, g: seq<Node>, w: int, start: int, goal: int,
                           frontier: seq<nat>, rank: seq<nat>, i: int, todo: set<Direction>)
    requires Exploring(g0, g, w, start, goal, frontier, rank, -1, {})
    requires 0 <= i < |frontier| && frontier[i] != goal
    requires Left in todo && Right in todo && Up in todo && Down in todo
    ensures Reached(g, start, frontier[i])
    ensures Exploring(g0, g, w, start, goal, frontier[..i] + frontier[i + 1..], rank, frontier[i], todo)
  {
    var n := frontier[i];
    var rest := frontier[..i] + frontier[i + 1..];
    assert forall a :: a in frontier ==> a in rest || a == n by {
      forall a | a in frontier
        ensures a in rest || a == n
      {
        var j :| 0 <= j < |frontier| && frontier[j] == a;
        if j < i {
          assert rest[j] == a;
        } else if j > i {
          assert rest[j - 1] == a;
        }
      }
    }
    forall j | 0 <= j < |rest|
      ensures Reached(g, start, rest[j])
    {
      if j < i {
        assert rest[j] == frontier[j];
      } else {
        assert rest[j] == frontier[j + 1];
      }
    }
    forall a, d | 0 <= a < |g| && Reached(g, start, a) && a !in rest && !(a == n && d in todo)
      ensures Covered(g, w, start, a, d)
    {
      assert d == Left || d == Right || d == Up || d == Down;
    }
    assert goal in frontier ==> goal in rest;
  }

  /** The predecessor ranks after a neighbour check: a newly claimed node ranks one above its claimer. */
  ghost function RankAfterClaim(g: seq<Node>, w: int, start: int, n: int, d: Direction, frontier: seq<nat>, rank: seq<nat>): seq<nat>
    requires 0 <= n < |g| == |rank|
  {
    if Claimable(g, w, n, d, frontier) && Target(g[n], d, w).value != start then
      rank[Target(g[n], d, w).value := rank[n] + 1]
    else rank
  }

  /** Claiming node b changes no edge, keeps the grid well linked, and only adds reached nodes. */
  lemma ClaimKeepsLinks(g: seq<Node>, w: int, start: int, b: int, n: nat, g': seq<Node>)
    requires WellLinked(g, w) && 0 <= b < |g| && g' == g[b := g[b].(pathfindingNode := Some(n))]
    ensures WellLinked(g', w)
    ensures forall k, e | 0 <= k < |g| :: Target(g'[k], e, w) == Target(g[k], e, w)
    ensures forall k | 0 <= k < |g| :: Reached(g, start, k) ==> Reached(g', start, k)
  {
    forall k, e | 0 <= k < |g'|
      ensures Linked(g'[k], e, w, |g'|)
    {
      assert Linked(g[k], e, w, |g|);
    }
  }

  /** Claiming an unreached node b from a reached node n keeps the predecessor forest. */
  lemma ClaimKeepsForest(g: seq<Node>, w: int, start: int, rank: seq<nat>, n: nat, d: Direction, b: int, g': seq<Node>)
    requires WellLinked(g, w) && PredecessorForest(g, w, start, rank) && Reached(g, start, n)
    requires 0 <= n < |g| && Target(g[n], d, w) == Some(b) && 0 <= b < |g|
    requires g[b].traversable && g[b].pathfindingNode == None
    requires g' == g[b := g[b].(pathfindingNode := Some(n))]
    ensures PredecessorForest(g', w, start, if b != start then rank[b := rank[n] + 1] else rank)
  {
    var rank' := if b != start then rank[b := rank[n] + 1] else rank;
    ClaimKeepsLinks(g, w, start, b, n, g');
    forall k | 0 <= k < |g'| && k != start && g'[k].pathfindingNode.Some?
      ensures ClaimedBy(g', w, start, rank', k)
    {
      if k == b {
        assert Target(g'[n], d, w) == Some(b);
      } else {
        assert ClaimedBy(g, w, start, rank, k);
        var p := g[k].pathfindingNode.value;
        var e :| Target(g[p], e, w) == Some(k);
        assert Target(g'[p], e, w) == Some(k);
      }
    }
  }

  /** Claiming node b from the pending node n covers direction d of n and keeps every other covered edge covered. */
  lemma ClaimKeepsClosure(g: seq<Node>, w: int, start: int, frontier: seq<nat>, n: nat, d: Direction, todo: set<Direction>, b: int, g': seq<Node>)
    requires WellLinked(g, w) && ClosedExcept(g, w, start, frontier, n, todo)
    requires 0 <= n < |g| && Target(g[n], d, w) == Some(b) && 0 <= b < |g|
    requires g' == g[b := g[b].(pathfindingNode := Some(n))]
    ensures ClosedExcept(g', w, start, frontier + [b], n, todo - {d})
  {
    ClaimKeepsLinks(g, w, start, b, n, g');
    forall a, e | 0 <= a < |g'| && Reached(g', start, a) && a !in frontier + [b] && !(a == n && e in todo - {d})
      ensures Covered(g', w, start, a, e)
    {
      if a == n && e == d {
      } else {
        assert Covered(g, w, start, a, e);
      }
    }
  }

  /** A failed neighbour check leaves direction d of the pending node covered. */
  lemma UnclaimableIsCovered(g: seq<Node>, w: int, start: int, frontier: seq<nat>, n: int, d: Direction, todo: set<Direction>)
    requires WellLinked(g, w) && ClosedExcept(g, w, start, frontier, n, todo) && 0 <= n < |g|
    requires forall i | 0 <= i < |frontier| :: Reached(g, start, frontier[i])
    requires !Claimable(g, w, n, d, frontier)
    ensures ClosedExcept(g, w, start, frontier, n, todo - {d})
  {
    var t := Target(g[n], d, w);
    if t.Some? {
      assert Linked(g[n], d, w, |g|);
      if g[t.value].traversable && t.value in frontier {
        var i :| 0 <= i < |frontier| && frontier[i] == t.value;
        assert Reached(g, start, frontier[i]);
      }
    }
    assert Covered(g, w, start, n, d);
  }

  /**
   * A neighbour check of the pending node keeps the invariant, covers its
   * direction `d`, and lowers 2 * (unclaimed nodes) + (frontier size) or
   * keeps it.
   */
  lemma ClaimKeepsExploring(g0: seq<Node>, g: seq<Node>, w: int, start: int, goal: int,
                            frontier: seq<nat>, rank: seq<nat>, n: nat, d: Direction, todo: set<Direction>,
                            g': seq<Node>, frontier': seq<nat>)
    requires Exploring(g0, g, w, start, goal, frontier, rank, n, todo) && Reached(g, start, n)
    requires if Claimable(g, w, n, d, frontier) then
        var b := Target(g[n], d, w).value;
        frontier' == frontier + [b] && g' == g[b := g[b].(pathfindingNode := Some(n))]
      else
        frontier' == frontier && g' == g
    ensures Exploring(g0, g', w, start, goal, frontier', RankAfterClaim(g, w, start, n, d, frontier, rank), n, todo - {d})
    ensures 2 * CountUnclaimed(g') + |frontier'| <= 2 * CountUnclaimed(g) + |frontier|
  {
    if Claimable(g, w, n, d, frontier) {
      var b := Target(g[n], d, w).value;
      ClaimCountsDown(g, b, g'[b]);
      ClaimKeepsLinks(g, w, start, b, n, g');
      ClaimKeepsForest(g, w, start, rank, n, d, b, g');
      ClaimKeepsClosure(g, w, start, frontier, n, d, todo, b, g');
      ClaimKeepsFrontier(g, start, frontier, b, n, g');
      assert OnlyPredecessorsChanged(g0, g');
    } else {
      UnclaimableIsCovered(g, w, start, frontier, n, d, todo);
    }
  }

  /**
   * One neighbour check of both searches: when the guard holds, the node
   * joins the end of the frontier and n becomes its PathfindingNode;
   * otherwise nothing changes.
   */
  method CheckNeighbour(g: NodeGrid, n: nat, d: Direction, frontier: seq<nat>) returns (next: seq<nat>)
    requires n < |g.grid| && Linked(g.grid[n], d, g.width, |g.grid|)
    modifies g
    ensures g.width == old(g.width) && g.height == old(g.height)
    ensures if Claimable(old(g.grid), g.width, n, d, frontier) then
        var b := Target(old(g.grid)[n], d, g.width).value;
        next == frontier + [b] && g.grid == old(g.grid)[b := old(g.grid)[b].(pathfindingNode := Some(n))]
      else
        next == frontier && g.grid == old(g.grid)
  {
    var check := Edge(g.grid[n], d).value;
    next := frontier;
    if check.connected {
      var b := PointIndex(check, g.width);
      var checking := g.grid[b];
      if checking.traversable && checking.pathfindingNode == None && b !in frontier {
        next := frontier + [b];
        g.grid := g.grid[b := checking.(pathfindingNode := Some(n))];
      }
    }
  }

  /**
   * A neighbour check within a search: CheckNeighbour, which keeps the
   * search's invariant and covers direction `d` of n.
   */
  method ClaimNeighbour(g: NodeGrid, n: nat, d: Direction, frontier: seq<nat>,
                        ghost g0: seq<Node>, ghost start: nat, ghost goal: nat, ghost rank: seq<nat>, ghost todo: set<Direction>)
    returns (next: seq<nat>, ghost rank': seq<nat>)
    requires Exploring(g0, g.grid, g.width, start, goal, frontier, rank, n, todo) && Reached(g.grid, start, n)
    modifies g
    ensures g.width == old(g.width) && g.height == old(g.height)
    ensures Exploring(g0, g.grid, g.width, start, goal, next, rank', n, todo - {d}) && Reached(g.grid, start, n)
    ensures 2 * CountUnclaimed(g.grid) + |next| <= 2 * CountUnclaimed(old(g.grid)) + |frontier|
  {
    ghost var before := g.grid;
    rank' := RankAfterClaim(g.grid, g.width, start, n, d, frontier, rank);
    assert Linked(g.grid[n], d, g.width, |g.grid|);
    next := CheckNeighbour(g, n, d, frontier);
    ClaimKeepsExploring(g0, before, g.width, start, goal, frontier, rank, n, d, todo, g.grid, next);
  }

  /** After claiming b every node of the frontier, and b itself, is reached. */
  lemma ClaimKeepsFrontier(g: seq<Node>, start: int, frontier: seq<nat>, b: nat, n: nat, g': seq<Node>)
    requires forall i | 0 <= i < |frontier| :: Reached(g, start, frontier[i])
    requires b < |g| && g' == g[b := g[b].(pathfindingNode := Some(n))]
    ensures forall i | 0 <= i < |frontier + [b]| :: Reached(g', start, (frontier + [b])[i])
  {
    forall i | 0 <= i < |frontier + [b]|
      ensures Reached(g', start, (frontier + [b])[i])
    {
      if i < |frontier| {
        assert Reached(g, start, frontier[i]);
      }
    }
  }

  /** The goal taken off the frontier is reached, and the predecessors lead back to the start. */
  lemma GoalTaken(g0: seq<Node>, g: seq<Node>, w: int, start: int, goal: int, frontier: seq<nat>, rank: seq<nat>, i: int)
    requires Exploring(g0, g, w, start, goal, frontier, rank, -1, {})
    requires 0 <= i < |frontier| && frontier[i] == goal
    ensures PredecessorForest(g, w, start, rank) && Reached(g, start, goal)
    ensures OnlyPredecessorsChanged(g0, g)
  {
    assert Reached(g, start, frontier[i]);
  }

  /**
   * With the frontier empty the goal was never reached, and no walk from
   * the start leads to it.
   */
  lemma NoWalkToUnreached(g0: seq<Node>, g: seq<Node>, w: int, start: int, goal: int, rank: seq<nat>)
    requires Exploring(g0, g, w, start, goal, [], rank, -1, {})
    ensures OnlyPredecessorsChanged(g0, g) && !Reached(g, start, goal)
    ensures forall walk | OpenWalk(g, w, walk) && walk[0] == start :: walk[|walk| - 1] != goal
  {
    forall walk | OpenWalk(g, w, walk) && walk[0] == start
      ensures walk[|walk| - 1] != goal
    {
      ClosedBlocksWalks(g, w, start, walk);
    }
  }

  // ---------------------------------------------------------------- Breadth first layers

  /**
   * Edge `d` of node a, when it leads to a traversable node, leads to a
   * reached node ranked at most one above a.
   */
  ghost predicate RankCovered(g: seq<Node>, w: int, start: int, rank: seq<nat>, a: int, d: Direction)
    requires 0 <= a < |g| == |rank|
  {
    var t := Target(g[a], d, w);
    t.Some? ==>
      && 0 <= t.value < |g|
      && (g[t.value].traversable ==> Reached(g, start, t.value) && rank[t.value] <= rank[a] + 1)
  }

  /**
   * The layers breadth first search keeps, `level` being the rank of the
   * last node other than the start taken off the queue: the start ranks 0,
   * no reached node ranks above level + 1, the queued nodes other than the
   * start rank at least level and in queue order, and the edges of every
   * expanded node lead at most one rank up. The start counts as expanded
   * from its first dequeue on (`startDone`), also when a neighbour claims
   * it and it rejoins the queue; before that it is all the queue holds.
   */
  ghost predicate Layered(g: seq<Node>, w: int, start: int, frontier: seq<nat>, rank: seq<nat>, level: nat,
                          startDone: bool, pending: int, todo: set<Direction>) {
    && |rank| == |g| && 0 <= start < |g| && rank[start] == 0
    && (!startDone ==> frontier == [start] && level == 0)
    && (forall i | 0 <= i < |frontier| :: frontier[i] < |g|)
    && (forall k | Reached(g, start, k) :: rank[k] <= level + 1)
    && (forall i | 0 <= i < |frontier| && frontier[i] != start :: level <= rank[frontier[i]])
    && (forall i, j | 0 <= i < j < |frontier| && frontier[i] != start && frontier[j] != start ::
          rank[frontier[i]] <= rank[frontier[j]])
    && (forall a, d | 0 <= a < |g| && Reached(g, start, a) && (a !in frontier || (a == start && startDone))
                      && !(a == pending && d in todo) ::
          RankCovered(g, w, start, rank, a, d))
  }

  /** A reset grid with only the start queued is layered at level 0. */
  lemma StartLayered(g: seq<Node>, w: int, start: int)
    requires Reset(g) && 0 <= start < |g|
    ensures Layered(g, w, start, [start], seq(|g|, k => 0), 0, false, -1, {})
  {
  }

  /**
   * Taking the front node n off the queue: a node other than the start
   * raises the level to its rank and is pending with all four directions;
   * the start on its first dequeue is pending at level 0; the start taken
   * again has nothing pending, its edges being covered already.
   */
  lemma TakeKeepsLayers(g: seq<Node>, w: int, start: int, frontier: seq<nat>, rank: seq<nat>, level: nat, startDone: bool)
    requires Layered(g, w, start, frontier, rank, level, startDone, -1, {}) && frontier != []
    ensures var n := frontier[0];
      && (n != start ==> startDone)
      && (n == start && !startDone ==> level == 0)
      && Layered(g, w, start, frontier[1..], rank,
                 if n == start then level else rank[n], true,
                 if n == start && startDone then -1 else n,
                 if n == start && startDone then {} else {Left, Right, Up, Down})
  {
    var n := frontier[0];
    var rest := frontier[1..];
    var level' := if n == start then level else rank[n];
    var pending := if n == start && startDone then -1 else n;
    var todo: set<Direction> := if n == start && startDone then {} else {Left, Right, Up, Down};
    forall i | 0 <= i < |rest| && rest[i] != start
      ensures level' <= rank[rest[i]]
    {
      assert rest[i] == frontier[i + 1];
    }
    forall i, j | 0 <= i < j < |rest| && rest[i] != start && rest[j] != start
      ensures rank[rest[i]] <= rank[rest[j]]
    {
      assert rest[i] == frontier[i + 1] && rest[j] == frontier[j + 1];
    }
    forall i | 1 <= i < |frontier|
      ensures frontier[i] in rest
    {
      assert rest[i - 1] == frontier[i];
    }
    forall a, d | 0 <= a < |g| && Reached(g, start, a) && (a !in rest || a == start) && !(a == pending && d in todo)
      ensures RankCovered(g, w, start, rank, a, d)
    {
      assert d == Left || d == Right || d == Up || d == Down;
    }
  }

  /**
   * A neighbour check of node n keeps the layers: a claimed node other
   * than the start ranks one above n, at most level + 1, and joins the end
   * of the queue; n's edge `d` is then covered.
   */
  lemma ClaimKeepsLayers(g0: seq<Node>, g: seq<Node>, w: int, start: int, goal: int, frontier: seq<nat>, rank: seq<nat>,
                         todo: set<Direction>, level: nat, pending: int, todoL: set<Direction>,
                         n: nat, d: Direction, g': seq<Node>, frontier': seq<nat>)
    requires Exploring(g0, g, w, start, goal, frontier, rank, n, todo) && Reached(g, start, n)
    requires Layered(g, w, start, frontier, rank, level, true, pending, todoL)
    requires pending == n || (n == start && pending == -1 && todoL == {})
    requires n != start ==> rank[n] == level
    requires n == start && pending == n ==> level == 0
    requires if Claimable(g, w, n, d, frontier) then
        var b := Target(g[n], d, w).value;
        frontier' == frontier + [b] && g' == g[b := g[b].(pathfindingNode := Some(n))]
      else
        frontier' == frontier && g' == g
    ensures var rank' := RankAfterClaim(g, w, start, n, d, frontier, rank);
      Layered(g', w, start, frontier', rank', level, true, pending, todoL - {d}) && rank'[n] == rank[n]
  {
    if Claimable(g, w, n, d, frontier) {
      ClaimedInLayers(g, w, start, frontier, rank, level, pending, todoL, n, d);
    } else {
      UnclaimedInLayers(g, w, start, frontier, rank, level, pending, todoL, n, d);
    }
  }

  /** The claiming half of ClaimKeepsLayers. */
  lemma ClaimedInLayers(g: seq<Node>, w: int, start: int, frontier: seq<nat>, rank: seq<nat>,
                        level: nat, pending: int, todoL: set<Direction>, n: nat, d: Direction)
    requires WellLinked(g, w) && Reached(g, start, n) && forall i | 0 <= i < |frontier| :: Reached(g, start, frontier[i])
    requires Layered(g, w, start, frontier, rank, level, true, pending, todoL)
    requires pending == n || (n == start && pending == -1 && todoL == {})
    requires n != start ==> rank[n] == level
    requires n == start && pending == n ==> level == 0
    requires Claimable(g, w, n, d, frontier)
    ensures var b := Target(g[n], d, w).value;
      var g', rank' := g[b := g[b].(pathfindingNode := Some(n))], RankAfterClaim(g, w, start, n, d, frontier, rank);
      Layered(g', w, start, frontier + [b], rank', level, true, pending, todoL - {d}) && rank'[n] == rank[n]
  {
    var b := Target(g[n], d, w).value;
    var g', rank' := g[b := g[b].(pathfindingNode := Some(n))], RankAfterClaim(g, w, start, n, d, frontier, rank);
    var frontier' := frontier + [b];
    ClaimKeepsLinks(g, w, start, b, n, g');
    if b != start {
      assert n == start && pending == -1 ==> RankCovered(g, w, start, rank, n, d);
      forall i | 0 <= i < |frontier|
        ensures rank[frontier[i]] <= level + 1
      {
        assert Reached(g, start, frontier[i]);
      }
    }
    ClaimKeepsRankClosure(g, w, start, frontier, rank, level, pending, todoL, n, d);
  }

  /** The edges a claim leaves covered: those covered before, and edge `d` of n. */
  lemma ClaimKeepsRankClosure(g: seq<Node>, w: int, start: int, frontier: seq<nat>, rank: seq<nat>,
                              level: nat, pending: int, todoL: set<Direction>, n: nat, d: Direction)
    requires WellLinked(g, w) && Reached(g, start, n)
    requires Layered(g, w, start, frontier, rank, level, true, pending, todoL)
    requires pending == n || pending == -1
    requires Claimable(g, w, n, d, frontier)
    ensures var b := Target(g[n], d, w).value;
      var g', rank' := g[b := g[b].(pathfindingNode := Some(n))], RankAfterClaim(g, w, start, n, d, frontier, rank);
      forall a, e | 0 <= a < |g'| && Reached(g', start, a) && (a !in frontier + [b] || a == start)
                    && !(a == pending && e in todoL - {d}) ::
        RankCovered(g', w, start, rank', a, e)
  {
    var b := Target(g[n], d, w).value;
    var g', rank' := g[b := g[b].(pathfindingNode := Some(n))], RankAfterClaim(g, w, start, n, d, frontier, rank);
    ClaimKeepsLinks(g, w, start, b, n, g');
    forall a, e | 0 <= a < |g'| && Reached(g', start, a) && (a !in frontier + [b] || a == start)
                  && !(a == pending && e in todoL - {d})
      ensures RankCovered(g', w, start, rank', a, e)
    {
      if a == n && e == d {
      } else {
        assert Reached(g, start, a);
        assert RankCovered(g, w, start, rank, a, e);
        assert Target(g'[a], e, w) == Target(g[a], e, w);
      }
    }
  }

  /** The half of ClaimKeepsLayers where nothing is claimed: edge `d` of n leads nowhere new. */
  lemma UnclaimedInLayers(g: seq<Node>, w: int, start: int, frontier: seq<nat>, rank: seq<nat>,
                          level: nat, pending: int, todoL: set<Direction>, n: nat, d: Direction)
    requires WellLinked(g, w) && Reached(g, start, n) && forall i | 0 <= i < |frontier| :: Reached(g, start, frontier[i])
    requires Layered(g, w, start, frontier, rank, level, true, pending, todoL)
    requires pending == n || (n == start && pending == -1 && todoL == {})
    requires n != start ==> rank[n] == level
    requires n == start && pending == n ==> level == 0
    requires !Claimable(g, w, n, d, frontier)
    ensures Layered(g, w, start, frontier, RankAfterClaim(g, w, start, n, d, frontier, rank), level, true, pending, todoL - {d})
  {
    assert Linked(g[n], d, w, |g|);
    var t := Target(g[n], d, w);
    if t.Some? && g[t.value].traversable && t.value in frontier {
      var i :| 0 <= i < |frontier| && frontier[i] == t.value;
      assert Reached(g, start, frontier[i]);
    }
    assert pending == n ==> RankCovered(g, w, start, rank, n, d);
  }

  /** A pending node with no direction left to check is expanded. */
  lemma LayersDone(g: seq<Node>, w: int, start: int, frontier: seq<nat>, rank: seq<nat>, level: nat, pending: int, todo: set<Direction>)
    requires Layered(g, w, start, frontier, rank, level, true, pending, todo)
    requires Left !in todo && Right !in todo && Up !in todo && Down !in todo
    ensures Layered(g, w, start, frontier, rank, level, true, -1, {})
  {
    forall a, d | 0 <= a < |g| && Reached(g, start, a) && (a !in frontier || a == start)
      ensures RankCovered(g, w, start, rank, a, d)
    {
      assert d !in todo by {
        assert d == Left || d == Right || d == Up || d == Down;
      }
    }
  }

  /**
   * Under the layers, a walk of m steps from the start ends at a reached
   * node of rank at most m, or some queued node other than the start ranks
   * at most m.
   */
  lemma {:induction false} LayersBoundWalk(g: seq<Node>, w: int, start: int, frontier: seq<nat>, rank: seq<nat>,
                                           level: nat, walk: seq<int>)
    requires Layered(g, w, start, frontier, rank, level, true, -1, {})
    requires OpenWalk(g, w, walk) && walk[0] == start
    ensures var v := walk[|walk| - 1];
      || (Reached(g, start, v) && rank[v] <= |walk| - 1)
      || exists i | 0 <= i < |frontier| && frontier[i] != start :: rank[frontier[i]] <= |walk| - 1
  {
    if |walk| > 1 {
      var prefix := walk[..|walk| - 1];
      assert OpenWalk(g, w, prefix) by {
        forall i | 0 <= i < |prefix| - 1
          ensures OpenStep(g, w, prefix, i)
        {
          assert OpenStep(g, w, walk, i);
        }
      }
      LayersBoundWalk(g, w, start, frontier, rank, level, prefix);
      var a, t := walk[|walk| - 2], walk[|walk| - 1];
      assert OpenStep(g, w, walk, |walk| - 2);
      if Reached(g, start, a) && rank[a] <= |prefix| - 1 {
        if a in frontier && a != start {
          var i :| 0 <= i < |frontier| && frontier[i] == a;
          assert rank[frontier[i]] <= |walk| - 1;
        } else {
          var d :| Target(g[a], d, w) == Some(t);
          assert RankCovered(g, w, start, rank, a, d);
        }
      } else {
        var i :| 0 <= i < |frontier| && frontier[i] != start && rank[frontier[i]] <= |prefix| - 1;
        assert rank[frontier[i]] <= |walk| - 1;
      }
    }
  }

  /**
   * When the goal, other than the start, comes off the front of the queue,
   * no walk from the start reaches it in fewer steps than its rank.
   */
  lemma GoalIsNearest(g: seq<Node>, w: int, start: int, goal: int, frontier: seq<nat>, rank: seq<nat>,
                      level: nat, startDone: bool)
    requires Layered(g, w, start, frontier, rank, level, startDone, -1, {})
    requires frontier != [] && frontier[0] == goal && goal != start
    ensures forall walk | OpenWalk(g, w, walk) && walk[0] == start && walk[|walk| - 1] == goal :: rank[goal] <= |walk| - 1
  {
    forall walk | OpenWalk(g, w, walk) && walk[0] == start && walk[|walk| - 1] == goal
      ensures rank[goal] <= |walk| - 1
    {
      LayersBoundWalk(g, w, start, frontier, rank, level, walk);
      if i :| 0 <= i < |frontier| && frontier[i] != start && rank[frontier[i]] <= |walk| - 1 {
        if i > 0 {
          assert rank[frontier[0]] <= rank[frontier[i]];
        }
      }
    }
  }

  /**
   * A neighbour check within breadth first search: ClaimNeighbour, which
   * also keeps the layers.
   */
  method ClaimInLayers(g: NodeGrid, n: nat, d: Direction, frontier: seq<nat>,
                       ghost g0: seq<Node>, ghost start: nat, ghost goal: nat, ghost rank: seq<nat>, ghost todo: set<Direction>,
                       ghost level: nat, ghost pending: int, ghost todoL: set<Direction>)
    returns (next: seq<nat>, ghost rank': seq<nat>)
    requires Exploring(g0, g.grid, g.width, start, goal, frontier, rank, n, todo) && Reached(g.grid, start, n)
    requires Layered(g.grid, g.width, start, frontier, rank, level, true, pending, todoL)
    requires pending == n || (n == start && pending == -1 && todoL == {})
    requires n != start ==> rank[n] == level
    requires n == start && pending == n ==> level == 0
    modifies g
    ensures g.width == old(g.width) && g.height == old(g.height)
    ensures Exploring(g0, g.grid, g.width, start, goal, next, rank', n, todo - {d}) && Reached(g.grid, start, n)
    ensures Layered(g.grid, g.width, start, next, rank', level, true, pending, todoL - {d}) && rank'[n] == rank[n]
    ensures 2 * CountUnclaimed(g.grid) + |next| <= 2 * CountUnclaimed(old(g.grid)) + |frontier|
  {
    ghost var before := g.grid;
    rank' := RankAfterClaim(g.grid, g.width, start, n, d, frontier, rank);
    assert Linked(g.grid[n], d, g.width, |g.grid|);
    next := CheckNeighbour(g, n, d, frontier);
    ClaimKeepsExploring(g0, before, g.width, start, goal, frontier, rank, n, d, todo, g.grid, next);
    ClaimKeepsLayers(g0, before, g.width, start, goal, frontier, rank, todo, level, pending, todoL, n, d, g.grid, next);
  }

  /** The neighbour checks of one BreadthFirstSearch step, in the order Right, Down, Left, Up. */
  method ExpandBreadthFirst(g: NodeGrid, n: nat, frontier: seq<nat>,
                            ghost g0: seq<Node>, ghost start: nat, ghost goal: nat, ghost rank: seq<nat>,
                            ghost level: nat, ghost pending: int, ghost todoL: set<Direction>)
    returns (next: seq<nat>, ghost rank': seq<nat>)
    requires Exploring(g0, g.grid, g.width, start, goal, frontier, rank, n, {Left, Right, Up, Down}) && Reached(g.grid, start, n)
    requires Layered(g.grid, g.width, start, frontier, rank, level, true, pending, todoL)
    requires (pending == n && todoL == {Left, Right, Up, Down}) || (n == start && pending == -1 && todoL == {})
    requires n != start ==> rank[n] == level
    requires n == start && pending == n ==> level == 0
    modifies g
    ensures g.width == old(g.width) && g.height == old(g.height)
    ensures Exploring(g0, g.grid, g.width, start, goal, next, rank', -1, {})
    ensures Layered(g.grid, g.width, start, next, rank', level, true, -1, {})
    ensures 2 * CountUnclaimed(g.grid) + |next| <= 2 * CountUnclaimed(old(g.grid)) + |frontier|
  {
    ghost var todo, todo' := {Left, Right, Up, Down}, todoL;
    next, rank' := ClaimInLayers(g, n, Right, frontier, g0, start, goal, rank, todo, level, pending, todo');
    todo, todo' := todo - {Right}, todo' - {Right};
    next, rank' := ClaimInLayers(g, n, Down, next, g0, start, goal, rank', todo, level, pending, todo');
    todo, todo' := todo - {Down}, todo' - {Down};
    next, rank' := ClaimInLayers(g, n, Left, next, g0, start, goal, rank', todo, level, pending, todo');
    todo, todo' := todo - {Left}, todo' - {Left};
    next, rank' := ClaimInLayers(g, n, Up, next, g0, start, goal, rank', todo, level, pending, todo');
    todo, todo' := todo - {Up}, todo' - {Up};
    ExpansionDone(g0, g.grid, g.width, start, goal, next, rank', n, todo);
    LayersDone(g.grid, g.width, start, next, rank', level, pending, todo');
  }

  /** A pending node with no direction left to check is expanded. */
  lemma ExpansionDone(g0: seq<Node>, g: seq<Node>, w: int, start: int, goal: int, frontier: seq<nat>, rank: seq<nat>, n: int, todo: set<Direction>)
    requires Exploring(g0, g, w, start, goal, frontier, rank, n, todo)
    requires Left !in todo && Right !in todo && Up !in todo && Down !in todo
    ensures Exploring(g0, g, w, start, goal, frontier, rank, -1, {})
  {
    forall a, d | 0 <= a < |g| && Reached(g, start, a) && a !in frontier
      ensures Covered(g, w, start, a, d)
    {
      assert d !in todo by {
        assert d == Left || d == Right || d == Up || d == Down;
      }
    }
  }

  /**
   * The neighbour checks of one DepthFirstSearch step: the directions of
   * `directionOrder` from last to first, so that the first is pushed last.
   */
  method ExpandDepthFirst(g: NodeGrid, n: nat, frontier: seq<nat>, directionOrder: seq<Direction>,
                          ghost g0: seq<Node>, ghost start: nat, ghost goal: nat, ghost rank: seq<nat>)
    returns (next: seq<nat>, ghost rank': seq<nat>)
    requires |directionOrder| == 4
    requires Exploring(g0, g.grid, g.width, start, goal, frontier, rank, n, set j | 0 <= j < 4 :: directionOrder[j])
    requires Reached(g.grid, start, n)
    modifies g
    ensures g.width == old(g.width) && g.height == old(g.height)
    ensures Exploring(g0, g.grid, g.width, start, goal, next, rank', -1, {})
    ensures 2 * CountUnclaimed(g.grid) + |next| <= 2 * CountUnclaimed(old(g.grid)) + |frontier|
  {
    next, rank' := frontier, rank;
    ghost var todo := set j | 0 <= j < 4 :: directionOrder[j];
    var i := |directionOrder| - 1;
    while i >= 0
      invariant -1 <= i <= 3
      invariant g.width == old(g.width) && g.height == old(g.height)
      invariant Exploring(g0, g.grid, g.width, start, goal, next, rank', n, todo)
      invariant forall d :: d in todo ==> d in directionOrder[..i + 1]
      invariant Reached(g.grid, start, n)
      invariant 2 * CountUnclaimed(g.grid) + |next| <= 2 * CountUnclaimed(old(g.grid)) + |frontier|
    {
      next, rank' := ClaimNeighbour(g, n, directionOrder[i], next, g0, start, goal, rank', todo);
      todo := todo - {directionOrder[i]};
      assert forall d :: d in directionOrder[..i + 1] && d != directionOrder[i] ==> d in directionOrder[..i];
      i := i - 1;
    }
    ExpansionDone(g0, g.grid, g.width, start, goal, next, rank', n, todo);
  }

  /**
   * BreadthFirstSearch(start, end): a FIFO queue, neighbours checked Right,
   * Down, Left, Up. On the goal's dequeue the path is reconstructed from its
   * predecessor; with the goal equal to the start that predecessor is null.
   */
  method BreadthFirstSearch(g: NodeGrid, start: nat, goal: nat) returns (result: SearchResult)
    requires WellLinked(g.grid, g.width) && Reset(g.grid)
    requires start < |g.grid| && goal < |g.grid|
    modifies g
    ensures g.width == old(g.width) && g.height == old(g.height)
    ensures OnlyPredecessorsChanged(old(g.grid), g.grid)
    ensures result.NullReference? <==> goal == start
    ensures result.PathFound? ==> RouteFrom(g.grid, g.width, start, goal, result.path)
    ensures result.PathFound? ==>
      forall walk | OpenWalk(g.grid, g.width, walk) && walk[0] == start && walk[|walk| - 1] == goal :: |result.path| <= |walk|
    ensures result.NoPath? ==> !Reached(g.grid, start, goal)
    ensures result.NoPath? ==> forall walk | OpenWalk(g.grid, g.width, walk) && walk[0] == start :: walk[|walk| - 1] != goal
  {
    ghost var g0 := g.grid;
    ghost var rank: seq<nat> := seq(|g.grid|, k => 0);
    ghost var level: nat, startDone := 0, false;
    StartExploring(g.grid, g.width, start, goal);
    StartLayered(g.grid, g.width, start);
    var nodesToCheck: seq<nat> := [start];
    while |nodesToCheck| > 0
      invariant g.width == old(g.width) && g.height == old(g.height)
      invariant Exploring(g0, g.grid, g.width, start, goal, nodesToCheck, rank, -1, {})
      invariant Layered(g.grid, g.width, start, nodesToCheck, rank, level, startDone, -1, {})
      invariant goal == start ==> g.grid == g0 && nodesToCheck == [start]
      decreases 2 * CountUnclaimed(g.grid) + |nodesToCheck|
    {
      var n := nodesToCheck[0];
      if n == goal {
        GoalTaken(g0, g.grid, g.width, start, goal, nodesToCheck, rank, 0);
        if goal != start {
          GoalIsNearest(g.grid, g.width, start, goal, nodesToCheck, rank, level, startDone);
        }
        result := TraceFromPredecessor(g.grid, g.width, start, goal, rank);
        return;
      }
      TakeKeepsExploring(g0, g.grid, g.width, start, goal, nodesToCheck, rank, 0, {Left, Right, Up, Down});
      TakeKeepsLayers(g.grid, g.width, start, nodesToCheck, rank, level, startDone);
      ghost var pending := if n == start && startDone then -1 else n;
      ghost var todo: set<Direction> := if n == start && startDone then {} else {Left, Right, Up, Down};
      level, startDone := if n == start then level else rank[n], true;
      assert nodesToCheck[..0] + nodesToCheck[1..] == nodesToCheck[1..];
      nodesToCheck := nodesToCheck[1..];
      nodesToCheck, rank := ExpandBreadthFirst(g, n, nodesToCheck, g0, start, goal, rank, level, pending, todo);
    }
    result := NoPath;
    NoWalkToUnreached(g0, g.grid, g.width, start, goal, rank);
  }

  /**
   * DepthFirstSearch(start, end): a LIFO stack; each popped node's
   * neighbours are pushed in the reverse of GetDirection's order, so the
   * preferred direction is popped first. On the goal's pop the stack is
   * cleared and the path reconstructed as in BreadthFirstSearch.
   */
  method DepthFirstSearch(g: NodeGrid, start: nat, goal: nat) returns (result: SearchResult)
    requires WellLinked(g.grid, g.width) && Reset(g.grid)
    requires start < |g.grid| && goal < |g.grid|
    modifies g
    ensures g.width == old(g.width) && g.height == old(g.height)
    ensures OnlyPredecessorsChanged(old(g.grid), g.grid)
    ensures result.NullReference? <==> goal == start
    ensures result.PathFound? ==> RouteFrom(g.grid, g.width, start, goal, result.path)
    ensures result.NoPath? ==> !Reached(g.grid, start, goal)
    ensures result.NoPath? ==> forall walk | OpenWalk(g.grid, g.width, walk) && walk[0] == start :: walk[|walk| - 1] != goal
  {
    assert Linked(g.grid[start], Left, g.width, |g.grid|) && Linked(g.grid[goal], Left, g.width, |g.grid|);
    var directionOrder := GetDirection(g.grid[start].thisNode.value, g.grid[goal].thisNode.value);
    ghost var g0 := g.grid;
    ghost var rank: seq<nat> := seq(|g.grid|, k => 0);
    StartExploring(g.grid, g.width, start, goal);
    var nodesToCheck: seq<nat> := [start];
    while |nodesToCheck| > 0
      invariant g.width == old(g.width) && g.height == old(g.height)
      invariant Exploring(g0, g.grid, g.width, start, goal, nodesToCheck, rank, -1, {})
      invariant goal == start ==> g.grid == g0 && nodesToCheck == [start]
      decreases 2 * CountUnclaimed(g.grid) + |nodesToCheck|
    {
      var last := |nodesToCheck| - 1;
      var n := nodesToCheck[last];
      if n == goal {
        GoalTaken(g0, g.grid, g.width, start, goal, nodesToCheck, rank, last);
        nodesToCheck := [];
        result := TraceFromPredecessor(g.grid, g.width, start, goal, rank);
        return;
      }
      ghost var todo := set j | 0 <= j < 4 :: directionOrder[j];
      assert directionOrder[0] in todo && directionOrder[1] in todo && directionOrder[2] in todo && directionOrder[3] in todo;
      TakeKeepsExploring(g0, g.grid, g.width, start, goal, nodesToCheck, rank, last, todo);
      assert nodesToCheck[..last] + nodesToCheck[last + 1..] == nodesToCheck[..last];
      nodesToCheck := nodesToCheck[..last];
      // the neighbours are pushed last-preferred first, so the preferred one is popped next
      nodesToCheck, rank := ExpandDepthFirst(g, n, nodesToCheck, directionOrder, g0, start, goal, rank);
    }
    result := NoPath;
    NoWalkToUnreached(g0, g.grid, g.width, start, goal, rank);
  }
}
