/**
 * DijkstraSearch and AStar of NodeGrid.cs: a PriorityQueue of list
 * positions; a neighbour whose CostToStart the expanded node improves gets
 * the lower cost and the expanded node as PathfindingNode, and is queued
 * again. Dijkstra keys the queue by CostToStart, prunes with the goal's
 * last known cost and drains the queue; A* adds the Manhattan distance to
 * the goal and stops on the goal's first dequeue.
 */
module WeightedSearch {
  import opened Wrappers
  import opened Nodes
  import opened GridIndex
  import opened Grid
  import opened SearchState
  import opened Directions
  import opened PriorityOrder
  import opened PriorityQueues

  /** The searches change the two transient fields and nothing else. */
  ghost predicate OnlySearchStateChanged(g0: seq<Node>, g: seq<Node>) {
    |g| == |g0| &&
    forall k | 0 <= k < |g| :: g[k] == g0[k].(pathfindingNode := g[k].pathfindingNode, costToStart := g[k].costToStart)
  }

  /** Every traversable node costs at least 1 to enter. */
  ghost predicate PositiveCosts(g: seq<Node>) {
    forall k | 0 <= k < |g| && g[k].traversable :: g[k].travelCost >= 1
  }

  /**
   * Node k's predecessor p is reached, one edge away, and p's CostToStart
   * plus k's TravelCost is at most k's CostToStart.
   */
  ghost predicate RelaxedFrom(g: seq<Node>, w: int, start: int, k: int)
    requires 0 <= k < |g| && g[k].pathfindingNode.Some?
  {
    var p := g[k].pathfindingNode.value;
    && k != start && p < |g| && Reached(g, start, p)
    && g[p].costToStart + g[k].travelCost <= g[k].costToStart
    && StepsTo(g, w, p, k) && g[k].traversable
  }

  /**
   * The state relaxation keeps: the start has cost 0 and no predecessor,
   * every cost lies between 0 and int.MaxValue, a node not reached keeps
   * int.MaxValue, and every predecessor link is one along which the cost
   * was relaxed.
   */
  ghost predicate CostForest(g: seq<Node>, w: int, start: int) {
    && 0 <= start < |g| && g[start].pathfindingNode == None && g[start].costToStart == 0
    && (forall k | 0 <= k < |g| :: 0 <= g[k].costToStart <= Unreached)
    && (forall k | 0 <= k < |g| && !Reached(g, start, k) :: g[k].costToStart == Unreached)
    && (forall k | 0 <= k < |g| && g[k].pathfindingNode.Some? :: RelaxedFrom(g, w, start, k))
  }

  /** Every queued position is in the list and reached. */
  ghost predicate QueuedReached(g: seq<Node>, start: int, queue: seq<Entry<nat>>) {
    forall e | e in queue :: e.value < |g| && Reached(g, start, e.value)
  }

  /** Some entry of the queue holds position v. */
  ghost predicate Queued(queue: seq<Entry<nat>>, v: nat) {
    exists e | e in queue :: e.value == v
  }

  /** The invariant both weighted searches keep. */
  ghost predicate Relaxing(g0: seq<Node>, g: seq<Node>, w: int, start: int, goal: int, queue: seq<Entry<nat>>) {
    && OnlySearchStateChanged(g0, g) && WellLinked(g, w) && PositiveCosts(g)
    && 0 <= goal < |g| && CostForest(g, w, start) && QueuedReached(g, start, queue)
  }

  /** The costs, as ranks for tracing the predecessors back to the start. */
  ghost function Ranks(g: seq<Node>): (rank: seq<nat>)
    ensures |rank| == |g|
  {
    seq(|g|, k requires 0 <= k < |g| => if g[k].costToStart >= 0 then g[k].costToStart as nat else 0)
  }

  /**
   * With travel costs of at least 1 the relaxed predecessor links form a
   * forest ordered by cost, and costs descend towards the start.
   */
  lemma CostForestIsForest(g: seq<Node>, w: int, start: int)
    requires CostForest(g, w, start) && PositiveCosts(g)
    ensures PredecessorForest(g, w, start, Ranks(g)) && CostsDescend(g, start)
  {
    var rank := Ranks(g);
    forall k | 0 <= k < |g| && k != start && g[k].pathfindingNode.Some?
      ensures ClaimedBy(g, w, start, rank, k)
    {
      assert RelaxedFrom(g, w, start, k);
    }
    forall k | 0 <= k < |g| && g[k].pathfindingNode.Some?
      ensures g[k].pathfindingNode.value < |g|
    {
      assert RelaxedFrom(g, w, start, k);
    }
  }

  /** The sum of all CostToStart values: the part of the termination measure relaxation lowers. */
  function TotalCost(g: seq<Node>): int {
    if g == [] then 0 else g[0].costToStart + TotalCost(g[1..])
  }

  /** The sum of costs that are all at least 0 is at least 0. */
  lemma {:induction false} TotalCostNonNegative(g: seq<Node>)
    requires forall k | 0 <= k < |g| :: g[k].costToStart >= 0
    ensures TotalCost(g) >= 0
  {
    if g != [] {
      TotalCostNonNegative(g[1..]);
    }
  }

  /** Replacing node k moves the sum by the difference of the two costs. */
  lemma {:induction false} TotalCostUpdate(g: seq<Node>, k: int, n: Node)
    requires 0 <= k < |g|
    ensures TotalCost(g[k := n]) == TotalCost(g) - g[k].costToStart + n.costToStart
  {
    if k > 0 {
      TotalCostUpdate(g[1..], k - 1, n);
      assert g[k := n][1..] == g[1..][k - 1 := n];
    } else {
      assert g[k := n][1..] == g[1..];
    }
  }

  /** The guard the two NodeCheck methods share: a connected edge to a traversable node whose cost would drop. */
  ghost predicate Improves(g: seq<Node>, w: int, n: int, d: Direction)
    requires 0 <= n < |g|
  {
    var t := Target(g[n], d, w);
    && t.Some? && 0 <= t.value < |g| && g[t.value].traversable
    && g[t.value].travelCost + g[n].costToStart < g[t.value].costToStart
  }

  /** Node b's cost through n: n's CostToStart plus b's TravelCost. */
  ghost function CostThrough(g: seq<Node>, n: int, b: int): int
    requires 0 <= n < |g| && 0 <= b < |g|
  {
    g[n].costToStart + g[b].travelCost
  }

  /** The list after node b is relaxed through n. */
  ghost function Relax(g: seq<Node>, n: int, b: int): seq<Node>
    requires 0 <= n < |g| && 0 <= b < |g|
  {
    g[b := g[b].(costToStart := CostThrough(g, n, b), pathfindingNode := Some(n))]
  }

  /** A relaxation changes no edge and no configuration. */
  lemma RelaxKeepsLinks(g0: seq<Node>, g: seq<Node>, w: int, n: int, b: int)
    requires OnlySearchStateChanged(g0, g) && WellLinked(g, w) && PositiveCosts(g)
    requires 0 <= n < |g| && 0 <= b < |g|
    ensures OnlySearchStateChanged(g0, Relax(g, n, b)) && WellLinked(Relax(g, n, b), w) && PositiveCosts(Relax(g, n, b))
    ensures forall k, e | 0 <= k < |g| :: Target(Relax(g, n, b)[k], e, w) == Target(g[k], e, w)
  {
    var g' := Relax(g, n, b);
    forall k, e | 0 <= k < |g|
      ensures Target(g'[k], e, w) == Target(g[k], e, w) && Linked(g'[k], e, w, |g'|)
    {
      assert Edge(g'[k], e) == Edge(g[k], e);
      assert Linked(g[k], e, w, |g|);
    }
  }

  /**
   * Relaxing the target b of an improving edge of a reached node n keeps
   * the cost forest, never touches the start, and lowers the sum of costs.
   */
  lemma RelaxKeepsForest(g: seq<Node>, w: int, start: int, n: int, d: Direction)
    requires CostForest(g, w, start) && PositiveCosts(g) && 0 <= n < |g| && Reached(g, start, n) && Improves(g, w, n, d)
    ensures var b := Target(g[n], d, w).value;
      && b != start && b != n
      && CostForest(Relax(g, n, b), w, start)
      && TotalCost(Relax(g, n, b)) < TotalCost(g)
      && forall k | Reached(g, start, k) :: Reached(Relax(g, n, b), start, k)
  {
    var b := Target(g[n], d, w).value;
    var g' := Relax(g, n, b);
    assert g[b].travelCost >= 1;
    assert b != n;
    forall k | 0 <= k < |g'|
      ensures 0 <= g'[k].costToStart <= Unreached
      ensures Reached(g, start, k) ==> Reached(g', start, k)
      ensures !Reached(g', start, k) ==> g'[k].costToStart == Unreached
    {
      if k != b {
        assert g'[k] == g[k];
      }
    }
    forall k | 0 <= k < |g'| && g'[k].pathfindingNode.Some?
      ensures RelaxedFrom(g', w, start, k)
    {
      RelaxKeepsLink(g, w, start, n, d, k);
    }
    TotalCostUpdate(g, b, g'[b]);
  }

  /** After relaxing b through n, each predecessor link of the list is still one along which the cost was relaxed. */
  lemma RelaxKeepsLink(g: seq<Node>, w: int, start: int, n: int, d: Direction, k: int)
    requires CostForest(g, w, start) && PositiveCosts(g) && 0 <= n < |g| && Reached(g, start, n) && Improves(g, w, n, d)
    requires 0 <= k < |g| && Relax(g, n, Target(g[n], d, w).value)[k].pathfindingNode.Some?
    ensures RelaxedFrom(Relax(g, n, Target(g[n], d, w).value), w, start, k)
  {
    var b := Target(g[n], d, w).value;
    var g' := Relax(g, n, b);
    assert g[b].travelCost >= 1;
    if k == b {
      assert g'[n] == g[n];
      assert Target(g'[n], d, w) == Some(b);
    } else {
      assert RelaxedFrom(g, w, start, k);
      var p := g[k].pathfindingNode.value;
      var e :| Target(g[p], e, w) == Some(k);
      assert Edge(g'[p], e) == Edge(g[p], e);
      assert Target(g'[p], e, w) == Some(k);
    }
  }

  /** Enqueueing a reached position keeps every queued position queued and reached. */
  lemma EnqueueKeepsQueued(g: seq<Node>, g': seq<Node>, start: int, queue: seq<Entry<nat>>, e: Entry<nat>)
    requires QueuedReached(g, start, queue) && e.value < |g'| == |g| && Reached(g', start, e.value)
    requires forall k | Reached(g, start, k) :: Reached(g', start, k)
    ensures QueuedReached(g', start, InsertSorted(queue, e)) && Queued(InsertSorted(queue, e), e.value)
    ensures forall v | Queued(queue, v) :: Queued(InsertSorted(queue, e), v)
    ensures |InsertSorted(queue, e)| == |queue| + 1
  {
    var q' := InsertSorted(queue, e);
    InsertSortedAdds(queue, e);
    assert e in multiset(q');
    forall x | x in q'
      ensures x.value < |g'| && Reached(g', start, x.value)
    {
      assert x in multiset(q');
      if x != e {
        assert x in multiset(queue);
      }
    }
    forall v | Queued(queue, v)
      ensures Queued(q', v)
    {
      var x :| x in queue && x.value == v;
      assert x in multiset(queue);
      assert x in multiset(q');
    }
    assert |q'| == |multiset(q')|;
  }

  /**
   * One neighbour check with Relax as its effect: the invariant holds
   * afterwards, the relaxed node is queued, and twice the sum of costs plus
   * the queue length drops.
   */
  lemma RelaxKeepsRelaxing(g0: seq<Node>, g: seq<Node>, w: int, start: int, goal: int,
                           queue: seq<Entry<nat>>, n: nat, d: Direction, priority: int)
    requires Relaxing(g0, g, w, start, goal, queue) && n < |g| && Reached(g, start, n) && Improves(g, w, n, d)
    ensures var b := Target(g[n], d, w).value;
      var g', q' := Relax(g, n, b), InsertSorted(queue, Entry(b, priority));
      && Relaxing(g0, g', w, start, goal, q')
      && 2 * TotalCost(g') + |q'| < 2 * TotalCost(g) + |queue|
      && Queued(q', b) && g'[b].costToStart < g[b].costToStart
      && (forall v | Queued(queue, v) :: Queued(q', v))
      && (forall k | Reached(g, start, k) :: Reached(g', start, k))
      && (forall k | 0 <= k < |g| && k != b :: g'[k] == g[k])
  {
    var b := Target(g[n], d, w).value;
    RelaxKeepsLinks(g0, g, w, n, b);
    RelaxKeepsForest(g, w, start, n, d);
    EnqueueKeepsQueued(g, Relax(g, n, b), start, queue, Entry(b, priority));
  }

  /** Taking the front entry off the queue: its position is reached, and every other queued position stays queued. */
  lemma DequeueKeepsQueued(g: seq<Node>, start: int, queue: seq<Entry<nat>>)
    requires QueuedReached(g, start, queue) && queue != []
    ensures queue[0].value < |g| && Reached(g, start, queue[0].value)
    ensures QueuedReached(g, start, queue[1..])
    ensures forall v | Queued(queue, v) && v != queue[0].value :: Queued(queue[1..], v)
  {
    assert queue[0] in queue;
    forall v | Queued(queue, v) && v != queue[0].value
      ensures Queued(queue[1..], v)
    {
      var x :| x in queue && x.value == v;
      var i :| 0 <= i < |queue| && queue[i] == x;
      assert queue[1..][i - 1] == x;
    }
  }

  /** Starting a search: the start gets cost 0 and is the one queued entry. */
  lemma StartRelaxing(g: seq<Node>, w: int, start: int, goal: int)
    requires WellLinked(g, w) && PositiveCosts(g) && Reset(g) && 0 <= start < |g| && 0 <= goal < |g|
    ensures var g' := g[start := g[start].(costToStart := 0)];
      && Relaxing(g, g', w, start, goal, InsertSorted([], Entry(start, 0)))
      && Queued(InsertSorted([], Entry(start, 0)), start)
      && (Reached(g', start, goal) <==> goal == start)
  {
    var g' := g[start := g[start].(costToStart := 0)];
    forall k, e | 0 <= k < |g|
      ensures Linked(g'[k], e, w, |g'|)
    {
      assert Linked(g[k], e, w, |g|);
      assert Edge(g'[k], e) == Edge(g[k], e);
    }
    assert InsertSorted([], Entry(start, 0)) == [Entry(start, 0)];
  }

  // ---------------------------------------------------------------- Closure

  /**
   * Node a has an entry in the queue whose priority is at most a's cost
   * plus its estimate `h[a]`: a's edges will still be relaxed at a cost no
   * higher than its current one.
   */
  ghost predicate Open(g: seq<Node>, h: seq<int>, queue: seq<Entry<nat>>, a: int)
    requires 0 <= a < |g| == |h|
  {
    exists e | e in queue :: e.value == a && e.priority <= g[a].costToStart + h[a]
  }

  /**
   * Edge `d` of node a has been relaxed: the traversable node it leads to
   * costs at most a's cost plus its own travel cost, unless that sum is at
   * least `bound` (Dijkstra's cut-off at distanceToEnd).
   */
  ghost predicate EdgeRelaxed(g: seq<Node>, w: int, a: int, d: Direction, bound: int)
    requires 0 <= a < |g|
  {
    var t := Target(g[a], d, w);
    t.Some? ==>
      && 0 <= t.value < |g|
      && (g[t.value].traversable ==>
            g[t.value].costToStart <= CostThrough(g, a, t.value) || bound <= CostThrough(g, a, t.value))
  }

  /**
   * Every reached node that is not open has had its four edges relaxed, but
   * for the directions `todo` of the node `pending` being expanded.
   */
  ghost predicate Settled(g: seq<Node>, w: int, start: int, h: seq<int>, queue: seq<Entry<nat>>,
                          pending: int, todo: set<Direction>, bound: int) {
    |h| == |g| &&
    forall a, d | 0 <= a < |g| && Reached(g, start, a) && !Open(g, h, queue, a) && !(a == pending && d in todo) ::
      EdgeRelaxed(g, w, a, d, bound)
  }

  /** The estimate never drops by more than the travel cost of one step. */
  ghost predicate Consistent(g: seq<Node>, w: int, h: seq<int>) {
    |h| == |g| &&
    forall a, d | 0 <= a < |g| && Target(g[a], d, w).Some? ::
      var t := Target(g[a], d, w).value;
      0 <= t < |g| && g[t].traversable ==> h[a] <= g[t].travelCost + h[t]
  }

  /** Dijkstra's estimate: none. */
  ghost function NoEstimate(n: nat): (h: seq<int>)
    ensures |h| == n && forall k | 0 <= k < n :: h[k] == 0
  {
    seq(n, k => 0)
  }

  const AllDirections: set<Direction> := {Left, Right, Up, Down}

  /** With travel costs of at least 1, no estimate is consistent. */
  lemma NoEstimateConsistent(g: seq<Node>, w: int)
    requires WellLinked(g, w) && PositiveCosts(g)
    ensures Consistent(g, w, NoEstimate(|g|))
  {
    forall a, d | 0 <= a < |g| && Target(g[a], d, w).Some?
      ensures var t := Target(g[a], d, w).value;
        0 <= t < |g| && g[t].traversable ==> NoEstimate(|g|)[a] <= g[t].travelCost + NoEstimate(|g|)[t]
    {
      assert Linked(g[a], d, w, |g|);
    }
  }

  /** At the start only the start is reached, and it is open. */
  lemma StartSettled(g: seq<Node>, w: int, start: int, h: seq<int>, bound: int)
    requires Reset(g) && 0 <= start < |g| == |h| && h[start] >= 0
    ensures var g' := g[start := g[start].(costToStart := 0)];
      Settled(g', w, start, h, InsertSorted([], Entry(start, 0)), -1, {}, bound)
  {
    var g' := g[start := g[start].(costToStart := 0)];
    assert InsertSorted([], Entry(start, 0)) == [Entry(start, 0)];
    assert Open(g', h, [Entry(start, 0)], start) by {
      assert Entry(start, 0) in [Entry(start, 0)];
    }
  }

  /** Taking the front entry off the queue makes its node the one pending, with all four directions to do. */
  lemma DequeueKeepsSettled(g: seq<Node>, w: int, start: int, h: seq<int>, queue: seq<Entry<nat>>, bound: int)
    requires Settled(g, w, start, h, queue, -1, {}, bound) && queue != []
    ensures Settled(g, w, start, h, queue[1..], queue[0].value, AllDirections, bound)
  {
    var n := queue[0].value;
    forall a | 0 <= a < |g| && a != n && Open(g, h, queue, a)
      ensures Open(g, h, queue[1..], a)
    {
      var x :| x in queue && x.value == a && x.priority <= g[a].costToStart + h[a];
      var i :| 0 <= i < |queue| && queue[i] == x;
      assert queue[1..][i - 1] == x;
    }
  }

  /** A node whose four directions are done is no longer pending. */
  lemma ExpansionKeepsSettled(g: seq<Node>, w: int, start: int, h: seq<int>, queue: seq<Entry<nat>>, n: int, bound: int)
    requires Settled(g, w, start, h, queue, n, {}, bound)
    ensures Settled(g, w, start, h, queue, -1, {}, bound)
  {
  }

  /**
   * Relaxing the target b of edge `d` of the pending node n and queueing b
   * at a priority no higher than its new cost plus its estimate relaxes
   * that edge and keeps every other node's status: b is open, and a lower
   * bound still bounds.
   */
  lemma RelaxKeepsSettled(g: seq<Node>, w: int, start: int, h: seq<int>, queue: seq<Entry<nat>>,
                          n: nat, d: Direction, todo: set<Direction>, priority: int, bound: int, bound': int)
    requires CostForest(g, w, start) && PositiveCosts(g) && n < |g| && Reached(g, start, n) && Improves(g, w, n, d)
    requires Settled(g, w, start, h, queue, n, todo, bound) && bound' <= bound
    requires var b := Target(g[n], d, w).value; priority <= CostThrough(g, n, b) + h[b]
    ensures var b := Target(g[n], d, w).value;
      Settled(Relax(g, n, b), w, start, h, InsertSorted(queue, Entry(b, priority)), n, todo - {d}, bound')
  {
    var b := Target(g[n], d, w).value;
    var g', q' := Relax(g, n, b), InsertSorted(queue, Entry(b, priority));
    RelaxKeepsForest(g, w, start, n, d);
    InsertSortedAdds(queue, Entry(b, priority));
    assert Open(g', h, q', b) by {
      assert Entry(b, priority) in multiset(q');
    }
    forall a | 0 <= a < |g| && a != b && Open(g, h, queue, a)
      ensures Open(g', h, q', a)
    {
      var x :| x in queue && x.value == a && x.priority <= g[a].costToStart + h[a];
      assert x in multiset(queue);
      assert x in multiset(q');
    }
    forall a, e | 0 <= a < |g'| && Reached(g', start, a) && !Open(g', h, q', a) && !(a == n && e in todo - {d})
      ensures EdgeRelaxed(g', w, a, e, bound')
    {
      assert a != b && g'[a] == g[a];
      if a == n && e == d {
        assert g'[b].costToStart == CostThrough(g', n, b);
      } else {
        assert EdgeRelaxed(g, w, a, e, bound);
      }
    }
  }

  /** A neighbour check that changes nothing relaxes its edge when the edge does not improve, or improves only up to the bound. */
  lemma SkipKeepsSettled(g: seq<Node>, w: int, start: int, h: seq<int>, queue: seq<Entry<nat>>,
                         n: nat, d: Direction, todo: set<Direction>, bound: int)
    requires Settled(g, w, start, h, queue, n, todo, bound) && n < |g| && Linked(g[n], d, w, |g|)
    requires Improves(g, w, n, d) ==> bound <= CostThrough(g, n, Target(g[n], d, w).value)
    ensures Settled(g, w, start, h, queue, n, todo - {d}, bound)
  {
    assert EdgeRelaxed(g, w, n, d, bound);
  }

  /**
   * Under a settled state and a consistent estimate, a walk from the start
   * is no cheaper than the cost of its last node, or than the bound, or
   * than the priority of some queued entry less the last node's estimate.
   */
  lemma {:induction false} SettledBoundsWalk(g: seq<Node>, w: int, start: int, h: seq<int>,
                                             queue: seq<Entry<nat>>, bound: int, walk: seq<int>)
    requires CostForest(g, w, start) && PositiveCosts(g) && Consistent(g, w, h)
    requires Settled(g, w, start, h, queue, -1, {}, bound)
    requires OpenWalk(g, w, walk) && walk[0] == start
    ensures var c, v := WalkCost(g, walk), walk[|walk| - 1];
      g[v].costToStart <= c || bound <= c || exists e | e in queue :: e.priority <= c + h[v]
  {
    if |walk| > 1 {
      var prefix := walk[..|walk| - 1];
      assert OpenWalk(g, w, prefix) by {
        forall i | 0 <= i < |prefix| - 1
          ensures OpenStep(g, w, prefix, i)
        {
          assert OpenStep(g, w, walk, i);
        }
      }
      SettledBoundsWalk(g, w, start, h, queue, bound, prefix);
      var a, t := walk[|walk| - 2], walk[|walk| - 1];
      var c := WalkCost(g, prefix);
      assert WalkCost(g, walk) == c + g[t].travelCost;
      assert OpenStep(g, w, walk, |walk| - 2);
      var d :| Target(g[a], d, w) == Some(t);
      assert h[a] <= g[t].travelCost + h[t];
      if g[a].costToStart <= c {
        if g[a].costToStart < Unreached {
          assert Reached(g, start, a);
          if Open(g, h, queue, a) {
            var x :| x in queue && x.value == a && x.priority <= g[a].costToStart + h[a];
            assert x.priority <= WalkCost(g, walk) + h[t];
          } else {
            assert EdgeRelaxed(g, w, a, d, bound);
          }
        }
      } else if !(bound <= c) {
        var x :| x in queue && x.priority <= c + h[a];
        assert x.priority <= WalkCost(g, walk) + h[t];
      }
    }
  }

  // ---------------------------------------------------------------- Dijkstra

  /**
   * The invariant of DijkstraSearch: the shared one, plus what
   * distanceToEnd records about the goal, which is never below the goal's
   * cost.
   */
  ghost predicate DijkstraState(g0: seq<Node>, g: seq<Node>, w: int, start: int, goal: int,
                                queue: seq<Entry<nat>>, distanceToEnd: int) {
    && Relaxing(g0, g, w, start, goal, queue)
    && g[goal].costToStart <= distanceToEnd
    && (!Reached(g, start, goal) ==> distanceToEnd == Unreached)
    && (Reached(g, start, goal) ==> distanceToEnd == g[goal].costToStart || Queued(queue, goal))
  }

  /**
   * DijkstraNodeCheck: when edge `d` of the current node is connected and
   * leads to a traversable node whose cost through the current node is
   * lower than both its CostToStart and distanceToEnd, that node takes the
   * lower cost and the current node as PathfindingNode and is queued at
   * its new cost; otherwise nothing changes.
   */
  method DijkstraNodeCheck(g: NodeGrid, current: nat, d: Direction, nodesToCheck: PriorityQueue<nat>, distanceToEnd: int)
    requires current < |g.grid| && Linked(g.grid[current], d, g.width, |g.grid|) && nodesToCheck.Valid()
    modifies g, nodesToCheck
    ensures g.width == old(g.width) && g.height == old(g.height) && nodesToCheck.Valid()
    ensures if Improves(old(g.grid), g.width, current, d)
               && CostThrough(old(g.grid), current, Target(old(g.grid)[current], d, g.width).value) < distanceToEnd then
        var b := Target(old(g.grid)[current], d, g.width).value;
        && g.grid == Relax(old(g.grid), current, b)
        && nodesToCheck.Contents() == InsertSorted(old(nodesToCheck.Contents()), Entry(b, g.grid[b].costToStart))
      else
        g.grid == old(g.grid) && nodesToCheck.Contents() == old(nodesToCheck.Contents())
  {
    var check := Edge(g.grid[current], d).value;
    if check.connected {
      var b := PointIndex(check, g.width);
      var checking := g.grid[b];
      if checking.traversable
         && checking.travelCost + g.grid[current].costToStart < checking.costToStart
         && checking.travelCost + g.grid[current].costToStart < distanceToEnd {
        g.grid := g.grid[b := checking.(costToStart := g.grid[current].costToStart + checking.travelCost)];
        g.grid := g.grid[b := g.grid[b].(pathfindingNode := Some(current))];
        nodesToCheck.Enqueue(b, g.grid[b].costToStart);
      }
    }
  }

  /** A Dijkstra neighbour check keeps the invariant and does not raise the measure. */
  lemma DijkstraCheckKeeps(g0: seq<Node>, g: seq<Node>, w: int, start: int, goal: int, queue: seq<Entry<nat>>,
                           distanceToEnd: int, n: nat, d: Direction, todo: set<Direction>,
                           g': seq<Node>, queue': seq<Entry<nat>>)
    requires DijkstraState(g0, g, w, start, goal, queue, distanceToEnd) && n < |g| && Reached(g, start, n)
    requires Settled(g, w, start, NoEstimate(|g|), queue, n, todo, g[goal].costToStart)
    requires if Improves(g, w, n, d) && CostThrough(g, n, Target(g[n], d, w).value) < distanceToEnd then
        var b := Target(g[n], d, w).value;
        g' == Relax(g, n, b) && queue' == InsertSorted(queue, Entry(b, g'[b].costToStart))
      else
        g' == g && queue' == queue
    ensures DijkstraState(g0, g', w, start, goal, queue', distanceToEnd) && Reached(g', start, n)
    ensures Settled(g', w, start, NoEstimate(|g'|), queue', n, todo - {d}, g'[goal].costToStart)
    ensures 2 * TotalCost(g') + |queue'| <= 2 * TotalCost(g) + |queue|
  {
    if Improves(g, w, n, d) && CostThrough(g, n, Target(g[n], d, w).value) < distanceToEnd {
      var b := Target(g[n], d, w).value;
      RelaxKeepsRelaxing(g0, g, w, start, goal, queue, n, d, g'[b].costToStart);
      RelaxKeepsSettled(g, w, start, NoEstimate(|g|), queue, n, d, todo, g'[b].costToStart,
                        g[goal].costToStart, g'[goal].costToStart);
    } else {
      assert Linked(g[n], d, w, |g|);
      SkipKeepsSettled(g, w, start, NoEstimate(|g|), queue, n, d, todo, g[goal].costToStart);
    }
  }

  /** DijkstraNodeCheck inside the search: the invariant is kept and the measure does not rise. */
  method DijkstraRelax(g: NodeGrid, current: nat, d: Direction, nodesToCheck: PriorityQueue<nat>, distanceToEnd: int,
                       ghost g0: seq<Node>, ghost start: nat, ghost goal: nat, ghost todo: set<Direction>)
    requires DijkstraState(g0, g.grid, g.width, start, goal, nodesToCheck.Contents(), distanceToEnd)
    requires Settled(g.grid, g.width, start, NoEstimate(|g.grid|), nodesToCheck.Contents(), current, todo, g.grid[goal].costToStart)
    requires current < |g.grid| && Reached(g.grid, start, current) && nodesToCheck.Valid()
    modifies g, nodesToCheck
    ensures g.width == old(g.width) && g.height == old(g.height) && nodesToCheck.Valid()
    ensures DijkstraState(g0, g.grid, g.width, start, goal, nodesToCheck.Contents(), distanceToEnd)
    ensures Settled(g.grid, g.width, start, NoEstimate(|g.grid|), nodesToCheck.Contents(), current, todo - {d},
                    g.grid[goal].costToStart)
    ensures Reached(g.grid, start, current)
    ensures 2 * TotalCost(g.grid) + |nodesToCheck.Contents()| <= 2 * TotalCost(old(g.grid)) + |old(nodesToCheck.Contents())|
  {
    ghost var before, queued := g.grid, nodesToCheck.Contents();
    assert Linked(g.grid[current], d, g.width, |g.grid|);
    DijkstraNodeCheck(g, current, d, nodesToCheck, distanceToEnd);
    DijkstraCheckKeeps(g0, before, g.width, start, goal, queued, distanceToEnd, current, d, todo, g.grid, nodesToCheck.Contents());
  }

  /** The four neighbour checks of one Dijkstra step: Right, Left, Up, Down. */
  method DijkstraExpand(g: NodeGrid, current: nat, nodesToCheck: PriorityQueue<nat>, distanceToEnd: int,
                        ghost g0: seq<Node>, ghost start: nat, ghost goal: nat)
    requires DijkstraState(g0, g.grid, g.width, start, goal, nodesToCheck.Contents(), distanceToEnd)
    requires Settled(g.grid, g.width, start, NoEstimate(|g.grid|), nodesToCheck.Contents(), current, AllDirections,
                     g.grid[goal].costToStart)
    requires current < |g.grid| && Reached(g.grid, start, current) && nodesToCheck.Valid()
    modifies g, nodesToCheck
    ensures g.width == old(g.width) && g.height == old(g.height) && nodesToCheck.Valid()
    ensures DijkstraState(g0, g.grid, g.width, start, goal, nodesToCheck.Contents(), distanceToEnd)
    ensures Settled(g.grid, g.width, start, NoEstimate(|g.grid|), nodesToCheck.Contents(), -1, {}, g.grid[goal].costToStart)
    ensures 2 * TotalCost(g.grid) + |nodesToCheck.Contents()| <= 2 * TotalCost(old(g.grid)) + |old(nodesToCheck.Contents())|
  {
    DijkstraRelax(g, current, Right, nodesToCheck, distanceToEnd, g0, start, goal, AllDirections);
    DijkstraRelax(g, current, Left, nodesToCheck, distanceToEnd, g0, start, goal, {Left, Up, Down});
    DijkstraRelax(g, current, Up, nodesToCheck, distanceToEnd, g0, start, goal, {Up, Down});
    DijkstraRelax(g, current, Down, nodesToCheck, distanceToEnd, g0, start, goal, {Down});
    ExpansionKeepsSettled(g.grid, g.width, start, NoEstimate(|g.grid|), nodesToCheck.Contents(), current, g.grid[goal].costToStart);
  }

  /** Taking the front entry off Dijkstra's queue, and recording the goal's cost when it is the goal. */
  lemma DijkstraDequeueKeeps(g0: seq<Node>, g: seq<Node>, w: int, start: int, goal: int,
                             queue: seq<Entry<nat>>, distanceToEnd: int)
    requires DijkstraState(g0, g, w, start, goal, queue, distanceToEnd) && queue != []
    ensures var current := queue[0].value;
      && current < |g| && Reached(g, start, current)
      && DijkstraState(g0, g, w, start, goal, queue[1..],
                       if current == goal then g[goal].costToStart else distanceToEnd)
  {
    DequeueKeepsQueued(g, start, queue);
  }

  /**
   * A drained queue leaves distanceToEnd at the goal's cost, and that cost
   * is the least travel cost of any walk from the start to the goal.
   */
  lemma DijkstraDrained(g0: seq<Node>, g: seq<Node>, w: int, start: int, goal: int, distanceToEnd: int)
    requires DijkstraState(g0, g, w, start, goal, [], distanceToEnd)
    requires Settled(g, w, start, NoEstimate(|g|), [], -1, {}, g[goal].costToStart)
    ensures distanceToEnd == g[goal].costToStart
    ensures forall walk | OpenWalk(g, w, walk) && walk[0] == start && walk[|walk| - 1] == goal ::
      distanceToEnd <= WalkCost(g, walk)
  {
    NoEstimateConsistent(g, w);
    forall walk | OpenWalk(g, w, walk) && walk[0] == start && walk[|walk| - 1] == goal
      ensures distanceToEnd <= WalkCost(g, walk)
    {
      SettledBoundsWalk(g, w, start, NoEstimate(|g|), [], g[goal].costToStart, walk);
    }
  }

  /**
   * DijkstraSearch(start, end): the start gets cost 0 and is queued; each
   * dequeued node records its cost in distanceToEnd when it is the goal and
   * has its four neighbours checked, until the queue is empty. Then the
   * path is followed from the goal back along PathfindingNode; an
   * unreached goal is a null dereference. `distanceToEnd` is handed back
   * so that its final value can be stated.
   */
  method DijkstraSearch(g: NodeGrid, start: nat, goal: nat) returns (result: SearchResult, distanceToEnd: int)
    requires WellLinked(g.grid, g.width) && PositiveCosts(g.grid) && Reset(g.grid)
    requires start < |g.grid| && goal < |g.grid|
    modifies g
    ensures g.width == old(g.width) && g.height == old(g.height)
    ensures OnlySearchStateChanged(old(g.grid), g.grid) && CostsDescend(g.grid, start)
    ensures !result.NoPath?
    ensures result.NullReference? <==> !Reached(g.grid, start, goal)
    ensures distanceToEnd == g.grid[goal].costToStart
    ensures !Reached(g.grid, start, goal) ==> distanceToEnd == Unreached
    ensures forall walk | OpenWalk(g.grid, g.width, walk) && walk[0] == start && walk[|walk| - 1] == goal ::
      distanceToEnd <= WalkCost(g.grid, walk)
    ensures (exists walk | OpenWalk(g.grid, g.width, walk) && walk[0] == start && walk[|walk| - 1] == goal ::
               WalkCost(g.grid, walk) < Unreached) ==> result.PathFound?
    ensures result.PathFound? ==>
      RouteFrom(g.grid, g.width, start, goal, result.path) && RouteCost(g.grid, result.path) <= distanceToEnd
  {
    ghost var g0 := g.grid;
    StartRelaxing(g.grid, g.width, start, goal);
    StartSettled(g.grid, g.width, start, NoEstimate(|g.grid|), if goal == start then 0 else Unreached);
    g.grid := g.grid[start := g.grid[start].(costToStart := 0)];
    distanceToEnd := Unreached;
    var nodesToCheck := new PriorityQueue<nat>();
    nodesToCheck.Enqueue(start, 0);
    TotalCostNonNegative(g.grid);
    while nodesToCheck.Count > 0
      invariant nodesToCheck.Valid() && g.width == old(g.width) && g.height == old(g.height)
      invariant DijkstraState(g0, g.grid, g.width, start, goal, nodesToCheck.Contents(), distanceToEnd)
      invariant Settled(g.grid, g.width, start, NoEstimate(|g.grid|), nodesToCheck.Contents(), -1, {}, g.grid[goal].costToStart)
      invariant TotalCost(g.grid) >= 0
      decreases 2 * TotalCost(g.grid) + |nodesToCheck.Contents()|
    {
      DijkstraDequeueKeeps(g0, g.grid, g.width, start, goal, nodesToCheck.Contents(), distanceToEnd);
      DequeueKeepsSettled(g.grid, g.width, start, NoEstimate(|g.grid|), nodesToCheck.Contents(), g.grid[goal].costToStart);
      var item := nodesToCheck.Dequeue();
      var currentNode := item.value;
      if currentNode == goal {
        distanceToEnd := g.grid[currentNode].costToStart;
      }
      DijkstraExpand(g, currentNode, nodesToCheck, distanceToEnd, g0, start, goal);
      TotalCostNonNegative(g.grid);
    }
    DijkstraDrained(g0, g.grid, g.width, start, goal, distanceToEnd);
    CostForestIsForest(g.grid, g.width, start);
    result := TraceToStart(g.grid, g.width, start, goal, Ranks(g.grid));
    if result.PathFound? {
      RouteCostBound(g.grid, g.width, start, goal, result.path);
    }
  }

  // ---------------------------------------------------------------- A*

  /** The Manhattan distance from each node's own position to `end`, as AStar estimates it. */
  ghost function Estimates(g: seq<Node>, end: NodePoint): (h: seq<int>)
    ensures |h| == |g| && forall k | 0 <= k < |g| :: h[k] >= 0
  {
    seq(|g|, k requires 0 <= k < |g| => if g[k].thisNode.Some? then Heuristic(g[k].thisNode.value, end) else 0)
  }

  /**
   * On a laid-out grid the point a connected edge holds is the position of
   * the node it leads to, one cell away: the estimate AStarNodeCheck
   * computes from the edge is that node's estimate, and it is at most one
   * below the estimate of the node the edge leaves.
   */
  lemma EdgeEstimate(g0: seq<Node>, g: seq<Node>, w: int, ht: int, end: NodePoint, n: int, d: Direction)
    requires LaidOut(g0, w, ht) && OnlySearchStateChanged(g0, g) && 0 <= n < |g| && Target(g[n], d, w).Some?
    ensures var b := Target(g[n], d, w).value; var h := Estimates(g0, end);
      && 0 <= b < |g| && Heuristic(Edge(g[n], d).value, end) == h[b]
      && h[n] <= 1 + h[b]
  {
    Coordinates(n, w, ht);
    var x, y := n % w, n / w;
    assert g0[Index(x, y, w)] == Placed(g0[Index(x, y, w)], x, y, w, ht);
    assert Edge(g[n], d) == Edge(g0[n], d);
    var p := Edge(g0[n], d).value;
    assert 0 <= p.x < w && 0 <= p.y < ht && Abs(p.x - x) + Abs(p.y - y) == 1;
    assert g0[Index(p.x, p.y, w)] == Placed(g0[Index(p.x, p.y, w)], p.x, p.y, w, ht);
  }

  /** With travel costs of at least 1, the Manhattan estimate of a laid-out grid is consistent. */
  lemma ManhattanConsistent(g0: seq<Node>, g: seq<Node>, w: int, ht: int, end: NodePoint)
    requires LaidOut(g0, w, ht) && OnlySearchStateChanged(g0, g) && PositiveCosts(g)
    ensures Consistent(g, w, Estimates(g0, end))
  {
    var h := Estimates(g0, end);
    forall a, d | 0 <= a < |g| && Target(g[a], d, w).Some?
      ensures var t := Target(g[a], d, w).value; 0 <= t < |g| && g[t].traversable ==> h[a] <= g[t].travelCost + h[t]
    {
      EdgeEstimate(g0, g, w, ht, end, a, d);
    }
  }

  /**
   * The invariant of AStar: the shared one, a reached goal is still
   * queued, and no entry of the goal has a priority below its cost.
   */
  ghost predicate AStarState(g0: seq<Node>, g: seq<Node>, w: int, start: int, goal: int, queue: seq<Entry<nat>>) {
    && Relaxing(g0, g, w, start, goal, queue)
    && (Reached(g, start, goal) ==> Queued(queue, goal))
    && (forall e | e in queue && e.value == goal :: g[goal].costToStart <= e.priority)
  }

  /**
   * AStarNodeCheck: when edge `d` of the current node is connected and
   * leads to a traversable node whose cost through the current node is
   * lower than its CostToStart, that node takes the lower cost and the
   * current node as PathfindingNode and is queued at its new cost plus the
   * Manhattan distance from the edge's point to `end`; otherwise nothing
   * changes.
   */
  method AStarNodeCheck(g: NodeGrid, current: nat, d: Direction, nodesToCheck: PriorityQueue<nat>, end: NodePoint)
    requires current < |g.grid| && Linked(g.grid[current], d, g.width, |g.grid|) && nodesToCheck.Valid()
    modifies g, nodesToCheck
    ensures g.width == old(g.width) && g.height == old(g.height) && nodesToCheck.Valid()
    ensures if Improves(old(g.grid), g.width, current, d) then
        var b := Target(old(g.grid)[current], d, g.width).value;
        var estimate := Heuristic(Edge(old(g.grid)[current], d).value, end);
        && g.grid == Relax(old(g.grid), current, b)
        && nodesToCheck.Contents() == InsertSorted(old(nodesToCheck.Contents()), Entry(b, g.grid[b].costToStart + estimate))
      else
        g.grid == old(g.grid) && nodesToCheck.Contents() == old(nodesToCheck.Contents())
  {
    var check := Edge(g.grid[current], d).value;
    if check.connected {
      var b := PointIndex(check, g.width);
      var checking := g.grid[b];
      if checking.traversable && checking.travelCost + g.grid[current].costToStart < checking.costToStart {
        g.grid := g.grid[b := checking.(costToStart := g.grid[current].costToStart + checking.travelCost)];
        g.grid := g.grid[b := g.grid[b].(pathfindingNode := Some(current))];
        nodesToCheck.Enqueue(b, g.grid[b].costToStart + Heuristic(check, end));
      }
    }
  }

  /** An A* neighbour check keeps the invariant, relaxes its edge and does not raise the measure. */
  lemma AStarCheckKeeps(g0: seq<Node>, g: seq<Node>, w: int, ht: int, start: int, goal: int, end: NodePoint,
                        queue: seq<Entry<nat>>, n: nat, d: Direction, todo: set<Direction>, priority: int,
                        g': seq<Node>, queue': seq<Entry<nat>>)
    requires AStarState(g0, g, w, start, goal, queue) && n < |g| && Reached(g, start, n)
    requires LaidOut(g0, w, ht) && Settled(g, w, start, Estimates(g0, end), queue, n, todo, Unreached)
    requires if Improves(g, w, n, d) then
        var b := Target(g[n], d, w).value;
        && priority == CostThrough(g, n, b) + Heuristic(Edge(g[n], d).value, end)
        && g' == Relax(g, n, b) && queue' == InsertSorted(queue, Entry(b, priority))
      else
        g' == g && queue' == queue
    ensures AStarState(g0, g', w, start, goal, queue') && Reached(g', start, n)
    ensures Settled(g', w, start, Estimates(g0, end), queue', n, todo - {d}, Unreached)
    ensures 2 * TotalCost(g') + |queue'| <= 2 * TotalCost(g) + |queue|
  {
    if Improves(g, w, n, d) {
      var b := Target(g[n], d, w).value;
      RelaxKeepsRelaxing(g0, g, w, start, goal, queue, n, d, priority);
      EdgeEstimate(g0, g, w, ht, end, n, d);
      RelaxKeepsSettled(g, w, start, Estimates(g0, end), queue, n, d, todo, priority, Unreached, Unreached);
      InsertSortedAdds(queue, Entry(b, priority));
      forall e | e in queue' && e.value == goal
        ensures g'[goal].costToStart <= e.priority
      {
        assert e in multiset(queue');
        if e != Entry(b, priority) {
          assert e in multiset(queue);
        }
      }
    } else {
      assert Linked(g[n], d, w, |g|);
      SkipKeepsSettled(g, w, start, Estimates(g0, end), queue, n, d, todo, Unreached);
    }
  }

  /** AStarNodeCheck inside the search: the invariant is kept, the edge relaxed, and the measure does not rise. */
  method AStarRelax(g: NodeGrid, current: nat, d: Direction, nodesToCheck: PriorityQueue<nat>, end: NodePoint,
                    ghost g0: seq<Node>, ghost ht: int, ghost start: nat, ghost goal: nat, ghost todo: set<Direction>)
    requires AStarState(g0, g.grid, g.width, start, goal, nodesToCheck.Contents()) && LaidOut(g0, g.width, ht)
    requires Settled(g.grid, g.width, start, Estimates(g0, end), nodesToCheck.Contents(), current, todo, Unreached)
    requires current < |g.grid| && Reached(g.grid, start, current) && nodesToCheck.Valid()
    modifies g, nodesToCheck
    ensures g.width == old(g.width) && g.height == old(g.height) && nodesToCheck.Valid()
    ensures AStarState(g0, g.grid, g.width, start, goal, nodesToCheck.Contents())
    ensures Settled(g.grid, g.width, start, Estimates(g0, end), nodesToCheck.Contents(), current, todo - {d}, Unreached)
    ensures Reached(g.grid, start, current)
    ensures 2 * TotalCost(g.grid) + |nodesToCheck.Contents()| <= 2 * TotalCost(old(g.grid)) + |old(nodesToCheck.Contents())|
  {
    ghost var before, queued := g.grid, nodesToCheck.Contents();
    assert Linked(g.grid[current], d, g.width, |g.grid|);
    AStarNodeCheck(g, current, d, nodesToCheck, end);
    ghost var priority := if Improves(before, g.width, current, d)
      then g.grid[Target(before[current], d, g.width).value].costToStart + Heuristic(Edge(before[current], d).value, end)
      else 0;
    AStarCheckKeeps(g0, before, g.width, ht, start, goal, end, queued, current, d, todo, priority,
                    g.grid, nodesToCheck.Contents());
  }

  /** The four neighbour checks of one A* step: Right, Left, Up, Down. */
  method AStarExpand(g: NodeGrid, current: nat, nodesToCheck: PriorityQueue<nat>, end: NodePoint,
                     ghost g0: seq<Node>, ghost ht: int, ghost start: nat, ghost goal: nat)
    requires AStarState(g0, g.grid, g.width, start, goal, nodesToCheck.Contents()) && LaidOut(g0, g.width, ht)
    requires Settled(g.grid, g.width, start, Estimates(g0, end), nodesToCheck.Contents(), current, AllDirections, Unreached)
    requires current < |g.grid| && Reached(g.grid, start, current) && nodesToCheck.Valid()
    modifies g, nodesToCheck
    ensures g.width == old(g.width) && g.height == old(g.height) && nodesToCheck.Valid()
    ensures AStarState(g0, g.grid, g.width, start, goal, nodesToCheck.Contents())
    ensures Settled(g.grid, g.width, start, Estimates(g0, end), nodesToCheck.Contents(), -1, {}, Unreached)
    ensures 2 * TotalCost(g.grid) + |nodesToCheck.Contents()| <= 2 * TotalCost(old(g.grid)) + |old(nodesToCheck.Contents())|
  {
    AStarRelax(g, current, Right, nodesToCheck, end, g0, ht, start, goal, AllDirections);
    AStarRelax(g, current, Left, nodesToCheck, end, g0, ht, start, goal, {Left, Up, Down});
    AStarRelax(g, current, Up, nodesToCheck, end, g0, ht, start, goal, {Up, Down});
    AStarRelax(g, current, Down, nodesToCheck, end, g0, ht, start, goal, {Down});
    ExpansionKeepsSettled(g.grid, g.width, start, Estimates(g0, end), nodesToCheck.Contents(), current, Unreached);
  }

  /** Taking the front entry off A*'s queue: it is reached, and unless it is the goal the invariant holds for the rest. */
  lemma AStarDequeueKeeps(g0: seq<Node>, g: seq<Node>, w: int, start: int, goal: int, queue: seq<Entry<nat>>)
    requires AStarState(g0, g, w, start, goal, queue) && queue != []
    ensures queue[0].value < |g| && Reached(g, start, queue[0].value)
    ensures queue[0].value != goal ==> AStarState(g0, g, w, start, goal, queue[1..])
  {
    DequeueKeepsQueued(g, start, queue);
  }

  /**
   * When the goal comes off the front of the queue, its cost is the least
   * travel cost of any walk from the start to it: every entry's priority
   * is at least the dequeued one, and the consistent estimate is 0 at the
   * goal.
   */
  lemma AStarGoalIsCheapest(g0: seq<Node>, g: seq<Node>, w: int, ht: int, start: int, goal: int, end: NodePoint,
                            queue: seq<Entry<nat>>, rest: seq<Entry<nat>>)
    requires AStarState(g0, g, w, start, goal, queue) && LaidOut(g0, w, ht) && Estimates(g0, end)[goal] == 0
    requires Settled(g, w, start, Estimates(g0, end), queue, -1, {}, Unreached)
    requires queue != [] && queue[0].value == goal && rest == queue[1..]
    requires forall i | 0 <= i < |rest| :: queue[0].priority <= rest[i].priority
    ensures forall walk | OpenWalk(g, w, walk) && walk[0] == start && walk[|walk| - 1] == goal ::
      g[goal].costToStart <= WalkCost(g, walk)
  {
    var h := Estimates(g0, end);
    ManhattanConsistent(g0, g, w, ht, end);
    assert queue[0] in queue;
    forall walk | OpenWalk(g, w, walk) && walk[0] == start && walk[|walk| - 1] == goal
      ensures g[goal].costToStart <= WalkCost(g, walk)
    {
      SettledBoundsWalk(g, w, start, h, queue, Unreached, walk);
      if e :| e in queue && e.priority <= WalkCost(g, walk) + h[goal] {
        var i :| 0 <= i < |queue| && queue[i] == e;
        if i > 0 {
          assert rest[i - 1] == e;
        }
      }
    }
  }

  /** With the queue empty, A*'s invariant says the goal was never reached, and no walk to it costs less than int.MaxValue. */
  lemma AStarExhausted(g0: seq<Node>, g: seq<Node>, w: int, ht: int, start: int, goal: int, end: NodePoint)
    requires AStarState(g0, g, w, start, goal, []) && LaidOut(g0, w, ht)
    requires Settled(g, w, start, Estimates(g0, end), [], -1, {}, Unreached)
    ensures !Reached(g, start, goal)
    ensures forall walk | OpenWalk(g, w, walk) && walk[0] == start && walk[|walk| - 1] == goal ::
      Unreached <= WalkCost(g, walk)
  {
    ManhattanConsistent(g0, g, w, ht, end);
    forall walk | OpenWalk(g, w, walk) && walk[0] == start && walk[|walk| - 1] == goal
      ensures Unreached <= WalkCost(g, walk)
    {
      SettledBoundsWalk(g, w, start, Estimates(g0, end), [], Unreached, walk);
    }
  }

  /**
   * AStar(start, end): the start gets cost 0 and is queued; the first
   * dequeue of the goal follows PathfindingNode back to the start and ends
   * the search; any other dequeued node has its four neighbours checked. A
   * queue that runs empty first ends the search without a path. The grid
   * is the one AlterSize lays out, so that each edge's point is the
   * position of the node it leads to.
   */
  method AStar(g: NodeGrid, start: nat, goal: nat) returns (result: SearchResult)
    requires LaidOut(g.grid, g.width, g.height) && PositiveCosts(g.grid) && Reset(g.grid)
    requires start < |g.grid| && goal < |g.grid|
    modifies g
    ensures g.width == old(g.width) && g.height == old(g.height)
    ensures OnlySearchStateChanged(old(g.grid), g.grid) && CostsDescend(g.grid, start)
    ensures !result.NullReference?
    ensures result.NoPath? ==> !Reached(g.grid, start, goal)
    ensures result.NoPath? ==> forall walk | OpenWalk(g.grid, g.width, walk) && walk[0] == start && walk[|walk| - 1] == goal ::
      Unreached <= WalkCost(g.grid, walk)
    ensures (exists walk | OpenWalk(g.grid, g.width, walk) && walk[0] == start && walk[|walk| - 1] == goal ::
               WalkCost(g.grid, walk) < Unreached) ==> result.PathFound?
    ensures result.PathFound? ==>
      RouteFrom(g.grid, g.width, start, goal, result.path) && RouteCost(g.grid, result.path) <= g.grid[goal].costToStart
    ensures result.PathFound? ==> forall walk | OpenWalk(g.grid, g.width, walk) && walk[0] == start && walk[|walk| - 1] == goal ::
      RouteCost(g.grid, result.path) <= WalkCost(g.grid, walk)
  {
    ghost var g0 := g.grid;
    LaidOutIsWellLinked(g.grid, g.width, g.height);
    assert Linked(g.grid[goal], Left, g.width, |g.grid|);
    var end := g.grid[goal].thisNode.value;
    StartRelaxing(g.grid, g.width, start, goal);
    StartSettled(g.grid, g.width, start, Estimates(g0, end), Unreached);
    g.grid := g.grid[start := g.grid[start].(costToStart := 0)];
    var nodesToCheck := new PriorityQueue<nat>();
    nodesToCheck.Enqueue(start, 0);
    TotalCostNonNegative(g.grid);
    result := NoPath;
    while nodesToCheck.Count > 0
      invariant nodesToCheck.Valid() && g.width == old(g.width) && g.height == old(g.height)
      invariant AStarState(g0, g.grid, g.width, start, goal, nodesToCheck.Contents())
      invariant LaidOut(g0, g.width, g.height) && Estimates(g0, end)[goal] == 0
      invariant Settled(g.grid, g.width, start, Estimates(g0, end), nodesToCheck.Contents(), -1, {}, Unreached)
      invariant TotalCost(g.grid) >= 0 && result == NoPath
      decreases 2 * TotalCost(g.grid) + |nodesToCheck.Contents()|
    {
      ghost var queued := nodesToCheck.Contents();
      AStarDequeueKeeps(g0, g.grid, g.width, start, goal, queued);
      DequeueKeepsSettled(g.grid, g.width, start, Estimates(g0, end), queued, Unreached);
      var item := nodesToCheck.Dequeue();
      var currentNode := item.value;
      if currentNode == goal {
        AStarGoalIsCheapest(g0, g.grid, g.width, g.height, start, goal, end, queued, nodesToCheck.Contents());
        CostForestIsForest(g.grid, g.width, start);
        result := TraceToStart(g.grid, g.width, start, goal, Ranks(g.grid));
        if result.PathFound? {
          RouteCostBound(g.grid, g.width, start, goal, result.path);
        }
        break;
      }
      AStarExpand(g, currentNode, nodesToCheck, end, g0, g.height, start, goal);
      TotalCostNonNegative(g.grid);
    }
    CostForestIsForest(g.grid, g.width, start);
    if result.NoPath? {
      AStarExhausted(g0, g.grid, g.width, g.height, start, goal, end);
    }
  }
}
