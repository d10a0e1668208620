/**
 * The state the four searches of NodeGrid.cs share: each node's predecessor
 * (PathfindingNode, held as a list position) and CostToStart, the edges a
 * search follows, and the reconstruction of a path from the predecessors.
 */
module SearchState {
  import opened Wrappers
  import opened Nodes
  import opened GridIndex
  import opened Grid

  /**
   * How a search run ends. `PathFound(path)` lists the nodes from the goal
   * back to the start, following PathfindingNode; `NoPath` is a frontier
   * that ran empty without reaching the goal; `NullReference` is a run that
   * dereferences a null PathfindingNode while reconstructing the path.
   */
  datatype SearchResult = PathFound(path: seq<nat>) | NoPath | NullReference

  /** The list position GetNode(edge) reads for the edge of `n` in direction `d`, when that edge is connected. */
  function Target(n: Node, d: Direction, w: int): Option<int> {
    if Edge(n, d).Some? && Edge(n, d).value.connected then Some(PointIndex(Edge(n, d).value, w)) else None
  }

  /** A node whose position and edge `d` are assigned, the edge leading into a list of `size` nodes when connected. */
  ghost predicate Linked(n: Node, d: Direction, w: int, size: int) {
    && n.thisNode.Some? && Edge(n, d).Some?
    && (Target(n, d, w).Some? ==> 0 <= Target(n, d, w).value < size)
  }

  /** What the searches dereference without checking: every node's position and edges, and the nodes the connected edges lead to. */
  ghost predicate WellLinked(g: seq<Node>, w: int) {
    forall k, d | 0 <= k < |g| :: Linked(g[k], d, w, |g|)
  }

  /** Some edge of node `a` leads to node `b`. */
  ghost predicate StepsTo(g: seq<Node>, w: int, a: int, b: int) {
    0 <= a < |g| && exists d :: Target(g[a], d, w) == Some(b)
  }

  /**
   * After AlterSize the grid is well linked, and each connected edge leads
   * to the node one cell away in that direction.
   */
  lemma LaidOutIsWellLinked(g: seq<Node>, w: int, h: int)
    requires LaidOut(g, w, h)
    ensures WellLinked(g, w)
    ensures forall k, d | 0 <= k < |g| && Target(g[k], d, w).Some? :: LeadsToNeighbour(g, w, k, d)
  {
    forall k, d | 0 <= k < |g|
      ensures Linked(g[k], d, w, |g|)
      ensures Target(g[k], d, w).Some? ==> LeadsToNeighbour(g, w, k, d)
    {
      Coordinates(k, w, h);
      var x, y := k % w, k / w;
      assert g[k] == Placed(g[k], x, y, w, h);
      if d == Left && x > 0 {
        IndexInRange(x - 1, y, w, h);
      } else if d == Right && x < w - 1 {
        IndexInRange(x + 1, y, w, h);
      } else if d == Up && y > 0 {
        IndexInRange(x, y - 1, w, h);
      } else if d == Down && y < h - 1 {
        IndexInRange(x, y + 1, w, h);
      }
    }
  }

  /** The connected edge `d` of node k leads to the node one cell away from k in direction `d`. */
  ghost predicate LeadsToNeighbour(g: seq<Node>, w: int, k: int, d: Direction)
    requires 0 <= k < |g| && Target(g[k], d, w).Some?
  {
    var t := Target(g[k], d, w).value;
    && 0 <= t < |g| && g[k].thisNode.Some? && g[t].thisNode.Some?
    && g[t].thisNode.value.connected
    && Adjacent(g[k].thisNode.value, g[t].thisNode.value, d)
  }

  /** Point `b` is one cell from `a` in direction `d` (y grows downwards). */
  ghost predicate Adjacent(a: NodePoint, b: NodePoint, d: Direction) {
    match d
    case Left => b.x == a.x - 1 && b.y == a.y
    case Right => b.x == a.x + 1 && b.y == a.y
    case Up => b.x == a.x && b.y == a.y - 1
    case Down => b.x == a.x && b.y == a.y + 1
  }

  /** The transient state as the reset loop leaves it. */
  ghost predicate Reset(g: seq<Node>) {
    forall k | 0 <= k < |g| :: g[k].pathfindingNode == None && g[k].costToStart == Unreached
  }

  /**
   * The reset of the search state leaves what every search demands: no node
   * has a predecessor or a known cost, and the edges are those of before.
   */
  lemma ClearedIsReset(g: seq<Node>, g': seq<Node>, w: int)
    requires |g'| == |g| && forall k | 0 <= k < |g| :: g'[k] == ClearSearchState(g[k])
    ensures Reset(g')
    ensures forall k, d | 0 <= k < |g| :: Target(g'[k], d, w) == Target(g[k], d, w)
    ensures WellLinked(g, w) ==> WellLinked(g', w)
  {
    forall k, d | 0 <= k < |g|
      ensures Target(g'[k], d, w) == Target(g[k], d, w)
    {
      assert Edge(g'[k], d) == Edge(g[k], d);
    }
    if WellLinked(g, w) {
      forall k, d | 0 <= k < |g'|
        ensures Linked(g'[k], d, w, |g'|)
      {
        assert Linked(g[k], d, w, |g|);
        assert Edge(g'[k], d) == Edge(g[k], d);
      }
    }
  }

  /** The start, or a node some search step has claimed. */
  ghost predicate Reached(g: seq<Node>, start: int, k: int) {
    0 <= k < |g| && (k == start || g[k].pathfindingNode.Some?)
  }

  /** The number of nodes with no predecessor. */
  function CountUnclaimed(g: seq<Node>): (c: nat)
    ensures c <= |g|
  {
    if g == [] then 0
    else (if g[0].pathfindingNode == None then 1 else 0) + CountUnclaimed(g[1..])
  }

  /** Giving a predecessor to a node that had none leaves one unclaimed node fewer. */
  lemma {:induction false} ClaimCountsDown(g: seq<Node>, k: int, n: Node)
    requires 0 <= k < |g| && g[k].pathfindingNode == None && n.pathfindingNode.Some?
    ensures CountUnclaimed(g[k := n]) == CountUnclaimed(g) - 1
  {
    if k > 0 {
      assert g[k := n][1..] == g[1..][k - 1 := n];
      ClaimCountsDown(g[1..], k - 1, n);
    } else {
      assert g[k := n][1..] == g[1..];
    }
  }

  /**
   * How node k was claimed: its predecessor is itself reached, ranks below
   * it, owns an edge leading to it, and k is traversable.
   */
  ghost predicate ClaimedBy(g: seq<Node>, w: int, start: int, rank: seq<nat>, k: int)
    requires 0 <= k < |g| == |rank| && g[k].pathfindingNode.Some?
  {
    var p := g[k].pathfindingNode.value;
    && p < |g| && Reached(g, start, p) && rank[p] < rank[k]
    && StepsTo(g, w, p, k) && g[k].traversable
  }

  /**
   * The predecessors of all claimed nodes other than the start form chains
   * that end at the start; `rank` strictly decreases along each chain.
   */
  ghost predicate PredecessorForest(g: seq<Node>, w: int, start: int, rank: seq<nat>) {
    && |rank| == |g| && 0 <= start < |g|
    && (forall k | 0 <= k < |g| && g[k].pathfindingNode.Some? :: g[k].pathfindingNode.value < |g|)
    && (forall k | 0 <= k < |g| && k != start && g[k].pathfindingNode.Some? :: ClaimedBy(g, w, start, rank, k))
  }

  /**
   * `p` leads from `goal` back to `start` along PathfindingNode: each node
   * but the last names the next as predecessor, the predecessor's edge leads
   * to it, it is traversable, and no node repeats.
   */
  ghost predicate RouteFrom(g: seq<Node>, w: int, start: int, goal: int, p: seq<nat>) {
    && |p| >= 1 && p[0] == goal && p[|p| - 1] == start
    && (forall i | 0 <= i < |p| :: p[i] < |g|)
    && (forall i | 0 <= i < |p| - 1 ::
          g[p[i]].pathfindingNode == Some(p[i + 1]) && StepsTo(g, w, p[i + 1], p[i]) && g[p[i]].traversable)
    && (forall i, j | 0 <= i < j < |p| :: p[i] != p[j])
  }

  /**
   * The reconstruction loop of the searches: from node `from`, follow
   * PathfindingNode until the start. It dereferences a null predecessor
   * exactly when `from` was never reached.
   */
  method TraceToStart(g: seq<Node>, w: int, start: nat, from: nat, ghost rank: seq<nat>) returns (r: SearchResult)
    requires PredecessorForest(g, w, start, rank) && from < |g|
    ensures !r.NoPath?
    ensures r.NullReference? <==> !Reached(g, start, from)
    ensures r.PathFound? ==> RouteFrom(g, w, start, from, r.path) && RankDescends(rank, r.path)
  {
    var path: seq<nat> := [from];
    var n: nat := from;
    while n != start
      invariant PartialRoute(g, w, rank, path) && path[0] == from && path[|path| - 1] == n
      invariant |path| > 1 ==> Reached(g, start, from) && Reached(g, start, n)
      decreases rank[n]
    {
      var p := g[n].pathfindingNode;
      if p.None? {
        return NullReference;
      }
      PredecessorOf(g, w, start, rank, n);
      StepBack(g, w, rank, path, p.value);
      n := p.value;
      path := path + [n];
    }
    RouteComplete(g, w, start, rank, path);
    r := PathFound(path);
  }

  /**
   * A route under construction: its nodes name each other as predecessors
   * along edges into traversable nodes, with strictly decreasing rank.
   */
  ghost predicate PartialRoute(g: seq<Node>, w: int, rank: seq<nat>, p: seq<nat>) {
    && |p| >= 1 && |rank| == |g|
    && (forall i | 0 <= i < |p| :: p[i] < |g|)
    && (forall i | 0 <= i < |p| - 1 ::
          g[p[i]].pathfindingNode == Some(p[i + 1]) && StepsTo(g, w, p[i + 1], p[i]) && g[p[i]].traversable)
    && RankDescends(rank, p)
  }

  /** A claimed node other than the start names a reached predecessor of lower rank, one edge away. */
  lemma PredecessorOf(g: seq<Node>, w: int, start: nat, rank: seq<nat>, n: nat)
    requires PredecessorForest(g, w, start, rank) && n < |g| && n != start && g[n].pathfindingNode.Some?
    ensures var q := g[n].pathfindingNode.value;
      && q < |g| && Reached(g, start, q) && rank[q] < rank[n] && StepsTo(g, w, q, n) && g[n].traversable
  {
    assert ClaimedBy(g, w, start, rank, n);
  }

  /** Following the predecessor of a route's last node one edge back, to a lower rank, extends the route. */
  lemma StepBack(g: seq<Node>, w: int, rank: seq<nat>, p: seq<nat>, q: nat)
    requires PartialRoute(g, w, rank, p) && q < |g|
    requires var n := p[|p| - 1];
      g[n].pathfindingNode == Some(q) && StepsTo(g, w, q, n) && g[n].traversable && rank[q] < rank[n]
    ensures PartialRoute(g, w, rank, p + [q])
  {
    var n := p[|p| - 1];
    var p' := p + [q];
    assert forall i | 0 <= i < |p| :: p'[i] == p[i];
    forall i, j | 0 <= i < j < |p'|
      ensures p'[i] < |rank| && p'[j] < |rank| && rank[p'[i]] > rank[p'[j]]
    {
      if j == |p| {
        assert i == |p| - 1 || rank[p[i]] > rank[n];
      }
    }
  }

  /** A partial route that has arrived at the start is a route from its first node. */
  lemma RouteComplete(g: seq<Node>, w: int, start: nat, rank: seq<nat>, p: seq<nat>)
    requires PartialRoute(g, w, rank, p) && p[|p| - 1] == start
    ensures RouteFrom(g, w, start, p[0], p) && RankDescends(rank, p)
  {
  }

  /** The ranks of a route's nodes strictly decrease towards the start. */
  ghost predicate RankDescends(rank: seq<nat>, p: seq<nat>) {
    forall i, j | 0 <= i < j < |p| :: p[i] < |rank| && p[j] < |rank| && rank[p[i]] > rank[p[j]]
  }

  /**
   * The reconstruction of BreadthFirstSearch and DepthFirstSearch: step to
   * the goal's PathfindingNode first, then follow predecessors until the
   * start. A goal other than the start that was reached yields its route; a
   * goal with no predecessor (the start itself, when the start is the goal)
   * is a null dereference.
   */
  method TraceFromPredecessor(g: seq<Node>, w: int, start: nat, goal: nat, ghost rank: seq<nat>) returns (r: SearchResult)
    requires PredecessorForest(g, w, start, rank) && goal < |g|
    ensures !r.NoPath?
    ensures g[goal].pathfindingNode == None ==> r == NullReference
    ensures goal != start && Reached(g, start, goal) ==>
      r.PathFound? && RouteFrom(g, w, start, goal, r.path) && |r.path| <= rank[goal] + 1
  {
    var n := g[goal].pathfindingNode;
    if n.None? {
      return NullReference;
    }
    r := TraceToStart(g, w, start, n.value, rank);
    if r.PathFound? {
      if goal != start {
        assert ClaimedBy(g, w, start, rank, goal);
        RankDescendsBound(rank, r.path);
        ghost var p := [goal] + r.path;
        forall i, j | 0 <= i < j < |p|
          ensures p[i] != p[j]
        {
          if i == 0 {
            assert p[j] == r.path[j - 1];
            assert j - 1 == 0 || rank[r.path[0]] > rank[r.path[j - 1]];
          } else {
            assert p[i] == r.path[i - 1] && p[j] == r.path[j - 1];
          }
        }
        forall i | 0 <= i < |p| - 1
          ensures g[p[i]].pathfindingNode == Some(p[i + 1]) && StepsTo(g, w, p[i + 1], p[i]) && g[p[i]].traversable
        {
          if i > 0 {
            assert p[i] == r.path[i - 1] && p[i + 1] == r.path[i];
          }
        }
      }
      r := PathFound([goal] + r.path);
    }
  }

  /** Ranks that strictly decrease along a route leave it at most its first node's rank plus one nodes. */
  lemma {:induction false} RankDescendsBound(rank: seq<nat>, p: seq<nat>)
    requires RankDescends(rank, p) && |p| >= 1 && p[0] < |rank|
    ensures |p| <= rank[p[0]] + 1
    decreases |p|
  {
    if |p| > 1 {
      var q := p[1..];
      assert RankDescends(rank, q) by {
        forall i, j | 0 <= i < j < |q|
          ensures q[i] < |rank| && q[j] < |rank| && rank[q[i]] > rank[q[j]]
        {
          assert q[i] == p[i + 1] && q[j] == p[j + 1];
          assert 0 <= i + 1 < j + 1 < |p|;
        }
      }
      RankDescendsBound(rank, q);
      assert 0 < 1 < |p| && q[0] == p[1];
    }
  }

  /** A walk over the grid: each step follows a connected edge into a traversable node. */
  ghost predicate OpenWalk(g: seq<Node>, w: int, walk: seq<int>) {
    && |walk| >= 1 && (forall i | 0 <= i < |walk| :: 0 <= walk[i] < |g|)
    && forall i | 0 <= i < |walk| - 1 :: OpenStep(g, w, walk, i)
  }

  ghost predicate OpenStep(g: seq<Node>, w: int, walk: seq<int>, i: int)
    requires 0 <= i < |walk| - 1
  {
    StepsTo(g, w, walk[i], walk[i + 1]) && 0 <= walk[i + 1] < |g| && g[walk[i + 1]].traversable
  }

  function Reverse(p: seq<nat>): (r: seq<nat>)
    ensures |r| == |p| && forall i | 0 <= i < |p| :: r[i] == p[|p| - 1 - i]
  {
    if p == [] then [] else Reverse(p[1..]) + [p[0]]
  }

  /** A reconstructed route, read from the start, is a walk from the start to the goal. */
  lemma RouteIsWalk(g: seq<Node>, w: int, start: int, goal: int, p: seq<nat>)
    requires RouteFrom(g, w, start, goal, p)
    ensures OpenWalk(g, w, Reverse(p)) && Reverse(p)[0] == start && Reverse(p)[|p| - 1] == goal
  {
    var r := Reverse(p);
    forall i | 0 <= i < |r| - 1
      ensures OpenStep(g, w, r, i)
    {
      var j := |p| - 2 - i;
      assert r[i] == p[j + 1] && r[i + 1] == p[j];
    }
  }

  /**
   * Every traversable node that a connected edge of an expanded node leads
   * to is reached; a node is expanded once it is reached and has left the
   * frontier. `pending` is the node being expanded, with the directions it
   * has not yet covered.
   */
  ghost predicate Covered(g: seq<Node>, w: int, start: int, a: int, d: Direction)
    requires 0 <= a < |g|
  {
    var t := Target(g[a], d, w);
    t.Some? ==> 0 <= t.value < |g| && (g[t.value].traversable ==> Reached(g, start, t.value))
  }

  ghost predicate ClosedExcept(g: seq<Node>, w: int, start: int, frontier: seq<nat>, pending: int, todo: set<Direction>) {
    forall a, d | 0 <= a < |g| && Reached(g, start, a) && a !in frontier && !(a == pending && d in todo) ::
      Covered(g, w, start, a, d)
  }

  /** Once the frontier is empty, every walk from the start ends at a reached node. */
  lemma {:induction false} ClosedBlocksWalks(g: seq<Node>, w: int, start: int, walk: seq<int>)
    requires 0 <= start < |g| && ClosedExcept(g, w, start, [], -1, {})
    requires OpenWalk(g, w, walk) && walk[0] == start
    ensures Reached(g, start, walk[|walk| - 1])
  {
    if |walk| > 1 {
      var prefix := walk[..|walk| - 1];
      assert OpenWalk(g, w, prefix) by {
        forall i | 0 <= i < |prefix| - 1
          ensures OpenStep(g, w, prefix, i)
        {
          assert OpenStep(g, w, walk, i);
        }
      }
      ClosedBlocksWalks(g, w, start, prefix);
      var a, b := walk[|walk| - 2], walk[|walk| - 1];
      assert OpenStep(g, w, walk, |walk| - 2);
      var d :| Target(g[a], d, w) == Some(b);
      assert Covered(g, w, start, a, d);
    }
  }

  /** The travel costs of the nodes a route enters, the start excluded. */
  function RouteCost(g: seq<Node>, p: seq<nat>): int
    requires forall i | 0 <= i < |p| :: p[i] < |g|
  {
    if |p| <= 1 then 0 else g[p[0]].travelCost + RouteCost(g, p[1..])
  }

  /** The travel costs of the nodes a walk enters, its first node excluded. */
  function WalkCost(g: seq<Node>, walk: seq<int>): int
    requires forall i | 0 <= i < |walk| :: 0 <= walk[i] < |g|
  {
    if |walk| <= 1 then 0 else WalkCost(g, walk[..|walk| - 1]) + g[walk[|walk| - 1]].travelCost
  }

  /** A route read from the start is a walk of the same cost. */
  lemma {:induction false} RouteCostIsWalkCost(g: seq<Node>, p: seq<nat>)
    requires forall i | 0 <= i < |p| :: p[i] < |g|
    ensures RouteCost(g, p) == WalkCost(g, Reverse(p))
  {
    if |p| > 1 {
      RouteCostIsWalkCost(g, p[1..]);
      var r := Reverse(p);
      assert r[..|r| - 1] == Reverse(p[1..]);
    }
  }

  /**
   * Relaxation keeps each claimed node's cost at least its predecessor's
   * cost plus its own travel cost, and the start's cost is 0.
   */
  ghost predicate CostsDescend(g: seq<Node>, start: int) {
    && 0 <= start < |g| && g[start].costToStart == 0
    && forall k | 0 <= k < |g| && k != start && g[k].pathfindingNode.Some? ::
         g[k].pathfindingNode.value < |g| &&
         g[g[k].pathfindingNode.value].costToStart + g[k].travelCost <= g[k].costToStart
  }

  /** A route reconstructed after relaxation costs at most the goal's CostToStart. */
  lemma {:induction false} RouteCostBound(g: seq<Node>, w: int, start: int, goal: int, p: seq<nat>)
    requires CostsDescend(g, start) && RouteFrom(g, w, start, goal, p)
    ensures RouteCost(g, p) <= g[goal].costToStart
    decreases |p|
  {
    if |p| > 1 {
      var q := p[1..];
      assert RouteFrom(g, w, start, p[1], q) by {
        forall i | 0 <= i < |q| - 1
          ensures g[q[i]].pathfindingNode == Some(q[i + 1]) && StepsTo(g, w, q[i + 1], q[i]) && g[q[i]].traversable
        {
          assert q[i] == p[i + 1] && q[i + 1] == p[i + 2];
        }
        forall i, j | 0 <= i < j < |q|
          ensures q[i] != q[j]
        {
          assert q[i] == p[i + 1] && q[j] == p[j + 1];
        }
      }
      RouteCostBound(g, w, start, p[1], q);
      assert p[0] != start by {
        assert p[0] != p[|p| - 1];
      }
    }
  }
}
