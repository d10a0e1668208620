/**
 * Node.cs: one grid cell. Its position and four edge references are set by
 * NodeGrid.AlterSize; `traversable` and `travelCost` are configuration;
 * `pathfindingNode` and `costToStart` are the transient state a search writes.
 */
module Nodes {
  import opened Wrappers

  /** int.MaxValue, the CostToStart of a node no search has reached. */
  const Unreached: int := 0x7FFF_FFFF

  /**
   * NodePoint: a grid coordinate. As an edge reference, `connected == false`
   * marks a neighbour beyond the grid's border.
   */
  datatype NodePoint = NodePoint(x: int, y: int, connected: bool)

  /** The four edge slots of a node (GetDirection's codes 0, 1, 2 and 3). */
  datatype Direction = Left | Right | Up | Down

  /**
   * A Node record. Position and edge references are null (None) until a
   * resize assigns them; the predecessor is held as the index of that node
   * in the grid's list.
   */
  datatype Node = Node(
    thisNode: Option<NodePoint>,
    left: Option<NodePoint>,
    right: Option<NodePoint>,
    up: Option<NodePoint>,
    down: Option<NodePoint>,
    traversable: bool,
    travelCost: int,
    pathfindingNode: Option<nat>,
    costToStart: int)

  /**
   * `new Node()`: an open cell of travel cost 1, with no predecessor and the
   * Unreached cost, and with no position or edges until a resize places it.
   */
  function NewNode(): (n: Node)
    ensures n.traversable && n.travelCost == 1
    ensures n.pathfindingNode == None && n.costToStart == Unreached
    ensures n.thisNode == None && n.left == None && n.right == None && n.up == None && n.down == None
  {
    Node(None, None, None, None, None, true, 1, None, Unreached)
  }

  /** `new NodePoint(x, y)`: connected until AlterSize clears the flag. */
  function NewPoint(x: int, y: int): NodePoint {
    NodePoint(x, y, true)
  }

  /** The edge reference a node holds in direction `d`. */
  function Edge(n: Node, d: Direction): Option<NodePoint> {
    match d
    case Left => n.left
    case Right => n.right
    case Up => n.up
    case Down => n.down
  }

  /** The serialized fields agree: everything but the two transient search fields. */
  ghost predicate SameConfiguration(a: Node, b: Node) {
    && a.thisNode == b.thisNode
    && a.left == b.left && a.right == b.right && a.up == b.up && a.down == b.down
    && a.traversable == b.traversable && a.travelCost == b.travelCost
  }

  /** The reset loop's effect on one node: transient state back to its defaults. */
  function ClearSearchState(n: Node): Node {
    n.(pathfindingNode := None, costToStart := Unreached)
  }

  /**
   * The transient fields are exactly the two a search writes: clearing them
   * keeps the configuration and restores what `new Node()` starts with, and a
   * node whose transient fields are cleared is unchanged by clearing.
   */
  lemma ClearSearchStateRestoresDefaults(n: Node)
    ensures SameConfiguration(ClearSearchState(n), n)
    ensures ClearSearchState(n).pathfindingNode == NewNode().pathfindingNode
    ensures ClearSearchState(n).costToStart == NewNode().costToStart
    ensures ClearSearchState(n) == n <==> n.pathfindingNode == None && n.costToStart == Unreached
  {
  }
}
