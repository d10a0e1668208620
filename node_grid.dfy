/**
 * NodeGrid.cs, grid management: the list of nodes laid out row by row, its
 * dimensions, lookups, clearing, resizing and the reset of search state.
 */
module Grid {
  import opened Wrappers
  import opened Nodes
  import opened GridIndex

  /** The exception a List indexer throws for a position outside the list. */
  datatype GridError = IndexOutOfRange

  /** The list position GetNode(NodePoint) reads. */
  function PointIndex(p: NodePoint, w: int): int {
    Index(p.x, p.y, w)
  }

  /**
   * Node `n` as the connection pass of AlterSize leaves it at (x, y) in a
   * w-by-h grid: its own position, and an edge reference to each of the four
   * neighbouring coordinates, connected exactly when that neighbour is inside
   * the grid.
   */
  function Placed(n: Node, x: int, y: int, w: int, h: int): Node {
    n.(thisNode := Some(NewPoint(x, y)),
       left := Some(NodePoint(x - 1, y, x > 0)),
       right := Some(NodePoint(x + 1, y, x < w - 1)),
       up := Some(NodePoint(x, y - 1, y > 0)),
       down := Some(NodePoint(x, y + 1, y < h - 1)))
  }

  /** A resized grid: w * h nodes, each placed at its own coordinates. */
  ghost predicate LaidOut(g: seq<Node>, w: int, h: int) {
    && 1 <= w && 1 <= h && |g| == w * h
    && forall x, y | 0 <= x < w && 0 <= y < h ::
         0 <= Index(x, y, w) < |g| && g[Index(x, y, w)] == Placed(g[Index(x, y, w)], x, y, w, h)
  }

  /**
   * What the list and dimensions of a NodeGrid satisfy between calls: either
   * the list was cleared (or never filled) or it holds width * height nodes.
   */
  ghost predicate Sized(g: seq<Node>, w: int, h: int) {
    g == [] || (1 <= w && 1 <= h && |g| == w * h)
  }

  /**
   * The node AlterSize puts at (x, y) before connecting it: the node that was
   * at (x, y) when the old grid covers that cell, otherwise a new one.
   */
  ghost function Carried(g: seq<Node>, w: int, h: int, x: int, y: int): Node
    requires Sized(g, w, h) && 0 <= x && 0 <= y
  {
    if g != [] && x < w && y < h then
      IndexInRange(x, y, w, h);
      g[Index(x, y, w)]
    else
      NewNode()
  }

  /** The list AlterSize(nw, nh) produces from list `g` of a w-by-h grid. */
  ghost function Resized(g: seq<Node>, w: int, h: int, nw: int, nh: int): seq<Node>
    requires Sized(g, w, h)
  {
    if nw < 1 || nh < 1 then []
    else
      seq(nw * nh, k requires 0 <= k < nw * nh =>
        Coordinates(k, nw, nh);
        Placed(Carried(g, w, h, k % nw, k / nw), k % nw, k / nw, nw, nh))
  }

  /** Cell (x, y) of a resized grid is the carried node, placed at (x, y). */
  lemma ResizedCell(g: seq<Node>, w: int, h: int, nw: int, nh: int, x: int, y: int)
    requires Sized(g, w, h) && 0 <= x < nw && 0 <= y < nh
    ensures 0 <= Index(x, y, nw) < |Resized(g, w, h, nw, nh)|
    ensures Resized(g, w, h, nw, nh)[Index(x, y, nw)] == Placed(Carried(g, w, h, x, y), x, y, nw, nh)
  {
    CoordinatesOfIndex(x, y, nw, nh);
  }

  /**
   * Resizing keeps every node the old and the new grid have in common, with
   * its configuration and search state, and fills the rest with new nodes;
   * it yields nothing when a dimension is below 1.
   */
  lemma ResizedKeepsOverlap(g: seq<Node>, w: int, h: int, nw: int, nh: int, x: int, y: int)
    requires Sized(g, w, h) && 0 <= x < nw && 0 <= y < nh
    ensures 0 <= Index(x, y, nw) < |Resized(g, w, h, nw, nh)|
    ensures var n := Resized(g, w, h, nw, nh)[Index(x, y, nw)];
      if g != [] && x < w && y < h then
        0 <= Index(x, y, w) < |g| && SameSearchFields(n, g[Index(x, y, w)])
      else
        SameSearchFields(n, NewNode())
  {
    ResizedCell(g, w, h, nw, nh, x, y);
    if g != [] && x < w && y < h {
      IndexInRange(x, y, w, h);
    }
  }

  /** Two nodes agree on everything AlterSize does not assign. */
  ghost predicate SameSearchFields(a: Node, b: Node) {
    && a.traversable == b.traversable && a.travelCost == b.travelCost
    && a.pathfindingNode == b.pathfindingNode && a.costToStart == b.costToStart
  }

  /** A resize to positive dimensions yields a laid-out grid of nw * nh nodes. */
  lemma ResizedIsLaidOut(g: seq<Node>, w: int, h: int, nw: int, nh: int)
    requires Sized(g, w, h)
    ensures |Resized(g, w, h, nw, nh)| == if nw < 1 || nh < 1 then 0 else nw * nh
    ensures 1 <= nw && 1 <= nh ==> LaidOut(Resized(g, w, h, nw, nh), nw, nh)
    ensures Sized(Resized(g, w, h, nw, nh), nw, nh)
  {
    if 1 <= nw && 1 <= nh {
      forall x, y | 0 <= x < nw && 0 <= y < nh
        ensures 0 <= Index(x, y, nw) < |Resized(g, w, h, nw, nh)|
        ensures var r := Resized(g, w, h, nw, nh); r[Index(x, y, nw)] == Placed(r[Index(x, y, nw)], x, y, nw, nh)
      {
        ResizedCell(g, w, h, nw, nh, x, y);
      }
    }
  }

  /** Clearing every node's search state keeps the layout of a resized grid. */
  lemma ClearedKeepsLayout(g: seq<Node>, g': seq<Node>, w: int, h: int)
    requires |g'| == |g| && forall k | 0 <= k < |g| :: g'[k] == ClearSearchState(g[k])
    ensures LaidOut(g, w, h) ==> LaidOut(g', w, h)
    ensures Sized(g, w, h) ==> Sized(g', w, h)
  {
    if LaidOut(g, w, h) {
      forall x, y | 0 <= x < w && 0 <= y < h
        ensures 0 <= Index(x, y, w) < |g'| && g'[Index(x, y, w)] == Placed(g'[Index(x, y, w)], x, y, w, h)
      {
        assert g[Index(x, y, w)] == Placed(g[Index(x, y, w)], x, y, w, h);
      }
    }
  }

  class NodeGrid {
    /** The nodes, cell (x, y) at position x + y * width. */
    var grid: seq<Node>
    var width: int
    var height: int

    /** The serialized defaults: an empty list and both dimensions -1. */
    constructor ()
      ensures grid == [] && width == -1 && height == -1
      ensures WellSized()
    {
      grid := [];
      width := -1;
      height := -1;
    }

    /** The grid's list and dimensions are `Sized`. */
    ghost predicate WellSized()
      reads this
    {
      Sized(grid, width, height)
    }

    ghost predicate Valid()
      reads this
    {
      LaidOut(grid, width, height)
    }

    /** GetNode(x, y): the node at x + y * width, or the indexer's exception. */
    function GetNode(x: int, y: int): (r: Result<Node, GridError>)
      reads this
      ensures r.Success? <==> 0 <= Index(x, y, width) < |grid|
      ensures r.Success? ==> r.value == grid[Index(x, y, width)]
    {
      var k := Index(x, y, width);
      if 0 <= k < |grid| then Success(grid[k]) else Failure(IndexOutOfRange)
    }

    /** GetNode(NodePoint): the node at the point's coordinates. */
    function GetNodeAtPoint(p: NodePoint): (r: Result<Node, GridError>)
      reads this
      ensures r == GetNode(p.x, p.y)
    {
      var k := PointIndex(p, width);
      if 0 <= k < |grid| then Success(grid[k]) else Failure(IndexOutOfRange)
    }

    /** Count(): the number of nodes, width * height once the grid is laid out. */
    function Count(): (n: nat)
      reads this
      ensures n == |grid|
      ensures Valid() ==> n == width * height
    {
      |grid|
    }

    /** Clear(): empties the list and leaves the dimensions as they were. */
    method Clear()
      modifies this
      ensures grid == [] && width == old(width) && height == old(height)
      ensures WellSized()
    {
      grid := [];
    }

    /**
     * The reset of the search state: every node loses its PathfindingNode and
     * its CostToStart goes back to int.MaxValue; nothing else changes, so a
     * laid-out grid stays laid out.
     */
    method ResetSearchState()
      modifies this
      ensures width == old(width) && height == old(height) && |grid| == |old(grid)|
      ensures forall k | 0 <= k < |grid| :: grid[k] == ClearSearchState(old(grid)[k])
      ensures old(Valid()) ==> Valid()
      ensures old(WellSized()) ==> WellSized()
    {
      var i := 0;
      while i < |grid|
        invariant 0 <= i <= |grid| == |old(grid)|
        invariant width == old(width) && height == old(height)
        invariant forall k | 0 <= k < |grid| ::
          grid[k] == if k < i then ClearSearchState(old(grid)[k]) else old(grid)[k]
      {
        grid := grid[i := grid[i].(pathfindingNode := None)];
        grid := grid[i := grid[i].(costToStart := Unreached)];
        i := i + 1;
      }
      ClearedKeepsLayout(old(grid), grid, width, height);
    }

    /**
     * AlterSize(newWidth, newHeight): builds a list of new nodes, carries
     * over the nodes both sizes share, adopts the new dimensions and then
     * connects every node to its neighbours.
     */
    method AlterSize(newWidth: int, newHeight: int)
      requires WellSized()
      modifies this
      ensures width == newWidth && height == newHeight
      ensures grid == Resized(old(grid), old(width), old(height), newWidth, newHeight)
      ensures WellSized()
      ensures 1 <= newWidth && 1 <= newHeight ==> Valid()
    {
      var newGrid := NewNodes(newWidth, newHeight);
      if |grid| > 0 {
        newGrid := CopyShared(newGrid, newWidth, newHeight);
      }
      assert forall x, y | 0 <= x < newWidth && 0 <= y < newHeight ::
        0 <= Index(x, y, newWidth) < |newGrid| &&
        newGrid[Index(x, y, newWidth)] == Carried(grid, width, height, x, y);

      grid := newGrid;
      width := newWidth;
      height := newHeight;
      Connect(old(grid), old(width), old(height));
      ResizedIsLaidOut(old(grid), old(width), old(height), newWidth, newHeight);
    }

    /** The first loop of AlterSize: newHeight rows of newWidth new nodes. */
    method NewNodes(newWidth: int, newHeight: int) returns (newGrid: seq<Node>)
      ensures |newGrid| == if newWidth < 1 || newHeight < 1 then 0 else newWidth * newHeight
      ensures forall x, y | 0 <= x < newWidth && 0 <= y < newHeight ::
        0 <= Index(x, y, newWidth) < |newGrid| && newGrid[Index(x, y, newWidth)] == NewNode()
    {
      ghost var cols := if newWidth < 0 then 0 else newWidth;
      ghost var rows := if newHeight < 0 then 0 else newHeight;
      newGrid := [];
      var i := 0;
      while i < newHeight
        invariant 0 <= i <= rows && |newGrid| == i * cols
        invariant forall k | 0 <= k < |newGrid| :: newGrid[k] == NewNode()
      {
        var j := 0;
        while j < newWidth
          invariant 0 <= j <= cols && |newGrid| == i * cols + j
          invariant forall k | 0 <= k < |newGrid| :: newGrid[k] == NewNode()
        {
          newGrid := newGrid + [NewNode()];
          j := j + 1;
        }
        i := i + 1;
      }
      forall x, y | 0 <= x < newWidth && 0 <= y < newHeight
        ensures 0 <= Index(x, y, newWidth) < |newGrid|
      {
        IndexInRange(x, y, newWidth, newHeight);
      }
    }

    /**
     * The second loop of AlterSize: every cell (x, y) inside both the old and
     * the new dimensions receives the node GetNode(x, y) returns.
     */
    method CopyShared(blank: seq<Node>, newWidth: int, newHeight: int) returns (newGrid: seq<Node>)
      requires WellSized() && grid != []
      requires forall x, y | 0 <= x < newWidth && 0 <= y < newHeight ::
        0 <= Index(x, y, newWidth) < |blank| && blank[Index(x, y, newWidth)] == NewNode()
      ensures |newGrid| == |blank|
      ensures forall x, y | 0 <= x < newWidth && 0 <= y < newHeight ::
        0 <= Index(x, y, newWidth) < |newGrid| &&
        newGrid[Index(x, y, newWidth)] == Carried(grid, width, height, x, y)
    {
      forall x, y | 0 <= x < width && 0 <= y < height
        ensures 0 <= Index(x, y, width) < |grid|
      {
        IndexInRange(x, y, width, height);
      }
      newGrid := blank;
      var i := 0;
      while i < Min(width, newWidth)
        invariant 0 <= i && (i <= Min(width, newWidth) || i == 0)
        invariant |newGrid| == |blank|
        invariant forall x, y | 0 <= x < newWidth && 0 <= y < newHeight ::
          newGrid[Index(x, y, newWidth)] ==
            if x < i && y < Min(height, newHeight) then grid[Index(x, y, width)] else NewNode()
      {
        var j := 0;
        while j < Min(height, newHeight)
          invariant 0 <= j && (j <= Min(height, newHeight) || j == 0)
          invariant |newGrid| == |blank|
          invariant forall x, y | 0 <= x < newWidth && 0 <= y < newHeight ::
            newGrid[Index(x, y, newWidth)] ==
              if (x < i && y < Min(height, newHeight)) || (x == i && y < j) then grid[Index(x, y, width)] else NewNode()
        {
          forall x, y | 0 <= x < newWidth && 0 <= y < newHeight && (x != i || y != j)
            ensures Index(x, y, newWidth) != Index(i, j, newWidth)
          {
            if Index(x, y, newWidth) == Index(i, j, newWidth) {
              IndexInjective(x, y, i, j, newWidth);
            }
          }
          // cell (i, j) keeps its node, now at its index in the wider or narrower row layout
          newGrid := newGrid[Index(i, j, newWidth) := grid[Index(i, j, width)]];
          j := j + 1;
        }
        i := i + 1;
      }
    }

    /**
     * The connection loop of AlterSize, run once the new list and dimensions
     * are in place: every node (x, y) becomes Placed at (x, y).
     */
    method Connect(ghost g0: seq<Node>, ghost w0: int, ghost h0: int)
      requires Sized(g0, w0, h0)
      requires |grid| == if width < 1 || height < 1 then 0 else width * height
      requires forall x, y | 0 <= x < width && 0 <= y < height ::
        0 <= Index(x, y, width) < |grid| && grid[Index(x, y, width)] == Carried(g0, w0, h0, x, y)
      modifies this
      ensures width == old(width) && height == old(height)
      ensures grid == Resized(g0, w0, h0, width, height)
    {
      ghost var size := |grid|;
      var i := 0;
      while i < width
        invariant 0 <= i && (i <= width || i == 0)
        invariant width == old(width) && height == old(height) && |grid| == size
        invariant forall x, y | 0 <= x < width && 0 <= y < height ::
          grid[Index(x, y, width)] ==
            var c := Carried(g0, w0, h0, x, y);
            if x < i then Placed(c, x, y, width, height) else c
      {
        var j := 0;
        while j < height
          invariant 0 <= j && (j <= height || j == 0)
          invariant width == old(width) && height == old(height) && |grid| == size
          invariant forall x, y | 0 <= x < width && 0 <= y < height ::
            grid[Index(x, y, width)] ==
              var c := Carried(g0, w0, h0, x, y);
              if x < i || (x == i && y < j) then Placed(c, x, y, width, height) else c
        {
          forall x, y | 0 <= x < width && 0 <= y < height && (x != i || y != j)
            ensures Index(x, y, width) != Index(i, j, width)
          {
            if Index(x, y, width) == Index(i, j, width) {
              IndexInjective(x, y, i, j, width);
            }
          }
          var k := Index(i, j, width);
          var n := grid[k];
          n := n.(thisNode := Some(NewPoint(i, j)));
          var left := NewPoint(i - 1, j);
          if !(i > 0) {
            left := left.(connected := false);
          }
          n := n.(left := Some(left));
          var right := NewPoint(i + 1, j);
          if !(i < width - 1) {
            right := right.(connected := false);
          }
          n := n.(right := Some(right));
          var up := NewPoint(i, j - 1);
          if !(j > 0) {
            up := up.(connected := false);
          }
          n := n.(up := Some(up));
          var down := NewPoint(i, j + 1);
          if !(j < height - 1) {
            down := down.(connected := false);
          }
          n := n.(down := Some(down));
          grid := grid[k := n];
          j := j + 1;
        }
        i := i + 1;
      }

      ghost var r := Resized(g0, w0, h0, width, height);
      ResizedIsLaidOut(g0, w0, h0, width, height);
      forall k | 0 <= k < |grid|
        ensures grid[k] == r[k]
      {
        Coordinates(k, width, height);
        ResizedCell(g0, w0, h0, width, height, k % width, k / width);
      }
    }
  }
}
