/**
 * NodeGrid.cs, the two pure helpers of the searches: the neighbour order of
 * depth first search and the A* distance estimate.
 */
module Directions {
  import opened Nodes

  function Abs(v: int): (r: nat)
    ensures r == v || r == -v
  {
    if v < 0 then -v else v
  }

  function Opposite(d: Direction): Direction {
    match d
    case Left => Right
    case Right => Left
    case Up => Down
    case Down => Up
  }

  predicate OnXAxis(d: Direction) {
    d == Left || d == Right
  }

  /**
   * GetDirection(start, end), on the two nodes' positions: the order in
   * which depth first search prefers the four directions. The axis with the
   * strictly smaller distance comes first (ties go to the y axis); along
   * each axis a negative delta picks Left or Up, any other Right or Down;
   * the opposite directions follow in the same axis order.
   */
  function GetDirection(start: NodePoint, end: NodePoint): (order: seq<Direction>)
    ensures |order| == 4 && Left in order && Right in order && Up in order && Down in order
    ensures forall i, j | 0 <= i < j < 4 :: order[i] != order[j]
    ensures order[2] == Opposite(order[0]) && order[3] == Opposite(order[1])
    ensures OnXAxis(order[0]) <==> Abs(end.x - start.x) < Abs(end.y - start.y)
    ensures OnXAxis(order[1]) <==> !OnXAxis(order[0])
    ensures Left in order[..2] <==> end.x - start.x < 0
    ensures Up in order[..2] <==> end.y - start.y < 0
  {
    var dx, dy := end.x - start.x, end.y - start.y;
    if Abs(dx) < Abs(dy) then
      // the horizontal gap is the smaller: a horizontal step is tried first
      if dx < 0 then
        if dy < 0 then [Left, Up, Right, Down] else [Left, Down, Right, Up]
      else
        if dy < 0 then [Right, Up, Left, Down] else [Right, Down, Left, Up]
    else
      // otherwise (ties included) a vertical step is tried first
      if dy < 0 then
        if dx < 0 then [Up, Left, Down, Right] else [Up, Right, Down, Left]
      else
        if dx < 0 then [Down, Left, Up, Right] else [Down, Right, Up, Left]
  }

  /** Heuristic(a, b): the Manhattan distance between two points. */
  function Heuristic(a: NodePoint, b: NodePoint): (h: nat)
    ensures h == 0 <==> a.x == b.x && a.y == b.y
  {
    Abs(a.x - b.x) + Abs(a.y - b.y)
  }

  /**
   * The estimate changes by exactly one across a single step, so it never
   * exceeds the number of steps of a walk: with travel costs of at least 1 it
   * underestimates the cost to the goal.
   */
  lemma {:induction false} HeuristicAlongSteps(walk: seq<NodePoint>, goal: NodePoint)
    requires |walk| >= 1 && walk[|walk| - 1].x == goal.x && walk[|walk| - 1].y == goal.y
    requires forall i | 0 <= i < |walk| - 1 :: Abs(walk[i + 1].x - walk[i].x) + Abs(walk[i + 1].y - walk[i].y) == 1
    ensures Heuristic(walk[0], goal) <= |walk| - 1
  {
    if |walk| > 1 {
      HeuristicAlongSteps(walk[1..], goal);
    }
  }
}
