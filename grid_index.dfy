/**
 * The row-major layout of NodeGrid's list: cell (x, y) of a grid `w` cells
 * wide is stored at `x + y * w`.
 */
module GridIndex {

  /** The list position NodeGrid.GetNode reads for (x, y). */
  function Index(x: int, y: int, w: int): int {
    x + y * w
  }

  /** Mathf.Min on integers. */
  function Min(a: int, b: int): int {
    if a < b then a else b
  }

  lemma MulMonotone(a: int, b: int, w: int)
    requires 0 <= a <= b && 0 <= w
    ensures a * w <= b * w
  {
  }

  /** Every cell of a w-by-h grid has a position in a list of w * h nodes. */
  lemma IndexInRange(x: int, y: int, w: int, h: int)
    requires 0 <= x < w && 0 <= y < h
    ensures 0 <= Index(x, y, w) < w * h
  {
    MulMonotone(y + 1, h, w);
    MulMonotone(0, y, w);
  }

  /** Distinct cells are stored at distinct positions. */
  lemma IndexInjective(x: int, y: int, x': int, y': int, w: int)
    requires 0 <= x < w && 0 <= x' < w
    requires Index(x, y, w) == Index(x', y', w)
    ensures x == x' && y == y'
  {
    if y < y' {
      MulMonotone(y + 1, y', w);
    } else if y' < y {
      MulMonotone(y' + 1, y, w);
    }
  }

  /** Every position of a list of w * h nodes is the cell (k % w, k / w). */
  lemma Coordinates(k: int, w: int, h: int)
    requires 1 <= w && 0 <= k < w * h
    ensures 0 <= k % w < w && 0 <= k / w < h
    ensures Index(k % w, k / w, w) == k
  {
    if k / w >= h {
      MulMonotone(h, k / w, w);
    }
  }

  /** ... and the cell of position `Index(x, y, w)` is (x, y). */
  lemma CoordinatesOfIndex(x: int, y: int, w: int, h: int)
    requires 0 <= x < w && 0 <= y < h
    ensures var k := Index(x, y, w); 0 <= k < w * h && k % w == x && k / w == y
  {
    var k := Index(x, y, w);
    IndexInRange(x, y, w, h);
    Coordinates(k, w, h);
    IndexInjective(k % w, k / w, x, y, w);
  }
}
