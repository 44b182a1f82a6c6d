/** Where the plugin draws the nodes: an n-by-n lattice with `spacing` between
    neighbours and a margin of one `spacing` on every side. */
module Geometry {
  import opened Arith

  /** A centre point on the drawing surface. */
  datatype Point = Point(x: int, y: int)

  /** Side of the square canvas. */
  function CanvasSize(spacing: int, squareSize: int): int
  {
    spacing * (squareSize + 1)
  }

  /** Centre of node k: column k % n and row k / n, both counted from one. */
  function NodeCentre(spacing: int, n: nat, k: int): Point
    requires n > 0
  {
    Point(spacing * (k % n + 1), spacing * (k / n + 1))
  }

  /** Places one circle per node, rows outside and columns inside, numbering
      the nodes as it goes. */
  method LayoutNodes(spacing: int, n: nat) returns (centres: seq<Point>)
    ensures |centres| == n * n
    ensures forall k :: 0 <= k < n * n ==> centres[k] == NodeCentre(spacing, n, k)
  {
    centres := [];
    var nodeIdx := 0;
    var i := 1;
    while i <= n
      invariant 1 <= i <= n + 1
      invariant nodeIdx == (i - 1) * n == |centres|
      invariant forall k :: 0 <= k < |centres| ==> n > 0 && centres[k] == NodeCentre(spacing, n, k)
    {
      var j := 1;
      while j <= n
        invariant 1 <= j <= n + 1
        invariant nodeIdx == (i - 1) * n + (j - 1) == |centres|
        invariant forall k :: 0 <= k < |centres| ==> n > 0 && centres[k] == NodeCentre(spacing, n, k)
      {
        DivModCell(n, i - 1, j - 1);
        centres := centres + [Point(spacing * j, spacing * i)];
        nodeIdx := nodeIdx + 1;
        j := j + 1;
      }
      assert (i - 1) * n + n == i * n;
      i := i + 1;
    }
  }

  /** With a positive spacing every node lies strictly inside the canvas. */
  lemma NodeOnCanvas(spacing: int, n: nat, k: int)
    requires spacing > 0 && n > 0 && 0 <= k < n * n
    ensures var p := NodeCentre(spacing, n, k);
      0 < p.x < CanvasSize(spacing, n) && 0 < p.y < CanvasSize(spacing, n)
  {
    RowBound(n, k);
    MulStrict(0, k % n + 1, spacing);
    MulStrict(k % n + 1, n + 1, spacing);
    MulStrict(0, k / n + 1, spacing);
    MulStrict(k / n + 1, n + 1, spacing);
  }

  /** With a non-zero spacing no two nodes share a centre. */
  lemma CentresDistinct(spacing: int, n: nat, k: int, m: int)
    requires spacing != 0 && n > 0 && k != m
    ensures NodeCentre(spacing, n, k) != NodeCentre(spacing, n, m)
  {
  }

}
