/** Grid geometry shared by both sketches: a grid of `cols` x `rows` cells
    covering a `width` x `height` rectangle whose top-left corner is at
    (offsetX, offsetY). Cell widths are the real quotients width / cols and
    height / rows, and a cell's pixel bounds are their floored multiples,
    as `analyzeGridCell` computes them. */
module Geometry {
  import opened Pixels
  import opened Tables

  datatype Grid = Grid(cols: nat, rows: nat, offsetX: int, offsetY: int, width: nat, height: nat)

  predicate Proper(g: Grid) {
    g.cols > 0 && g.rows > 0
  }

  /** floor(offset + i * (extent / parts)): the i-th cell edge along one axis. */
  function Edge(offset: int, extent: nat, parts: nat, i: int): int
    requires parts > 0
  {
    (offset as real + i as real * (extent as real / parts as real)).Floor
  }

  /** The pixel bounds [startX, endX) x [startY, endY) of cell (gx, gy). */
  function CellBounds(g: Grid, gx: int, gy: int): Bounds
    requires Proper(g)
  {
    Bounds(Edge(g.offsetX, g.width, g.cols, gx), Edge(g.offsetY, g.height, g.rows, gy),
           Edge(g.offsetX, g.width, g.cols, gx + 1), Edge(g.offsetY, g.height, g.rows, gy + 1))
  }

  lemma ScaleMonotone(a: real, b: real, c: real)
    requires a <= b && c >= 0.0
    ensures a * c <= b * c
  {
    assert (b - a) * c >= 0.0;
  }

  /** The real product is the integer product over `parts`, so an edge is the
      integer quotient offset + (i * extent) / parts. */
  lemma EdgeExact(offset: int, extent: nat, parts: nat, i: int)
    requires parts > 0
    ensures Edge(offset, extent, parts, i) == offset + (i * extent) / parts
  {
    var n := i * extent;
    var q := n / parts;
    var r := n % parts;
    assert n == q * parts + r && 0 <= r < parts;
    var p := parts as real;
    var e := i as real * (extent as real / p);
    assert e == n as real / p;
    assert n as real == q as real * p + r as real;
    assert n as real / p == q as real + r as real / p;
    assert 0.0 <= r as real / p < 1.0;
    assert (offset as real + e).Floor == offset + q;
  }

  /** Edges never decrease as the index grows. */
  lemma EdgeMonotone(offset: int, extent: nat, parts: nat, i: int, k: int)
    requires parts > 0 && i <= k
    ensures Edge(offset, extent, parts, i) <= Edge(offset, extent, parts, k)
  {
    ScaleMonotone(i as real, k as real, extent as real / parts as real);
  }

  /** The first edge is the offset and the last one is offset + extent. */
  lemma EdgeEnds(offset: int, extent: nat, parts: nat)
    requires parts > 0
    ensures Edge(offset, extent, parts, 0) == offset
    ensures Edge(offset, extent, parts, parts) == offset + extent
  {
    assert parts as real * (extent as real / parts as real) == extent as real;
  }

  /** Every cell of a proper grid lies inside the grid's rectangle and has
      its start at or before its end. */
  lemma CellInsideGrid(g: Grid, gx: int, gy: int)
    requires Proper(g) && 0 <= gx < g.cols && 0 <= gy < g.rows
    ensures g.offsetX <= CellBounds(g, gx, gy).x0 <= CellBounds(g, gx, gy).x1 <= g.offsetX + g.width
    ensures g.offsetY <= CellBounds(g, gx, gy).y0 <= CellBounds(g, gx, gy).y1 <= g.offsetY + g.height
  {
    EdgeEnds(g.offsetX, g.width, g.cols);
    EdgeEnds(g.offsetY, g.height, g.rows);
    EdgeMonotone(g.offsetX, g.width, g.cols, 0, gx);
    EdgeMonotone(g.offsetX, g.width, g.cols, gx, gx + 1);
    EdgeMonotone(g.offsetX, g.width, g.cols, gx + 1, g.cols);
    EdgeMonotone(g.offsetY, g.height, g.rows, 0, gy);
    EdgeMonotone(g.offsetY, g.height, g.rows, gy, gy + 1);
    EdgeMonotone(g.offsetY, g.height, g.rows, gy + 1, g.rows);
  }

  /** Cells of one axis do not overlap: a later cell starts at or after the
      end of an earlier one. */
  lemma CellsDisjoint(offset: int, extent: nat, parts: nat, i: int, k: int)
    requires parts > 0 && i < k
    ensures Edge(offset, extent, parts, i + 1) <= Edge(offset, extent, parts, k)
  {
    EdgeMonotone(offset, extent, parts, i + 1, k);
  }

  lemma {:induction false} CoveredBelow(offset: int, extent: nat, parts: nat, x: int, k: nat)
    requires parts > 0 && k <= parts
    requires Edge(offset, extent, parts, 0) <= x < Edge(offset, extent, parts, k)
    ensures exists i :: 0 <= i < k && Edge(offset, extent, parts, i) <= x < Edge(offset, extent, parts, i + 1)
  {
    if Edge(offset, extent, parts, k - 1) <= x {
      assert Edge(offset, extent, parts, k - 1) <= x < Edge(offset, extent, parts, (k - 1) + 1);
    } else {
      CoveredBelow(offset, extent, parts, x, k - 1);
    }
  }

  /** The cells of one axis leave no gap: every coordinate of the grid's
      extent falls in one of them, and (by `CellsDisjoint`) in only one. */
  lemma CellsCover(offset: int, extent: nat, parts: nat, x: int)
    requires parts > 0 && offset <= x < offset + extent
    ensures exists i :: 0 <= i < parts && Edge(offset, extent, parts, i) <= x < Edge(offset, extent, parts, i + 1)
  {
    EdgeEnds(offset, extent, parts);
    CoveredBelow(offset, extent, parts, x, parts);
  }

  /** The motion decision of cell (gx, gy): `analyzeGridCell` on that cell. */
  predicate CellMoves(f: FramePair, g: Grid, gx: int, gy: int, stride: nat, threshold: int)
    requires Proper(g) && stride > 0
  {
    Exceeds(CellTally(f, CellBounds(g, gx, gy), stride), threshold)
  }

  /** The motion table a detection pass computes: entry [gx][gy] is the
      decision of cell (gx, gy), with nothing carried over from earlier passes. */
  function MotionTable(f: FramePair, g: Grid, stride: nat, threshold: int): (t: seq<seq<bool>>)
    requires Proper(g) && stride > 0
    ensures IsTable(t, g.cols, g.rows)
  {
    seq(g.cols, gx => seq(g.rows, gy => CellMoves(f, g, gx, gy, stride, threshold)))
  }

  /** Identical buffers leave every cell of the motion table false. */
  lemma IdenticalFramesStill(f: FramePair, g: Grid, stride: nat, threshold: int)
    requires Proper(g) && stride > 0 && f.prev == f.curr && threshold >= 0
    ensures NoneTrue(MotionTable(f, g, stride, threshold))
  {
    forall gx, gy | 0 <= gx < g.cols && 0 <= gy < g.rows
      ensures !CellMoves(f, g, gx, gy, stride, threshold)
    {
      IdenticalFramesNeverMove(f, CellBounds(g, gx, gy), stride, threshold);
    }
  }
}
