/** Frame differencing over RGBA pixel buffers: the per-cell analysis that both
    sketches run in `analyzeGridCell`.

    Luminance 0.299 R + 0.587 G + 0.114 B is kept exact by scaling it by 1000,
    so a buffer's luminance is the integer 299 R + 587 G + 114 B. */
module Pixels {

  /** A rectangle of pixel columns [x0, x1) and pixel rows [y0, y1). */
  datatype Bounds = Bounds(x0: int, y0: int, x1: int, y1: int)

  /** The previous and the current RGBA buffer, and the canvas dimensions that
      the pixel index (y * width + x) * 4 is computed with. */
  datatype FramePair = FramePair(prev: seq<int>, curr: seq<int>, width: nat, height: nat)

  /** A running sum of (scaled) luminance values and the number of pixels summed. */
  datatype Tally = Tally(total: int, count: nat)

  const Empty := Tally(0, 0)

  function Plus(a: Tally, b: Tally): Tally {
    Tally(a.total + b.total, a.count + b.count)
  }

  function Abs(d: int): nat {
    if d < 0 then -d else d
  }

  /** 1000 times the luminance of the RGBA pixel that starts at `index`. */
  function Luma(px: seq<int>, index: int): int
    requires 0 <= index && index + 2 < |px|
  {
    299 * px[index] + 587 * px[index + 1] + 114 * px[index + 2]
  }

  /** Number of pixels before row y of a canvas `width` pixels wide, by
      repeated addition so that the index stays linear for the solver;
      `RowStartIsProduct` shows it is y * width. */
  function RowStart(width: nat, y: nat): nat {
    if y == 0 then 0 else RowStart(width, y - 1) + width
  }

  lemma {:induction false} RowStartIsProduct(width: nat, y: nat)
    ensures RowStart(width, y) == y * width
  {
    if y > 0 {
      RowStartIsProduct(width, y - 1);
      assert (y - 1) * width + width == y * width;
    }
  }

  /** Index of the red channel of pixel (x, y) in an RGBA buffer: (y * width + x) * 4. */
  function PixelIndex(width: nat, x: int, y: nat): int {
    (RowStart(width, y) + x) * 4
  }

  lemma {:induction false} RowStartMonotone(width: nat, y: nat, z: nat)
    requires y <= z
    ensures RowStart(width, y) <= RowStart(width, z)
    decreases z - y
  {
    if y < z {
      RowStartMonotone(width, y, z - 1);
    }
  }

  /** Number of entries of a width x height RGBA buffer. */
  function BufferLength(width: nat, height: nat): nat {
    4 * RowStart(width, height)
  }

  /** A width x height RGBA buffer has 4 * width * height entries. */
  lemma BufferLengthIsProduct(width: nat, height: nat)
    ensures BufferLength(width, height) == 4 * width * height
  {
    RowStartIsProduct(width, height);
    assert 4 * width * height == 4 * (height * width);
  }

  /** Pixel (x, y) lies inside a width x height canvas, and its RGBA quadruple
      inside a buffer of 4 * width * height entries. */
  lemma IndexInside(width: nat, height: nat, x: int, y: int)
    requires 0 <= x < width && 0 <= y < height
    ensures 0 <= PixelIndex(width, x, y)
    ensures PixelIndex(width, x, y) + 3 < BufferLength(width, height)
  {
    RowStartMonotone(width, y + 1, height);
  }

  /** The guard of the sampling loop: the pixel is inside the canvas and its
      index is below `length - 3` in both buffers. */
  predicate Readable(f: FramePair, x: int, y: int) {
    && 0 <= x < f.width && 0 <= y < f.height
    && PixelIndex(f.width, x, y) < |f.prev| - 3
    && PixelIndex(f.width, x, y) < |f.curr| - 3
  }

  /** Every channel the analysis reads is inside both buffers. */
  lemma ReadableInBounds(f: FramePair, x: int, y: int)
    requires Readable(f, x, y)
    ensures 0 <= PixelIndex(f.width, x, y)
    ensures PixelIndex(f.width, x, y) + 3 < |f.prev| && PixelIndex(f.width, x, y) + 3 < |f.curr|
  {
  }

  /** |L_prev - L_curr| at a readable pixel, scaled by 1000. */
  function Difference(f: FramePair, x: int, y: int): nat
    requires Readable(f, x, y)
  {
    ReadableInBounds(f, x, y);
    var index := PixelIndex(f.width, x, y);
    Abs(Luma(f.prev, index) - Luma(f.curr, index))
  }

  /** What one visit of the sampling loop adds to the accumulators. */
  function Sample(f: FramePair, x: int, y: int): Tally {
    if Readable(f, x, y) then Tally(Difference(f, x, y), 1) else Empty
  }

  /** The inner loop: rows y, y + stride, ... below y1 of pixel column x. */
  function ColumnTally(f: FramePair, x: int, y: int, y1: int, stride: nat): Tally
    requires stride > 0
    decreases y1 - y
  {
    if y >= y1 then Empty
    else Plus(Sample(f, x, y), ColumnTally(f, x, y + stride, y1, stride))
  }

  /** The outer loop: columns x, x + stride, ... below b.x1, each scanned by the inner loop. */
  function RegionTally(f: FramePair, x: int, b: Bounds, stride: nat): Tally
    requires stride > 0
    decreases b.x1 - x
  {
    if x >= b.x1 then Empty
    else Plus(ColumnTally(f, x, b.y0, b.y1, stride), RegionTally(f, x + stride, b, stride))
  }

  /** Total difference and pixel count of a whole cell, sampled on the stride
      lattice that starts at its top-left corner. */
  function CellTally(f: FramePair, b: Bounds, stride: nat): Tally
    requires stride > 0
  {
    RegionTally(f, b.x0, b, stride)
  }

  /** The average scaled difference, in luminance units. */
  function Average(t: Tally): real
    requires t.count > 0
  {
    t.total as real / (1000 * t.count) as real
  }

  /** The motion decision, stated without division. */
  predicate Exceeds(t: Tally, threshold: int) {
    t.count > 0 && t.total > 1000 * threshold * t.count
  }

  lemma DivideAbove(a: real, n: real, c: real)
    requires n > 0.0
    ensures a / n > c <==> a > c * n
  {
    var q := a / n;
    assert q * n == a;
    if q > c {
      assert q * n > c * n;
    } else {
      assert q * n <= c * n;
    }
  }

  /** A cell moves exactly when at least one pixel was sampled and the average
      difference is strictly above the threshold; an average equal to the
      threshold is no motion. */
  lemma ExceedsIsStrictAverage(t: Tally, threshold: int)
    ensures Exceeds(t, threshold) <==> t.count > 0 && Average(t) > threshold as real
    ensures t.count > 0 && Average(t) == threshold as real ==> !Exceeds(t, threshold)
  {
    if t.count > 0 {
      var n := (1000 * t.count) as real;
      DivideAbove(t.total as real, n, threshold as real);
      assert (1000 * threshold * t.count) as real == threshold as real * n;
    }
  }

  /** One iteration of the inner sampling loop, field by field. */
  lemma ColumnStep(f: FramePair, x: int, y: int, y1: int, stride: nat)
    requires stride > 0 && y < y1
    ensures ColumnTally(f, x, y, y1, stride).total
            == (if Readable(f, x, y) then Difference(f, x, y) else 0) + ColumnTally(f, x, y + stride, y1, stride).total
    ensures ColumnTally(f, x, y, y1, stride).count
            == (if Readable(f, x, y) then 1 else 0) + ColumnTally(f, x, y + stride, y1, stride).count
  {
  }

  /** One iteration of the outer sampling loop, field by field. */
  lemma RegionStep(f: FramePair, x: int, b: Bounds, stride: nat)
    requires stride > 0 && x < b.x1
    ensures RegionTally(f, x, b, stride).total
            == ColumnTally(f, x, b.y0, b.y1, stride).total + RegionTally(f, x + stride, b, stride).total
    ensures RegionTally(f, x, b, stride).count
            == ColumnTally(f, x, b.y0, b.y1, stride).count + RegionTally(f, x + stride, b, stride).count
  {
  }

  /** `analyzeGridCell` once the cell's bounds are known: the nested sampling
      loops accumulate the total difference and the pixel count, and the
      cell moves when the average is strictly above the threshold. */
  method AnalyzeCell(f: FramePair, b: Bounds, stride: nat, threshold: int) returns (moved: bool)
    requires stride > 0
    ensures moved == Exceeds(CellTally(f, b, stride), threshold)
  {
    var totalDifference := 0;
    var pixelCount := 0;
    ghost var cell := CellTally(f, b, stride);
    var x := b.x0;
    while x < b.x1
      invariant totalDifference + RegionTally(f, x, b, stride).total == cell.total
      invariant pixelCount + RegionTally(f, x, b, stride).count == cell.count
      decreases b.x1 - x
    {
      ghost var rest := RegionTally(f, x + stride, b, stride);
      var y := b.y0;
      while y < b.y1
        invariant totalDifference + ColumnTally(f, x, y, b.y1, stride).total + rest.total == cell.total
        invariant pixelCount + ColumnTally(f, x, y, b.y1, stride).count + rest.count == cell.count
        decreases b.y1 - y
      {
        ColumnStep(f, x, y, b.y1, stride);
        if 0 <= x < f.width && 0 <= y < f.height {
          var index := PixelIndex(f.width, x, y);
          if index < |f.prev| - 3 && index < |f.curr| - 3 {
            ReadableInBounds(f, x, y);
            var prevLuminance := Luma(f.prev, index);
            var currLuminance := Luma(f.curr, index);
            var difference := Abs(prevLuminance - currLuminance);
            totalDifference := totalDifference + difference;
            pixelCount := pixelCount + 1;
          }
        }
        y := y + stride;
      }
      x := x + stride;
    }
    assert Tally(totalDifference, pixelCount) == cell;
    if pixelCount == 0 {
      return false;
    }
    ExceedsIsStrictAverage(cell, threshold);
    var avgDifference := totalDifference as real / (1000 * pixelCount) as real;
    moved := avgDifference > threshold as real;
  }

  // ---------------------------------------------------------------------------
  // How many pixels are sampled

  lemma CountStep(c: nat, r: nat, columns: nat, rows: nat, k: nat)
    requires columns == 1 + k && c <= rows && r <= k * rows
    ensures c + r <= columns * rows
  {
  }

  lemma CoverStep(inside: bool, columns: nat, k: nat, rows: nat, c: nat, r: nat)
    requires columns == (if inside then 1 else 0) + k
    requires c == (if inside then rows else 0) && r == k * rows
    ensures c + r == columns * rows
  {
  }

  /** Number of lattice points lo, lo + stride, ... below hi: the iterations of one sampling loop. */
  function Steps(lo: int, hi: int, stride: nat): nat
    requires stride > 0
    decreases hi - lo
  {
    if lo >= hi then 0 else 1 + Steps(lo + stride, hi, stride)
  }

  lemma {:induction false} ColumnCountBound(f: FramePair, x: int, y: int, y1: int, stride: nat)
    requires stride > 0
    ensures ColumnTally(f, x, y, y1, stride).count <= Steps(y, y1, stride)
    decreases y1 - y
  {
    if y < y1 {
      ColumnCountBound(f, x, y + stride, y1, stride);
      ColumnStep(f, x, y, y1, stride);
    }
  }

  lemma {:induction false} RegionCountBound(f: FramePair, x: int, b: Bounds, stride: nat)
    requires stride > 0
    ensures RegionTally(f, x, b, stride).count <= Steps(x, b.x1, stride) * Steps(b.y0, b.y1, stride)
    decreases b.x1 - x
  {
    if x < b.x1 {
      var rows := Steps(b.y0, b.y1, stride);
      ColumnCountBound(f, x, b.y0, b.y1, stride);
      RegionCountBound(f, x + stride, b, stride);
      RegionStep(f, x, b, stride);
      CountStep(ColumnTally(f, x, b.y0, b.y1, stride).count, RegionTally(f, x + stride, b, stride).count,
                Steps(x, b.x1, stride), rows, Steps(x + stride, b.x1, stride));
    }
  }

  /** At most one pixel is counted per lattice point of the cell. */
  lemma CellCountBound(f: FramePair, b: Bounds, stride: nat)
    requires stride > 0
    ensures CellTally(f, b, stride).count <= Steps(b.x0, b.x1, stride) * Steps(b.y0, b.y1, stride)
  {
    RegionCountBound(f, b.x0, b, stride);
  }

  // ---------------------------------------------------------------------------
  // A uniform luminance shift

  lemma AddScaled(d: int, a: int, b: int, p: int, q: int)
    requires p == d * a && q == d * b
    ensures p + q == d * (a + b)
  {
  }

  lemma ScaleAbove(a: int, b: int, n: int)
    requires n > 0
    ensures a * n > b * n <==> a > b
  {
    if a > b {
      assert (a - b) * n > 0;
    } else {
      assert (b - a) * n >= 0;
    }
  }

  lemma {:induction false} ColumnOfUniformShift(f: FramePair, x: int, y: int, y1: int, stride: nat, d: nat)
    requires stride > 0
    requires forall px, py :: Readable(f, px, py) ==> Difference(f, px, py) == d
    ensures ColumnTally(f, x, y, y1, stride).total == d * ColumnTally(f, x, y, y1, stride).count
    decreases y1 - y
  {
    if y < y1 {
      ColumnOfUniformShift(f, x, y + stride, y1, stride, d);
      var rest := ColumnTally(f, x, y + stride, y1, stride);
      ColumnStep(f, x, y, y1, stride);
      if Readable(f, x, y) {
        AddScaled(d, 1, rest.count, Difference(f, x, y), rest.total);
      }
    }
  }

  lemma {:induction false} RegionOfUniformShift(f: FramePair, x: int, b: Bounds, stride: nat, d: nat)
    requires stride > 0
    requires forall px, py :: Readable(f, px, py) ==> Difference(f, px, py) == d
    ensures RegionTally(f, x, b, stride).total == d * RegionTally(f, x, b, stride).count
    decreases b.x1 - x
  {
    if x < b.x1 {
      ColumnOfUniformShift(f, x, b.y0, b.y1, stride, d);
      RegionOfUniformShift(f, x + stride, b, stride, d);
      var col := ColumnTally(f, x, b.y0, b.y1, stride);
      var rest := RegionTally(f, x + stride, b, stride);
      RegionStep(f, x, b, stride);
      AddScaled(d, col.count, rest.count, col.total, rest.total);
    }
  }

  /** When every readable pixel differs by the same scaled amount d, the cell
      moves exactly when it has a sampled pixel and d / 1000 is strictly above
      the threshold. */
  lemma UniformShift(f: FramePair, b: Bounds, stride: nat, threshold: int, d: nat)
    requires stride > 0
    requires forall px, py :: Readable(f, px, py) ==> Difference(f, px, py) == d
    ensures CellTally(f, b, stride).total == d * CellTally(f, b, stride).count
    ensures Exceeds(CellTally(f, b, stride), threshold) <==> CellTally(f, b, stride).count > 0 && d > 1000 * threshold
  {
    RegionOfUniformShift(f, b.x0, b, stride, d);
    var t := CellTally(f, b, stride);
    if t.count > 0 {
      ScaleAbove(d, 1000 * threshold, t.count);
    }
  }

  /** Two identical buffers differ nowhere, so no cell moves for any
      non-negative threshold. */
  lemma IdenticalFramesNeverMove(f: FramePair, b: Bounds, stride: nat, threshold: int)
    requires stride > 0 && f.prev == f.curr && threshold >= 0
    ensures CellTally(f, b, stride).total == 0
    ensures !Exceeds(CellTally(f, b, stride), threshold)
  {
    forall px, py | Readable(f, px, py)
      ensures Difference(f, px, py) == 0
    {
    }
    UniformShift(f, b, stride, threshold, 0);
  }

  // ---------------------------------------------------------------------------
  // Stride 1 over full-size buffers samples every pixel of the cell inside the canvas

  /** Both buffers hold at least a whole width x height RGBA canvas. */
  predicate FullSize(f: FramePair) {
    |f.prev| >= BufferLength(f.width, f.height) && |f.curr| >= BufferLength(f.width, f.height)
  }

  /** Length of [lo, hi) inside [0, n). */
  function Overlap(lo: int, hi: int, n: int): nat {
    var a := if lo < 0 then 0 else lo;
    var z := if hi < n then hi else n;
    if z <= a then 0 else z - a
  }

  lemma FullSizeReadable(f: FramePair, x: int, y: int)
    requires FullSize(f) && 0 <= x < f.width && 0 <= y < f.height
    ensures Readable(f, x, y)
  {
    IndexInside(f.width, f.height, x, y);
  }

  lemma {:induction false} ColumnCoverage(f: FramePair, x: int, y: int, y1: int)
    requires FullSize(f)
    ensures ColumnTally(f, x, y, y1, 1).count == if 0 <= x < f.width then Overlap(y, y1, f.height) else 0
    decreases y1 - y
  {
    if y < y1 {
      ColumnCoverage(f, x, y + 1, y1);
      ColumnStep(f, x, y, y1, 1);
      if 0 <= x < f.width && 0 <= y < f.height {
        FullSizeReadable(f, x, y);
      }
    }
  }

  /** Dropping the leftmost column of [x, hi) removes one from the overlap
      exactly when that column lies inside [0, n). */
  lemma OverlapStep(x: int, hi: int, n: int)
    requires x < hi
    ensures Overlap(x, hi, n) == (if 0 <= x < n then 1 else 0) + Overlap(x + 1, hi, n)
  {
  }

  lemma {:induction false} RegionCoverage(f: FramePair, x: int, b: Bounds)
    requires FullSize(f)
    ensures RegionTally(f, x, b, 1).count == Overlap(x, b.x1, f.width) * Overlap(b.y0, b.y1, f.height)
    decreases b.x1 - x
  {
    if x < b.x1 {
      var rows := Overlap(b.y0, b.y1, f.height);
      var rest := Overlap(x + 1, b.x1, f.width);
      ColumnCoverage(f, x, b.y0, b.y1);
      RegionCoverage(f, x + 1, b);
      RegionStep(f, x, b, 1);
      OverlapStep(x, b.x1, f.width);
      CoverStep(0 <= x < f.width, Overlap(x, b.x1, f.width), rest, rows,
                ColumnTally(f, x, b.y0, b.y1, 1).count, RegionTally(f, x + 1, b, 1).count);
    }
  }

  /** With stride 1 and buffers of the canvas's size, every pixel of the cell
      that lies inside the canvas is sampled exactly once. */
  lemma StrideOneSamplesEveryPixel(f: FramePair, b: Bounds)
    requires FullSize(f)
    ensures CellTally(f, b, 1).count == Overlap(b.x0, b.x1, f.width) * Overlap(b.y0, b.y1, f.height)
  {
    RegionCoverage(f, b.x0, b);
  }
}
