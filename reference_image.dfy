/** The reference image whose segments the installation reveals, and the
    average brightness of the image region behind each grid cell
    (`calculateCellAverageBrightness`). The region of cell (gx, gy) is the
    proportional slice [floor(gx * W / cols), floor((gx + 1) * W / cols)) of
    the image's columns, and the same for rows. */
module ReferenceImage {
  import opened Options
  import opened Pixels
  import opened Geometry

  /** A loaded image: its dimensions and its RGBA pixels. */
  datatype Image = Image(width: nat, height: nat, pixels: seq<int>)

  predicate WellFormed(img: Image) {
    |img.pixels| == BufferLength(img.width, img.height)
  }

  /** Every channel is an 8-bit value. */
  predicate Channels8Bit(img: Image) {
    forall i :: 0 <= i < |img.pixels| ==> 0 <= img.pixels[i] <= 255
  }

  /** The image cut into cols x rows proportional slices. */
  function ImageGrid(img: Image, cols: nat, rows: nat): Grid {
    Grid(cols, rows, 0, 0, img.width, img.height)
  }

  /** The region of the image behind grid cell (gx, gy). */
  function ImageCell(img: Image, cols: nat, rows: nat, gx: int, gy: int): Bounds
    requires cols > 0 && rows > 0
  {
    CellBounds(ImageGrid(img, cols, rows), gx, gy)
  }

  predicate Within(img: Image, b: Bounds) {
    0 <= b.x0 && b.x1 <= img.width && 0 <= b.y0 && b.y1 <= img.height
  }

  /** The slice of cell (gx, gy) of a grid over the image lies inside the image. */
  lemma ImageCellWithin(img: Image, cols: nat, rows: nat, gx: int, gy: int)
    requires cols > 0 && rows > 0 && 0 <= gx < cols && 0 <= gy < rows
    ensures Within(img, ImageCell(img, cols, rows, gx, gy))
    ensures ImageCell(img, cols, rows, gx, gy).x0 <= ImageCell(img, cols, rows, gx, gy).x1
    ensures ImageCell(img, cols, rows, gx, gy).y0 <= ImageCell(img, cols, rows, gx, gy).y1
  {
    CellInsideGrid(ImageGrid(img, cols, rows), gx, gy);
  }

  /** 1000 times the luminance of pixel (x, y). */
  function PixelLuma(img: Image, x: int, y: int): int
    requires WellFormed(img) && 0 <= x < img.width && 0 <= y < img.height
  {
    IndexInside(img.width, img.height, x, y);
    Luma(img.pixels, PixelIndex(img.width, x, y))
  }

  /** The inner loop: rows y .. y1 - 1 of column x, every pixel. */
  function LumaColumn(img: Image, x: int, y: int, y1: int): Tally
    requires WellFormed(img) && 0 <= x < img.width && 0 <= y && y1 <= img.height
    decreases y1 - y
  {
    if y >= y1 then Empty
    else Plus(Tally(PixelLuma(img, x, y), 1), LumaColumn(img, x, y + 1, y1))
  }

  /** The outer loop: columns x .. b.x1 - 1, each scanned by the inner loop. */
  function LumaRegion(img: Image, x: int, b: Bounds): Tally
    requires WellFormed(img) && Within(img, b) && b.x0 <= x
    decreases b.x1 - x
  {
    if x >= b.x1 then Empty
    else Plus(LumaColumn(img, x, b.y0, b.y1), LumaRegion(img, x + 1, b))
  }

  /** The mean luminance of a tally, and 0 for an empty one. */
  function Mean(t: Tally): real {
    if t.count > 0 then Average(t) else 0.0
  }

  /** The average brightness behind grid cell (gx, gy). */
  function CellBrightness(img: Image, cols: nat, rows: nat, gx: int, gy: int): real
    requires WellFormed(img) && cols > 0 && rows > 0 && 0 <= gx < cols && 0 <= gy < rows
  {
    ImageCellWithin(img, cols, rows, gx, gy);
    var b := ImageCell(img, cols, rows, gx, gy);
    Mean(LumaRegion(img, b.x0, b))
  }

  lemma LumaColumnStep(img: Image, x: int, y: int, y1: int)
    requires WellFormed(img) && 0 <= x < img.width && 0 <= y < y1 <= img.height
    ensures LumaColumn(img, x, y, y1).total == PixelLuma(img, x, y) + LumaColumn(img, x, y + 1, y1).total
    ensures LumaColumn(img, x, y, y1).count == 1 + LumaColumn(img, x, y + 1, y1).count
  {
  }

  lemma LumaRegionStep(img: Image, x: int, b: Bounds)
    requires WellFormed(img) && Within(img, b) && b.x0 <= x < b.x1
    ensures LumaRegion(img, x, b).total == LumaColumn(img, x, b.y0, b.y1).total + LumaRegion(img, x + 1, b).total
    ensures LumaRegion(img, x, b).count == LumaColumn(img, x, b.y0, b.y1).count + LumaRegion(img, x + 1, b).count
  {
  }

  /** `calculateCellAverageBrightness`: 0 when no image is loaded, otherwise
      the mean luminance of every pixel of the cell's image region, and 0
      when that region is empty. */
  method CellAverageBrightness(image: Option<Image>, cols: nat, rows: nat, gx: int, gy: int) returns (brightness: real)
    requires image.Some? ==> WellFormed(image.value)
    requires cols > 0 && rows > 0 && 0 <= gx < cols && 0 <= gy < rows
    ensures image.None? ==> brightness == 0.0
    ensures image.Some? ==> brightness == CellBrightness(image.value, cols, rows, gx, gy)
  {
    if image.None? {
      return 0.0;
    }
    var img := image.value;
    var startX := Edge(0, img.width, cols, gx);
    var startY := Edge(0, img.height, rows, gy);
    var endX := Edge(0, img.width, cols, gx + 1);
    var endY := Edge(0, img.height, rows, gy + 1);
    ghost var b := ImageCell(img, cols, rows, gx, gy);
    assert b == Bounds(startX, startY, endX, endY);
    ImageCellWithin(img, cols, rows, gx, gy);
    ghost var region := LumaRegion(img, startX, b);

    var totalBrightness := 0;
    var pixelCount := 0;
    var x := startX;
    while x < endX
      invariant startX <= x && (x <= endX || x == startX)
      invariant totalBrightness + LumaRegion(img, x, b).total == region.total
      invariant pixelCount + LumaRegion(img, x, b).count == region.count
      decreases endX - x
    {
      LumaRegionStep(img, x, b);
      ghost var rest := LumaRegion(img, x + 1, b);
      var y := startY;
      while y < endY
        invariant startY <= y && (y <= endY || y == startY)
        invariant totalBrightness + LumaColumn(img, x, y, endY).total + rest.total == region.total
        invariant pixelCount + LumaColumn(img, x, y, endY).count + rest.count == region.count
        decreases endY - y
      {
        LumaColumnStep(img, x, y, endY);
        IndexInside(img.width, img.height, x, y);
        var index := PixelIndex(img.width, x, y);
        totalBrightness := totalBrightness + Luma(img.pixels, index);
        pixelCount := pixelCount + 1;
        y := y + 1;
      }
      x := x + 1;
    }
    assert Tally(totalBrightness, pixelCount) == region;
    brightness := if pixelCount > 0 then totalBrightness as real / (1000 * pixelCount) as real else 0.0;
  }

  // ---------------------------------------------------------------------------
  // Properties of the region average

  lemma AreaStep(columns: nat, k: nat, rows: nat, c: nat, r: nat)
    requires columns == k + 1 && c == rows && r == k * rows
    ensures c + r == columns * rows
  {
  }

  lemma {:induction false} LumaColumnCount(img: Image, x: int, y: int, y1: int)
    requires WellFormed(img) && 0 <= x < img.width && 0 <= y <= y1 <= img.height
    ensures LumaColumn(img, x, y, y1).count == y1 - y
    decreases y1 - y
  {
    if y < y1 {
      LumaColumnCount(img, x, y + 1, y1);
      LumaColumnStep(img, x, y, y1);
    }
  }

  lemma {:induction false} LumaRegionCount(img: Image, x: int, b: Bounds)
    requires WellFormed(img) && Within(img, b) && b.x0 <= x <= b.x1 && b.y0 <= b.y1
    ensures LumaRegion(img, x, b).count == (b.x1 - x) * (b.y1 - b.y0)
    decreases b.x1 - x
  {
    if x < b.x1 {
      LumaRegionCount(img, x + 1, b);
      LumaColumnCount(img, x, b.y0, b.y1);
      LumaRegionStep(img, x, b);
      AreaStep(b.x1 - x, b.x1 - (x + 1), b.y1 - b.y0,
                LumaColumn(img, x, b.y0, b.y1).count, LumaRegion(img, x + 1, b).count);
    }
  }

  /** Every pixel of the cell's region is counted once, so the average is
      taken over (endX - startX) * (endY - startY) pixels; when the region is
      empty, the brightness is 0. */
  lemma CellSamplesWholeRegion(img: Image, cols: nat, rows: nat, gx: int, gy: int)
    requires WellFormed(img) && cols > 0 && rows > 0 && 0 <= gx < cols && 0 <= gy < rows
    ensures var b := ImageCell(img, cols, rows, gx, gy);
            Within(img, b) && LumaRegion(img, b.x0, b).count == (b.x1 - b.x0) * (b.y1 - b.y0)
    ensures var b := ImageCell(img, cols, rows, gx, gy);
            b.x0 == b.x1 || b.y0 == b.y1 ==> CellBrightness(img, cols, rows, gx, gy) == 0.0
  {
    var b := ImageCell(img, cols, rows, gx, gy);
    ImageCellWithin(img, cols, rows, gx, gy);
    LumaRegionCount(img, b.x0, b);
  }

  lemma LumaRange(img: Image, x: int, y: int)
    requires WellFormed(img) && Channels8Bit(img) && 0 <= x < img.width && 0 <= y < img.height
    ensures 0 <= PixelLuma(img, x, y) <= 255000
  {
    IndexInside(img.width, img.height, x, y);
  }

  lemma AddBounded(a: int, n: nat, b: int, m: nat)
    requires 0 <= a <= 255000 * n && 0 <= b <= 255000 * m
    ensures 0 <= a + b <= 255000 * (n + m)
  {
  }

  lemma {:induction false} LumaColumnRange(img: Image, x: int, y: int, y1: int)
    requires WellFormed(img) && Channels8Bit(img) && 0 <= x < img.width && 0 <= y && y1 <= img.height
    ensures 0 <= LumaColumn(img, x, y, y1).total <= 255000 * LumaColumn(img, x, y, y1).count
    decreases y1 - y
  {
    if y < y1 {
      LumaColumnRange(img, x, y + 1, y1);
      LumaColumnStep(img, x, y, y1);
      LumaRange(img, x, y);
      var rest := LumaColumn(img, x, y + 1, y1);
      AddBounded(PixelLuma(img, x, y), 1, rest.total, rest.count);
    }
  }

  lemma {:induction false} LumaRegionRange(img: Image, x: int, b: Bounds)
    requires WellFormed(img) && Channels8Bit(img) && Within(img, b) && b.x0 <= x
    ensures 0 <= LumaRegion(img, x, b).total <= 255000 * LumaRegion(img, x, b).count
    decreases b.x1 - x
  {
    if x < b.x1 {
      LumaRegionRange(img, x + 1, b);
      LumaColumnRange(img, x, b.y0, b.y1);
      LumaRegionStep(img, x, b);
      var col := LumaColumn(img, x, b.y0, b.y1);
      var rest := LumaRegion(img, x + 1, b);
      AddBounded(col.total, col.count, rest.total, rest.count);
    }
  }

  lemma MeanRange(t: Tally)
    requires 0 <= t.total <= 255000 * t.count
    ensures 0.0 <= Mean(t) <= 255.0
  {
    if t.count > 0 {
      var n := (1000 * t.count) as real;
      assert t.total as real <= 255.0 * n;
      DivideAtMost(t.total as real, n, 255.0);
    }
  }

  lemma DivideAtMost(a: real, n: real, c: real)
    requires n > 0.0 && 0.0 <= a <= c * n
    ensures 0.0 <= a / n <= c
  {
    var q := a / n;
    assert q * n == a;
    if q > c {
      assert q * n > c * n;
    }
  }

  /** With 8-bit channels, a cell's brightness is a luminance in [0, 255]. */
  lemma BrightnessInRange(img: Image, cols: nat, rows: nat, gx: int, gy: int)
    requires WellFormed(img) && Channels8Bit(img)
    requires cols > 0 && rows > 0 && 0 <= gx < cols && 0 <= gy < rows
    ensures 0.0 <= CellBrightness(img, cols, rows, gx, gy) <= 255.0
  {
    var b := ImageCell(img, cols, rows, gx, gy);
    ImageCellWithin(img, cols, rows, gx, gy);
    LumaRegionRange(img, b.x0, b);
    MeanRange(LumaRegion(img, b.x0, b));
  }
}
