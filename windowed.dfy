/** The windowed demo (sketch.js): a fixed 2 x 3 grid, 270 x 480 pixels,
    centred in a 640 x 480 canvas. Every frame each cell is scored on every
    pixel (stride 1) and the motion table is rebuilt from scratch; there is
    no reveal state. The threshold starts at 30 and follows the slider. */
module Windowed {
  import opened Pixels
  import opened Geometry
  import opened Tables

  const CanvasWidth: nat := 640
  const CanvasHeight: nat := 480
  const GridCols: nat := 2
  const GridRows: nat := 3
  const GridWidth: nat := 270
  const GridHeight: nat := 480
  /** Centred horizontally: (640 - 270) / 2 = 185. */
  const GridOffsetX: int := (CanvasWidth - GridWidth) / 2
  /** Centred vertically: (480 - 480) / 2 = 0. */
  const GridOffsetY: int := (CanvasHeight - GridHeight) / 2
  const DefaultThreshold: int := 30
  /** The demo samples every pixel. */
  const SampleStride: nat := 1

  function DemoGrid(): (g: Grid)
    ensures Proper(g)
  {
    Grid(GridCols, GridRows, GridOffsetX, GridOffsetY, GridWidth, GridHeight)
  }

  /** The two buffers, indexed as 640 x 480 RGBA canvases. */
  function DemoFrames(prev: seq<int>, curr: seq<int>): FramePair {
    FramePair(prev, curr, CanvasWidth, CanvasHeight)
  }

  /** Cell (gx, gy) is the 135 x 160 rectangle whose top-left corner is
      (185 + 135 gx, 160 gy); it lies inside the canvas; its right edge is
      the left edge of the next column and its bottom edge the top edge of
      the next row, so the six cells tile [185, 455) x [0, 480). */
  lemma DemoGeometry(gx: nat, gy: nat)
    requires gx < GridCols && gy < GridRows
    ensures CellBounds(DemoGrid(), gx, gy) == Bounds(185 + 135 * gx, 160 * gy, 185 + 135 * (gx + 1), 160 * (gy + 1))
    ensures 0 <= CellBounds(DemoGrid(), gx, gy).x0 < CellBounds(DemoGrid(), gx, gy).x1 <= CanvasWidth
    ensures 0 <= CellBounds(DemoGrid(), gx, gy).y0 < CellBounds(DemoGrid(), gx, gy).y1 <= CanvasHeight
    ensures gx + 1 < GridCols ==> CellBounds(DemoGrid(), gx, gy).x1 == CellBounds(DemoGrid(), gx + 1, gy).x0
    ensures gy + 1 < GridRows ==> CellBounds(DemoGrid(), gx, gy).y1 == CellBounds(DemoGrid(), gx, gy + 1).y0
  {
    EdgeExact(GridOffsetX, GridWidth, GridCols, gx);
    EdgeExact(GridOffsetX, GridWidth, GridCols, gx + 1);
    EdgeExact(GridOffsetY, GridHeight, GridRows, gy);
    EdgeExact(GridOffsetY, GridHeight, GridRows, gy + 1);
    EdgeExact(GridOffsetX, GridWidth, GridCols, gx + 2);
    EdgeExact(GridOffsetY, GridHeight, GridRows, gy + 2);
  }

  /** With full-size buffers every cell samples all of its 135 * 160 pixels,
      so its decision is exactly "the mean difference over the whole cell
      is above the threshold". */
  lemma DemoCellSamplesWholeCell(prev: seq<int>, curr: seq<int>, gx: nat, gy: nat, threshold: int)
    requires gx < GridCols && gy < GridRows
    requires FullSize(DemoFrames(prev, curr))
    ensures CellTally(DemoFrames(prev, curr), CellBounds(DemoGrid(), gx, gy), SampleStride).count == 135 * 160
    ensures CellMoves(DemoFrames(prev, curr), DemoGrid(), gx, gy, SampleStride, threshold)
            <==> CellTally(DemoFrames(prev, curr), CellBounds(DemoGrid(), gx, gy), SampleStride).total > 1000 * threshold * (135 * 160)
  {
    var b := CellBounds(DemoGrid(), gx, gy);
    DemoGeometry(gx, gy);
    StrideOneSamplesEveryPixel(DemoFrames(prev, curr), b);
    assert Overlap(b.x0, b.x1, CanvasWidth) == 135;
    assert Overlap(b.y0, b.y1, CanvasHeight) == 160;
  }

  class Demo {
    var motion: seq<seq<bool>>
    var threshold: int
    /** Set by the video's `loadedmetadata` listener, which also creates the
        two frame buffers: the buffers exist exactly when this is true. */
    var isVideoReady: bool

    ghost predicate Valid()
      reads this
    {
      IsTable(motion, GridCols, GridRows)
    }

    /** `setup`: the camera is not ready yet, the threshold is the default
        and the motion table is all false. */
    constructor ()
      ensures Valid() && !isVideoReady && threshold == DefaultThreshold
      ensures motion == Filled(GridCols, GridRows, false)
    {
      motion := [];
      threshold := DefaultThreshold;
      isVideoReady := false;
      new;
      InitializeMotionGrid();
    }

    /** `initializeMotionGrid`: a 2 x 3 table of false. */
    method InitializeMotionGrid()
      modifies this
      ensures Valid() && threshold == old(threshold) && isVideoReady == old(isVideoReady)
      ensures motion == Filled(GridCols, GridRows, false)
    {
      motion := [];
      for i := 0 to GridCols
        invariant threshold == old(threshold) && isVideoReady == old(isVideoReady)
        invariant motion == Filled(i, GridRows, false)
      {
        var column: seq<bool> := [];
        for j := 0 to GridRows
          invariant column == seq(j, _ => false)
        {
          column := column + [false];
        }
        motion := motion + [column];
      }
    }

    /** The video's `loadedmetadata` listener with `initializeFrames`. */
    method OnVideoReady()
      modifies this
      ensures isVideoReady && motion == old(motion) && threshold == old(threshold)
    {
      isVideoReady := true;
    }

    /** The threshold slider's input handler. */
    method SetThreshold(value: int)
      modifies this
      ensures threshold == value && motion == old(motion) && isVideoReady == old(isVideoReady)
    {
      threshold := value;
    }

    /** `analyzeGridCell` of the demo: the bounds of cell (gridX, gridY) in
        the centred grid, every pixel sampled, compared with the current
        threshold. */
    method AnalyzeGridCell(prev: seq<int>, curr: seq<int>, gridX: int, gridY: int) returns (moved: bool)
      ensures moved == CellMoves(DemoFrames(prev, curr), DemoGrid(), gridX, gridY, SampleStride, threshold)
      ensures moved <==> CellTally(DemoFrames(prev, curr), CellBounds(DemoGrid(), gridX, gridY), SampleStride).count > 0
                         && Average(CellTally(DemoFrames(prev, curr), CellBounds(DemoGrid(), gridX, gridY), SampleStride)) > threshold as real
    {
      var startX := Edge(GridOffsetX, GridWidth, GridCols, gridX);
      var startY := Edge(GridOffsetY, GridHeight, GridRows, gridY);
      var endX := Edge(GridOffsetX, GridWidth, GridCols, gridX + 1);
      var endY := Edge(GridOffsetY, GridHeight, GridRows, gridY + 1);
      moved := AnalyzeCell(DemoFrames(prev, curr), Bounds(startX, startY, endX, endY), SampleStride, threshold);
      ExceedsIsStrictAverage(CellTally(DemoFrames(prev, curr), CellBounds(DemoGrid(), gridX, gridY), SampleStride), threshold);
    }

    /** `detectMotion`: nothing while the frame buffers do not exist;
        otherwise every entry is cleared and then set to its cell's fresh
        decision, so no motion value survives from the previous frame. */
    method DetectMotion(prev: seq<int>, curr: seq<int>)
      requires Valid()
      modifies this
      ensures Valid() && threshold == old(threshold) && isVideoReady == old(isVideoReady)
      ensures !isVideoReady ==> motion == old(motion)
      ensures isVideoReady ==> motion == MotionTable(DemoFrames(prev, curr), DemoGrid(), SampleStride, threshold)
    {
      if !isVideoReady {
        return;
      }
      for i := 0 to GridCols
        invariant Valid() && threshold == old(threshold) && isVideoReady == old(isVideoReady)
        invariant forall a, b :: 0 <= a < i && 0 <= b < GridRows ==> !motion[a][b]
      {
        for j := 0 to GridRows
          invariant Valid() && threshold == old(threshold) && isVideoReady == old(isVideoReady)
          invariant forall a, b :: 0 <= a < GridCols && 0 <= b < GridRows && (a < i || (a == i && b < j)) ==> !motion[a][b]
        {
          motion := Update(motion, i, j, false);
        }
      }
      ghost var target := MotionTable(DemoFrames(prev, curr), DemoGrid(), SampleStride, threshold);
      for gridX := 0 to GridCols
        invariant Valid() && threshold == old(threshold) && isVideoReady == old(isVideoReady)
        invariant forall a, b :: 0 <= a < GridCols && 0 <= b < GridRows ==> motion[a][b] == (a < gridX && target[a][b])
      {
        for gridY := 0 to GridRows
          invariant Valid() && threshold == old(threshold) && isVideoReady == old(isVideoReady)
          invariant forall a, b :: 0 <= a < GridCols && 0 <= b < GridRows ==>
                      motion[a][b] == ((a < gridX || (a == gridX && b < gridY)) && target[a][b])
        {
          var motionDetected := AnalyzeGridCell(prev, curr, gridX, gridY);
          motion := Update(motion, gridX, gridY, motionDetected);
        }
      }
      TableExtensionality(motion, target, GridCols, GridRows);
    }

    /** `draw`, reduced to its state changes: nothing before the camera is
        ready, a fresh detection pass on every frame after that. */
    method Draw(prev: seq<int>, curr: seq<int>)
      requires Valid()
      modifies this
      ensures Valid() && threshold == old(threshold) && isVideoReady == old(isVideoReady)
      ensures !isVideoReady ==> motion == old(motion)
      ensures isVideoReady ==> motion == MotionTable(DemoFrames(prev, curr), DemoGrid(), SampleStride, threshold)
    {
      if !isVideoReady {
        return;
      }
      DetectMotion(prev, curr);
    }
  }

  /** Identical buffers leave the demo's motion table all false. */
  lemma DemoIdenticalFramesStill(prev: seq<int>, threshold: int)
    requires threshold >= 0
    ensures MotionTable(DemoFrames(prev, prev), DemoGrid(), SampleStride, threshold) == Filled(GridCols, GridRows, false)
  {
    IdenticalFramesStill(DemoFrames(prev, prev), DemoGrid(), SampleStride, threshold);
    TableExtensionality(MotionTable(DemoFrames(prev, prev), DemoGrid(), SampleStride, threshold), Filled(GridCols, GridRows, false), GridCols, GridRows);
  }
}
