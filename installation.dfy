/** The fullscreen installation (sketch_instalacion.js): a 3 x 4 grid over
    the whole canvas; motion in a cell reveals the matching segment of the
    reference image for good, and each newly revealed cell emits one OSC
    message carrying the brightness of its image segment. Detection starts
    only after a warm-up of 60 frames, and the key 'r' hides every segment
    again. */
module Installation {
  import opened Options
  import opened Pixels
  import opened Geometry
  import opened Tables
  import opened ReferenceImage
  import opened Osc

  const GridCols: nat := 3
  const GridRows: nat := 4
  /** Luminance units; the cell average must be strictly above it. */
  const Threshold: int := 25
  const MinFramesBeforeDetection: nat := 60
  /** The installation samples every fourth pixel in x and in y. */
  const SampleStride: nat := 4
  const OscEnabled: bool := true

  /** The grid spans the whole grid area from the top-left corner. */
  function InstallationGrid(gridWidth: nat, gridHeight: nat): Grid {
    Grid(GridCols, GridRows, 0, 0, gridWidth, gridHeight)
  }

  /** The brightness of the image segment behind every cell. */
  function BrightnessTable(img: Image): (t: seq<seq<real>>)
    requires WellFormed(img)
    ensures IsTable(t, GridCols, GridRows)
  {
    seq(GridCols, gx requires 0 <= gx < GridCols =>
      seq(GridRows, gy requires 0 <= gy < GridRows => CellBrightness(img, GridCols, GridRows, gx, gy)))
  }

  /** With 8-bit channels, every entry of the brightness table is in [0, 255]. */
  lemma BrightnessTableRange(img: Image)
    requires WellFormed(img) && Channels8Bit(img)
    ensures forall gx, gy :: 0 <= gx < GridCols && 0 <= gy < GridRows ==>
              0.0 <= BrightnessTable(img)[gx][gy] <= 255.0
  {
    forall gx, gy | 0 <= gx < GridCols && 0 <= gy < GridRows
      ensures 0.0 <= BrightnessTable(img)[gx][gy] <= 255.0
    {
      BrightnessInRange(img, GridCols, GridRows, gx, gy);
    }
  }

  /** The brightness table of a session: the image's when it is loaded, and
      all 0 (as `initializeMotionGrid` leaves it) when it is not. */
  function SessionBrightness(image: Option<Image>): (t: seq<seq<real>>)
    requires image.Some? ==> WellFormed(image.value)
    ensures IsTable(t, GridCols, GridRows)
  {
    if image.Some? then BrightnessTable(image.value) else Filled(GridCols, GridRows, 0.0)
  }

  /** With an 8-bit image, or none, every brightness of the session is in [0, 255]. */
  lemma SessionBrightnessRange(image: Option<Image>)
    requires image.Some? ==> WellFormed(image.value) && Channels8Bit(image.value)
    ensures forall gx, gy :: 0 <= gx < GridCols && 0 <= gy < GridRows ==>
              0.0 <= SessionBrightness(image)[gx][gy] <= 255.0
  {
    if image.Some? {
      BrightnessTableRange(image.value);
    }
  }

  // ---------------------------------------------------------------------------
  // The reveal events of one detection pass

  predicate Shaped(was: seq<seq<bool>>, motion: seq<seq<bool>>, brightness: seq<seq<real>>) {
    IsTable(was, GridCols, GridRows) && IsTable(motion, GridCols, GridRows) && IsTable(brightness, GridCols, GridRows)
  }

  /** Events of the rows 0 .. gy - 1 of column gx, in row order: one for each
      cell where motion is seen and that was not revealed yet. */
  function ColumnEvents(was: seq<seq<bool>>, motion: seq<seq<bool>>, brightness: seq<seq<real>>, now: int, gx: nat, gy: nat): seq<Reveal>
    requires Shaped(was, motion, brightness) && gx < GridCols && gy <= GridRows
  {
    if gy == 0 then []
    else
      ColumnEvents(was, motion, brightness, now, gx, gy - 1)
      + (if motion[gx][gy - 1] && !was[gx][gy - 1] then [Reveal(gx, gy - 1, brightness[gx][gy - 1], now)] else [])
  }

  /** Events of the columns 0 .. gx - 1, column after column. */
  function GridEvents(was: seq<seq<bool>>, motion: seq<seq<bool>>, brightness: seq<seq<real>>, now: int, gx: nat): seq<Reveal>
    requires Shaped(was, motion, brightness) && gx <= GridCols
  {
    if gx == 0 then [] else GridEvents(was, motion, brightness, now, gx - 1) + ColumnEvents(was, motion, brightness, now, gx - 1, GridRows)
  }

  /** The events of a whole pass, in the order `detectMotion` visits the cells. */
  function RevealEvents(was: seq<seq<bool>>, motion: seq<seq<bool>>, brightness: seq<seq<real>>, now: int): seq<Reveal>
    requires Shaped(was, motion, brightness)
  {
    GridEvents(was, motion, brightness, now, GridCols)
  }

  /** Column-major order: gridX first, then gridY. */
  predicate Before(a: Reveal, b: Reveal) {
    a.gridX < b.gridX || (a.gridX == b.gridX && a.gridY < b.gridY)
  }

  predicate InOrder(ev: seq<Reveal>) {
    forall k, l :: 0 <= k < l < |ev| ==> Before(ev[k], ev[l])
  }

  /** e reports a cell that flips from hidden to revealed in this pass, with
      that cell's brightness and the pass's time. */
  predicate IsFlip(was: seq<seq<bool>>, motion: seq<seq<bool>>, brightness: seq<seq<real>>, now: int, e: Reveal)
    requires Shaped(was, motion, brightness)
  {
    && e.gridX < GridCols && e.gridY < GridRows
    && motion[e.gridX][e.gridY] && !was[e.gridX][e.gridY]
    && e.brightness == brightness[e.gridX][e.gridY] && e.timestamp == now
  }

  /** Every event of ev reports a flip of this pass. */
  predicate AllFlips(was: seq<seq<bool>>, motion: seq<seq<bool>>, brightness: seq<seq<real>>, now: int, ev: seq<Reveal>)
    requires Shaped(was, motion, brightness)
  {
    forall k :: 0 <= k < |ev| ==> IsFlip(was, motion, brightness, now, ev[k])
  }

  /** Every event of ev is in column gx, above row gy. */
  predicate InColumn(ev: seq<Reveal>, gx: int, gy: int) {
    forall k :: 0 <= k < |ev| ==> ev[k].gridX == gx && ev[k].gridY < gy
  }

  /** Every event of ev is in a column left of gx. */
  predicate ColumnsBelow(ev: seq<Reveal>, gx: int) {
    forall k :: 0 <= k < |ev| ==> ev[k].gridX < gx
  }

  /** Some event of ev reports cell (i, j). */
  predicate Reports(ev: seq<Reveal>, i: int, j: int) {
    exists k :: 0 <= k < |ev| && ev[k].gridX == i && ev[k].gridY == j
  }

  lemma AllFlipsAppend(was: seq<seq<bool>>, motion: seq<seq<bool>>, brightness: seq<seq<real>>, now: int, a: seq<Reveal>, b: seq<Reveal>)
    requires Shaped(was, motion, brightness)
    requires AllFlips(was, motion, brightness, now, a) && AllFlips(was, motion, brightness, now, b)
    ensures AllFlips(was, motion, brightness, now, a + b)
  {
    forall k | 0 <= k < |a + b|
      ensures IsFlip(was, motion, brightness, now, (a + b)[k])
    {
      if k < |a| {
        assert (a + b)[k] == a[k];
      } else {
        assert (a + b)[k] == b[k - |a|];
      }
    }
  }

  lemma AppendInOrder(a: seq<Reveal>, b: seq<Reveal>)
    requires InOrder(a) && InOrder(b)
    requires forall k, l :: 0 <= k < |a| && 0 <= l < |b| ==> Before(a[k], b[l])
    ensures InOrder(a + b)
  {
    var ab := a + b;
    forall k, l | 0 <= k < l < |ab|
      ensures Before(ab[k], ab[l])
    {
      if l < |a| {
        assert ab[k] == a[k] && ab[l] == a[l];
      } else if k < |a| {
        assert ab[k] == a[k] && ab[l] == b[l - |a|];
      } else {
        assert ab[k] == b[k - |a|] && ab[l] == b[l - |a|];
      }
    }
  }

  lemma ReportsAppend(a: seq<Reveal>, b: seq<Reveal>, i: int, j: int)
    requires Reports(a, i, j) || Reports(b, i, j)
    ensures Reports(a + b, i, j)
  {
    if Reports(a, i, j) {
      var k :| 0 <= k < |a| && a[k].gridX == i && a[k].gridY == j;
      assert (a + b)[k] == a[k];
    } else {
      var k :| 0 <= k < |b| && b[k].gridX == i && b[k].gridY == j;
      assert (a + b)[|a| + k] == b[k];
    }
  }

  /** The events of the first gy rows of column gx are flips of that
      column, in row order, one for each flip among those rows. */
  lemma {:induction false} ColumnEventsFacts(was: seq<seq<bool>>, motion: seq<seq<bool>>, brightness: seq<seq<real>>, now: int, gx: nat, gy: nat)
    requires Shaped(was, motion, brightness) && gx < GridCols && gy <= GridRows
    ensures AllFlips(was, motion, brightness, now, ColumnEvents(was, motion, brightness, now, gx, gy))
    ensures InColumn(ColumnEvents(was, motion, brightness, now, gx, gy), gx, gy)
    ensures InOrder(ColumnEvents(was, motion, brightness, now, gx, gy))
    ensures forall j :: 0 <= j < gy && motion[gx][j] && !was[gx][j] ==> Reports(ColumnEvents(was, motion, brightness, now, gx, gy), gx, j)
  {
    if gy > 0 {
      var g := gy - 1;
      ColumnEventsFacts(was, motion, brightness, now, gx, g);
      var init := ColumnEvents(was, motion, brightness, now, gx, g);
      var single := if motion[gx][g] && !was[gx][g] then [Reveal(gx, g, brightness[gx][g], now)] else [];
      assert ColumnEvents(was, motion, brightness, now, gx, gy) == init + single;
      AllFlipsAppend(was, motion, brightness, now, init, single);
      forall k, l | 0 <= k < |init| && 0 <= l < |single|
        ensures Before(init[k], single[l])
      {
        assert init[k].gridX == gx && init[k].gridY < g;
      }
      AppendInOrder(init, single);
      forall k | 0 <= k < |init + single|
        ensures (init + single)[k].gridX == gx && (init + single)[k].gridY < gy
      {
        if k < |init| {
          assert (init + single)[k] == init[k];
        }
      }
      forall j | 0 <= j < gy && motion[gx][j] && !was[gx][j]
        ensures Reports(init + single, gx, j)
      {
        if j == g {
          assert single[0].gridX == gx && single[0].gridY == j;
        }
        ReportsAppend(init, single, gx, j);
      }
    }
  }

  /** The events of the first gx columns are flips of those columns, in
      column-major order, one for each flip among those columns. */
  lemma {:induction false} GridEventsFacts(was: seq<seq<bool>>, motion: seq<seq<bool>>, brightness: seq<seq<real>>, now: int, gx: nat)
    requires Shaped(was, motion, brightness) && gx <= GridCols
    ensures AllFlips(was, motion, brightness, now, GridEvents(was, motion, brightness, now, gx))
    ensures ColumnsBelow(GridEvents(was, motion, brightness, now, gx), gx)
    ensures InOrder(GridEvents(was, motion, brightness, now, gx))
    ensures forall i, j :: 0 <= i < gx && 0 <= j < GridRows && motion[i][j] && !was[i][j] ==>
              Reports(GridEvents(was, motion, brightness, now, gx), i, j)
  {
    if gx > 0 {
      var g := gx - 1;
      GridEventsFacts(was, motion, brightness, now, g);
      ColumnEventsFacts(was, motion, brightness, now, g, GridRows);
      var init := GridEvents(was, motion, brightness, now, g);
      var col := ColumnEvents(was, motion, brightness, now, g, GridRows);
      assert GridEvents(was, motion, brightness, now, gx) == init + col;
      AllFlipsAppend(was, motion, brightness, now, init, col);
      forall k, l | 0 <= k < |init| && 0 <= l < |col|
        ensures Before(init[k], col[l])
      {
        assert init[k].gridX < g && col[l].gridX == g;
      }
      AppendInOrder(init, col);
      forall k | 0 <= k < |init + col|
        ensures (init + col)[k].gridX < gx
      {
        if k < |init| {
          assert (init + col)[k] == init[k];
        } else {
          assert (init + col)[k] == col[k - |init|];
        }
      }
      forall i, j | 0 <= i < gx && 0 <= j < GridRows && motion[i][j] && !was[i][j]
        ensures Reports(init + col, i, j)
      {
        ReportsAppend(init, col, i, j);
      }
    }
  }

  /** One detection pass emits an event exactly for the cells that flip from
      hidden to revealed, each with its own brightness and the pass's time,
      in column-major order, and so at most one event per cell. */
  lemma RevealEventsMeaning(was: seq<seq<bool>>, motion: seq<seq<bool>>, brightness: seq<seq<real>>, now: int)
    requires Shaped(was, motion, brightness)
    ensures var ev := RevealEvents(was, motion, brightness, now);
            forall k :: 0 <= k < |ev| ==> IsFlip(was, motion, brightness, now, ev[k])
    ensures var ev := RevealEvents(was, motion, brightness, now);
            forall i, j :: 0 <= i < GridCols && 0 <= j < GridRows ==>
              (motion[i][j] && !was[i][j] <==> exists k :: 0 <= k < |ev| && ev[k].gridX == i && ev[k].gridY == j)
    ensures InOrder(RevealEvents(was, motion, brightness, now))
    ensures var ev := RevealEvents(was, motion, brightness, now);
            forall k, l :: 0 <= k < l < |ev| ==> ev[k].gridX != ev[l].gridX || ev[k].gridY != ev[l].gridY
  {
    var ev := RevealEvents(was, motion, brightness, now);
    GridEventsFacts(was, motion, brightness, now, GridCols);
    assert AllFlips(was, motion, brightness, now, ev);
    forall i, j | 0 <= i < GridCols && 0 <= j < GridRows && motion[i][j] && !was[i][j]
      ensures exists k :: 0 <= k < |ev| && ev[k].gridX == i && ev[k].gridY == j
    {
      assert Reports(ev, i, j);
    }
  }

  /** Identical buffers reveal nothing and emit nothing. */
  lemma IdenticalFramesRevealNothing(f: FramePair, gridWidth: nat, gridHeight: nat, was: seq<seq<bool>>, brightness: seq<seq<real>>, now: int)
    requires f.prev == f.curr && IsTable(was, GridCols, GridRows) && IsTable(brightness, GridCols, GridRows)
    ensures var motion := MotionTable(f, InstallationGrid(gridWidth, gridHeight), SampleStride, Threshold);
            && NoneTrue(motion)
            && Merge(was, motion, GridCols, GridRows) == was
            && RevealEvents(was, motion, brightness, now) == []
  {
    var motion := MotionTable(f, InstallationGrid(gridWidth, gridHeight), SampleStride, Threshold);
    IdenticalFramesStill(f, InstallationGrid(gridWidth, gridHeight), SampleStride, Threshold);
    MergeMeaning(was, motion, GridCols, GridRows);
    RevealEventsMeaning(was, motion, brightness, now);
    var ev := RevealEvents(was, motion, brightness, now);
    assert |ev| > 0 ==> IsFlip(was, motion, brightness, now, ev[0]);
  }

  /** The OSC messages of a list of events, in the same order. */
  function Sent(ev: seq<Reveal>): (ms: seq<Message>)
    ensures |ms| == |ev| && forall k :: 0 <= k < |ev| ==> Decode(ms[k]) == Some(ev[k])
  {
    forall k | 0 <= k < |ev|
      ensures Decode(Encode(ev[k])) == Some(ev[k])
    {
      EncodeRoundTrip(ev[k]);
    }
    seq(|ev|, k requires 0 <= k < |ev| => Encode(ev[k]))
  }

  lemma SentAppend(ev: seq<Reveal>, more: seq<Reveal>)
    ensures Sent(ev + more) == Sent(ev) + Sent(more)
  {
    assert forall k :: 0 <= k < |ev| ==> (ev + more)[k] == ev[k];
    assert forall k :: 0 <= k < |more| ==> (ev + more)[|ev| + k] == more[k];
  }

  /** The events of a column depend only on that column of the revealed table. */
  lemma {:induction false} ColumnEventsLocal(was: seq<seq<bool>>, was': seq<seq<bool>>, motion: seq<seq<bool>>, brightness: seq<seq<real>>, now: int, gx: nat, gy: nat)
    requires Shaped(was, motion, brightness) && Shaped(was', motion, brightness) && gx < GridCols && gy <= GridRows
    requires forall b :: 0 <= b < GridRows ==> was[gx][b] == was'[gx][b]
    ensures ColumnEvents(was, motion, brightness, now, gx, gy) == ColumnEvents(was', motion, brightness, now, gx, gy)
  {
    if gy > 0 {
      ColumnEventsLocal(was, was', motion, brightness, now, gx, gy - 1);
    }
  }

  /** Every message carries four arguments and a float brightness in [0, 1]. */
  predicate Normalised(messages: seq<Message>) {
    forall k :: 0 <= k < |messages| ==>
      |messages[k].args| == 4 && messages[k].args[2].FloatArg? && 0.0 <= messages[k].args[2].f <= 1.0
  }

  /** When every brightness of the table is in [0, 255], the messages of a
      pass carry normalised brightnesses in [0, 1]. */
  lemma RevealMessagesNormalised(was: seq<seq<bool>>, motion: seq<seq<bool>>, brightness: seq<seq<real>>, now: int)
    requires Shaped(was, motion, brightness)
    requires forall gx, gy :: 0 <= gx < GridCols && 0 <= gy < GridRows ==> 0.0 <= brightness[gx][gy] <= 255.0
    ensures Normalised(Sent(RevealEvents(was, motion, brightness, now)))
  {
    var ev := RevealEvents(was, motion, brightness, now);
    RevealEventsMeaning(was, motion, brightness, now);
    forall k | 0 <= k < |ev|
      ensures 0.0 <= ev[k].brightness <= 255.0
    {
      assert IsFlip(was, motion, brightness, now, ev[k]);
    }
    var ms := Sent(ev);
    forall k | 0 <= k < |ms|
      ensures |ms[k].args| == 4 && ms[k].args[2].FloatArg? && 0.0 <= ms[k].args[2].f <= 1.0
    {
      assert ms[k] == Encode(ev[k]);
    }
  }

  lemma SentSnoc(ev: seq<Reveal>, e: Reveal)
    ensures Sent(ev + [e]) == Sent(ev) + [Encode(e)]
  {
    assert forall k :: 0 <= k < |ev| ==> (ev + [e])[k] == ev[k];
  }

  // ---------------------------------------------------------------------------
  // Status

  datatype Status = Calibrating | WaitingForMotion | Revealing | Complete

  /** The text `getInstallationStatus` reports for each status. */
  function Label(s: Status): string {
    match s
    case Calibrating => "Calibrando..."
    case WaitingForMotion => "Esperando movimiento"
    case Revealing => "Revelando..."
    case Complete => "Completa"
  }

  function StatusOf(frameCount: nat, revealedCount: nat): Status {
    if frameCount <= MinFramesBeforeDetection then Calibrating
    else if revealedCount == GridCols * GridRows then Complete
    else if revealedCount > 0 then Revealing
    else WaitingForMotion
  }

  /** The status is calibrating exactly during the warm-up; afterwards it is
      complete exactly when every cell is revealed, waiting exactly when none
      is, and revealing otherwise. */
  lemma StatusMeaning(frameCount: nat, revealed: seq<seq<bool>>)
    requires IsTable(revealed, GridCols, GridRows)
    ensures Count(revealed) <= GridCols * GridRows
    ensures StatusOf(frameCount, Count(revealed)) == Calibrating <==> frameCount <= MinFramesBeforeDetection
    ensures StatusOf(frameCount, Count(revealed)) == Complete <==> frameCount > MinFramesBeforeDetection && AllTrue(revealed)
    ensures StatusOf(frameCount, Count(revealed)) == WaitingForMotion <==> frameCount > MinFramesBeforeDetection && NoneTrue(revealed)
    ensures StatusOf(frameCount, Count(revealed)) == Revealing
            <==> frameCount > MinFramesBeforeDetection && !AllTrue(revealed) && !NoneTrue(revealed)
  {
    CountRange(revealed, GridCols, GridRows);
    assert AllTrue(revealed) ==> revealed[0][0];
  }

  /** The object `getInstallationStatus` returns, without its `fps` field. */
  datatype StatusReport = StatusReport(revealed: nat, total: nat, status: string)

  // ---------------------------------------------------------------------------
  // The running installation

  class Session {
    var canvasWidth: nat
    var canvasHeight: nat
    var gridWidth: nat
    var gridHeight: nat
    /** The reference image; None while it is not loaded (`imageLoaded` false). */
    var image: Option<Image>
    var isVideoReady: bool
    var frameCount: nat
    var motion: seq<seq<bool>>
    var revealed: seq<seq<bool>>
    var brightness: seq<seq<real>>

    /** The three tables have the grid's shape and the image, when loaded,
        is a well-formed 8-bit RGBA image. */
    ghost predicate Formed()
      reads this
    {
      && IsTable(motion, GridCols, GridRows)
      && IsTable(revealed, GridCols, GridRows)
      && IsTable(brightness, GridCols, GridRows)
      && (image.Some? ==> WellFormed(image.value) && Channels8Bit(image.value))
    }

    /** Formed, and the brightness table is the image's. */
    ghost predicate Valid()
      reads this
    {
      Formed() && brightness == SessionBrightness(image)
    }

    /** Everything but the frame counter and the three tables. */
    ghost function Settings(): (nat, nat, nat, nat, Option<Image>, bool)
      reads this
    {
      (canvasWidth, canvasHeight, gridWidth, gridHeight, image, isVideoReady)
    }

    function GridOf(): Grid
      reads this
    {
      InstallationGrid(gridWidth, gridHeight)
    }

    /** The two buffers, indexed as canvasWidth x canvasHeight RGBA canvases. */
    function Frames(prev: seq<int>, curr: seq<int>): FramePair
      reads this
    {
      FramePair(prev, curr, canvasWidth, canvasHeight)
    }

    /** What one detection pass leaves behind, given the revealed and motion
        tables before it: nothing changes while the frame buffers do not
        exist (the camera is not ready) or when a buffer is empty; otherwise
        the motion table is recomputed from scratch, the revealed table gains
        the cells with motion, and one message goes out per flipped cell. */
    ghost predicate Detected(was: seq<seq<bool>>, previousMotion: seq<seq<bool>>, prev: seq<int>, curr: seq<int>, now: int, messages: seq<Message>)
      requires Valid() && IsTable(was, GridCols, GridRows)
      reads this
    {
      if !isVideoReady || |prev| == 0 || |curr| == 0 then
        motion == previousMotion && revealed == was && messages == []
      else
        && motion == MotionTable(Frames(prev, curr), GridOf(), SampleStride, Threshold)
        && revealed == Merge(was, motion, GridCols, GridRows)
        && messages == Sent(RevealEvents(was, motion, brightness, now))
    }

    /** `preload` followed by `setup`: `loaded` is the reference image when
        it loaded and None when it failed to. */
    constructor (windowWidth: nat, windowHeight: nat, loaded: Option<Image>)
      requires loaded.Some? ==> WellFormed(loaded.value) && Channels8Bit(loaded.value)
      ensures Valid()
      ensures canvasWidth == windowWidth && canvasHeight == windowHeight && image == loaded
      ensures !isVideoReady && frameCount == 0
      ensures gridWidth == (if loaded.Some? then windowWidth else 0)
      ensures gridHeight == (if loaded.Some? then windowHeight else 0)
      ensures motion == Filled(GridCols, GridRows, false) && revealed == Filled(GridCols, GridRows, false)
      ensures brightness == if loaded.Some? then BrightnessTable(loaded.value) else Filled(GridCols, GridRows, 0.0)
    {
      canvasWidth := windowWidth;
      canvasHeight := windowHeight;
      gridWidth := 0;
      gridHeight := 0;
      image := loaded;
      isVideoReady := false;
      frameCount := 0;
      motion := [];
      revealed := [];
      brightness := [];
      new;
      InitializeMotionGrid();
      CalculateGridDimensions();
    }

    /** `calculateGridDimensions`: once the image is loaded the grid covers
        the whole canvas; before that nothing changes. */
    method CalculateGridDimensions()
      modifies this
      ensures gridWidth == (if image.Some? then canvasWidth else old(gridWidth))
      ensures gridHeight == (if image.Some? then canvasHeight else old(gridHeight))
      ensures canvasWidth == old(canvasWidth) && canvasHeight == old(canvasHeight)
      ensures image == old(image) && isVideoReady == old(isVideoReady) && frameCount == old(frameCount)
      ensures motion == old(motion) && revealed == old(revealed) && brightness == old(brightness)
    {
      if image.None? {
        return;
      }
      gridWidth := canvasWidth;
      gridHeight := canvasHeight;
    }

    /** `initializeMotionGrid`: all motion and revealed entries false, the
        brightness table zero, then filled from the image when it is loaded. */
    method InitializeMotionGrid()
      requires image.Some? ==> WellFormed(image.value) && Channels8Bit(image.value)
      modifies this
      ensures Valid() && Settings() == old(Settings()) && frameCount == old(frameCount)
      ensures motion == Filled(GridCols, GridRows, false) && revealed == Filled(GridCols, GridRows, false)
      ensures brightness == if image.Some? then BrightnessTable(image.value) else Filled(GridCols, GridRows, 0.0)
    {
      motion := [];
      revealed := [];
      brightness := [];
      for i := 0 to GridCols
        invariant Settings() == old(Settings()) && frameCount == old(frameCount)
        invariant motion == Filled(i, GridRows, false) && revealed == Filled(i, GridRows, false)
        invariant brightness == Filled(i, GridRows, 0.0)
      {
        var motionColumn: seq<bool> := [];
        var revealedColumn: seq<bool> := [];
        var brightnessColumn: seq<real> := [];
        for j := 0 to GridRows
          invariant motionColumn == seq(j, _ => false) && revealedColumn == seq(j, _ => false)
          invariant brightnessColumn == seq(j, _ => 0.0)
        {
          motionColumn := motionColumn + [false];
          revealedColumn := revealedColumn + [false];
          brightnessColumn := brightnessColumn + [0.0];
        }
        motion := motion + [motionColumn];
        revealed := revealed + [revealedColumn];
        brightness := brightness + [brightnessColumn];
      }
      if image.Some? {
        CalculateCellBrightness();
      }
    }

    /** `calculateCellBrightness`: the brightness of every cell's image
        segment; nothing happens while the image is not loaded. */
    method CalculateCellBrightness()
      requires Formed()
      modifies this
      ensures Formed() && Settings() == old(Settings()) && frameCount == old(frameCount)
      ensures motion == old(motion) && revealed == old(revealed)
      ensures brightness == if image.Some? then BrightnessTable(image.value) else old(brightness)
    {
      if image.None? {
        return;
      }
      ghost var target := BrightnessTable(image.value);
      for gridX := 0 to GridCols
        invariant Formed() && Settings() == old(Settings()) && frameCount == old(frameCount)
        invariant motion == old(motion) && revealed == old(revealed)
        invariant forall a, b :: 0 <= a < GridCols && 0 <= b < GridRows ==>
                    brightness[a][b] == if a < gridX then target[a][b] else old(brightness)[a][b]
      {
        for gridY := 0 to GridRows
          invariant Formed() && Settings() == old(Settings()) && frameCount == old(frameCount)
          invariant motion == old(motion) && revealed == old(revealed)
          invariant forall a, b :: 0 <= a < GridCols && 0 <= b < GridRows ==>
                      brightness[a][b] == if a < gridX || (a == gridX && b < gridY) then target[a][b] else old(brightness)[a][b]
        {
          var cellBrightness := CellAverageBrightness(image, GridCols, GridRows, gridX, gridY);
          brightness := Update(brightness, gridX, gridY, cellBrightness);
        }
      }
      TableExtensionality(brightness, target, GridCols, GridRows);
    }

    /** The video's `loadedmetadata` listener: the camera is ready and the
        frame buffers exist from now on. */
    method OnVideoReady()
      modifies this
      ensures isVideoReady
      ensures canvasWidth == old(canvasWidth) && canvasHeight == old(canvasHeight)
      ensures gridWidth == old(gridWidth) && gridHeight == old(gridHeight) && image == old(image)
      ensures frameCount == old(frameCount)
      ensures motion == old(motion) && revealed == old(revealed) && brightness == old(brightness)
    {
      isVideoReady := true;
    }

    /** `analyzeGridCell` of the installation: the bounds of cell (gridX,
        gridY) in the full-canvas grid, sampled at stride 4. */
    method AnalyzeGridCell(prev: seq<int>, curr: seq<int>, gridX: int, gridY: int) returns (moved: bool)
      ensures moved == CellMoves(Frames(prev, curr), GridOf(), gridX, gridY, SampleStride, Threshold)
      ensures moved <==> CellTally(Frames(prev, curr), CellBounds(GridOf(), gridX, gridY), SampleStride).count > 0
                         && Average(CellTally(Frames(prev, curr), CellBounds(GridOf(), gridX, gridY), SampleStride)) > Threshold as real
    {
      var startX := Edge(0, gridWidth, GridCols, gridX);
      var startY := Edge(0, gridHeight, GridRows, gridY);
      var endX := Edge(0, gridWidth, GridCols, gridX + 1);
      var endY := Edge(0, gridHeight, GridRows, gridY + 1);
      moved := AnalyzeCell(Frames(prev, curr), Bounds(startX, startY, endX, endY), SampleStride, Threshold);
      ExceedsIsStrictAverage(CellTally(Frames(prev, curr), CellBounds(GridOf(), gridX, gridY), SampleStride), Threshold);
    }

    /** The loop at the start of `detectMotion` that sets every motion entry
        to false. */
    method ClearMotion()
      requires Valid()
      modifies this
      ensures Valid() && Settings() == old(Settings()) && frameCount == old(frameCount)
      ensures revealed == old(revealed) && brightness == old(brightness)
      ensures motion == Filled(GridCols, GridRows, false)
    {
      for i := 0 to GridCols
        invariant Valid() && Settings() == old(Settings()) && frameCount == old(frameCount)
        invariant revealed == old(revealed) && brightness == old(brightness)
        invariant forall a, b :: 0 <= a < i && 0 <= b < GridRows ==> !motion[a][b]
      {
        for j := 0 to GridRows
          invariant Valid() && Settings() == old(Settings()) && frameCount == old(frameCount)
          invariant revealed == old(revealed) && brightness == old(brightness)
          invariant forall a, b :: 0 <= a < GridCols && 0 <= b < GridRows && (a < i || (a == i && b < j)) ==> !motion[a][b]
        {
          motion := Update(motion, i, j, false);
        }
      }
      TableExtensionality(motion, Filled(GridCols, GridRows, false), GridCols, GridRows);
    }

    /** One step of the analysis loop of `detectMotion`: cell (gridX, gridY)
        gets its fresh motion decision and, when it flips from hidden to
        revealed, is revealed and reported with its brightness. */
    method VisitCell(prev: seq<int>, curr: seq<int>, now: int, gridX: nat, gridY: nat) returns (sent: seq<Message>)
      requires Valid() && gridX < GridCols && gridY < GridRows
      modifies this
      ensures Valid() && Settings() == old(Settings()) && frameCount == old(frameCount) && brightness == old(brightness)
      ensures motion == Update(old(motion), gridX, gridY, CellMoves(Frames(prev, curr), GridOf(), gridX, gridY, SampleStride, Threshold))
      ensures var flip := CellMoves(Frames(prev, curr), GridOf(), gridX, gridY, SampleStride, Threshold) && !old(revealed)[gridX][gridY];
              && revealed == (if flip then Update(old(revealed), gridX, gridY, true) else old(revealed))
              && sent == (if flip then [Encode(Reveal(gridX, gridY, brightness[gridX][gridY], now))] else [])
    {
      sent := [];
      var motionDetected := AnalyzeGridCell(prev, curr, gridX, gridY);
      motion := Update(motion, gridX, gridY, motionDetected);
      if motionDetected && !revealed[gridX][gridY] {
        revealed := Update(revealed, gridX, gridY, true);
        if gridX < |brightness| && gridY < |brightness[gridX]| {
          var message := SendOscMessage(OscEnabled, gridX, gridY, brightness[gridX][gridY], now);
          if message.Some? {
            sent := [message.value];
          }
        }
      }
    }

    /** The motion table of a pass over the two buffers. */
    ghost function Target(prev: seq<int>, curr: seq<int>): seq<seq<bool>>
      reads this
    {
      MotionTable(Frames(prev, curr), GridOf(), SampleStride, Threshold)
    }

    /** The inner loop of the analysis in `detectMotion`: every row of
        column gridX, top to bottom. */
    method DetectColumn(prev: seq<int>, curr: seq<int>, now: int, gridX: nat) returns (sent: seq<Message>)
      requires Valid() && gridX < GridCols
      modifies this
      ensures Valid() && Settings() == old(Settings()) && frameCount == old(frameCount) && brightness == old(brightness)
      ensures forall a, b :: 0 <= a < GridCols && 0 <= b < GridRows ==>
                motion[a][b] == if a == gridX then Target(prev, curr)[a][b] else old(motion)[a][b]
      ensures forall a, b :: 0 <= a < GridCols && 0 <= b < GridRows ==>
                revealed[a][b] == if a == gridX then old(revealed)[a][b] || Target(prev, curr)[a][b] else old(revealed)[a][b]
      ensures sent == Sent(ColumnEvents(old(revealed), Target(prev, curr), brightness, now, gridX, GridRows))
    {
      ghost var target := Target(prev, curr);
      ghost var was := revealed;
      sent := [];
      for gridY := 0 to GridRows
        invariant Valid() && Settings() == old(Settings()) && frameCount == old(frameCount) && brightness == old(brightness)
        invariant forall a, b :: 0 <= a < GridCols && 0 <= b < GridRows ==>
                    motion[a][b] == if a == gridX && b < gridY then target[a][b] else old(motion)[a][b]
        invariant forall a, b :: 0 <= a < GridCols && 0 <= b < GridRows ==>
                    revealed[a][b] == if a == gridX && b < gridY then was[a][b] || target[a][b] else was[a][b]
        invariant sent == Sent(ColumnEvents(was, target, brightness, now, gridX, gridY))
      {
        ghost var before := ColumnEvents(was, target, brightness, now, gridX, gridY);
        ghost var flip := target[gridX][gridY] && !was[gridX][gridY];
        var cellSent := VisitCell(prev, curr, now, gridX, gridY);
        sent := sent + cellSent;
        if flip {
          SentSnoc(before, Reveal(gridX, gridY, brightness[gridX][gridY], now));
        }
      }
    }

    /** `detectMotion`. */
    method DetectMotion(prev: seq<int>, curr: seq<int>, now: int) returns (messages: seq<Message>)
      requires Valid()
      modifies this
      ensures Valid() && Settings() == old(Settings()) && frameCount == old(frameCount) && brightness == old(brightness)
      ensures Detected(old(revealed), old(motion), prev, curr, now, messages)
      ensures Normalised(messages)
    {
      if !isVideoReady || |prev| == 0 || |curr| == 0 {
        return [];
      }
      ClearMotion();
      ghost var was := revealed;
      ghost var target := Target(prev, curr);
      messages := [];
      for gridX := 0 to GridCols
        invariant Valid() && Settings() == old(Settings()) && frameCount == old(frameCount) && brightness == old(brightness)
        invariant target == Target(prev, curr)
        invariant forall a, b :: 0 <= a < GridCols && 0 <= b < GridRows ==> motion[a][b] == (a < gridX && target[a][b])
        invariant forall a, b :: 0 <= a < GridCols && 0 <= b < GridRows ==> revealed[a][b] == (was[a][b] || (a < gridX && target[a][b]))
        invariant messages == Sent(GridEvents(was, target, brightness, now, gridX))
      {
        ghost var before := revealed;
        var sent := DetectColumn(prev, curr, now, gridX);
        ColumnEventsLocal(before, was, target, brightness, now, gridX, GridRows);
        SentAppend(GridEvents(was, target, brightness, now, gridX), ColumnEvents(was, target, brightness, now, gridX, GridRows));
        messages := messages + sent;
      }
      TableExtensionality(motion, target, GridCols, GridRows);
      TableExtensionality(revealed, Merge(was, target, GridCols, GridRows), GridCols, GridRows);
      SessionBrightnessRange(image);
      RevealMessagesNormalised(was, target, brightness, now);
    }

    /** `draw`, reduced to its state changes: nothing happens until both the
        camera and the image are ready; then every frame is counted, and
        detection runs only once more than 60 frames have been counted. */
    method Draw(prev: seq<int>, curr: seq<int>, now: int) returns (messages: seq<Message>)
      requires Valid()
      modifies this
      ensures Valid() && Settings() == old(Settings()) && brightness == old(brightness)
      ensures !isVideoReady || image.None? ==>
                frameCount == old(frameCount) && motion == old(motion) && revealed == old(revealed) && messages == []
      ensures isVideoReady && image.Some? ==> frameCount == old(frameCount) + 1
      ensures isVideoReady && image.Some? && frameCount <= MinFramesBeforeDetection ==>
                motion == old(motion) && revealed == old(revealed) && messages == []
      ensures isVideoReady && image.Some? && frameCount > MinFramesBeforeDetection ==>
                Detected(old(revealed), old(motion), prev, curr, now, messages)
      ensures Normalised(messages)
    {
      messages := [];
      if !isVideoReady || image.None? {
        return;
      }
      frameCount := frameCount + 1;
      if frameCount > MinFramesBeforeDetection {
        messages := DetectMotion(prev, curr, now);
      }
    }

    /** `keyPressed`, the reset branch: 'r' or 'R' hides every segment again
        and touches nothing else; any other key changes nothing here. */
    method KeyPressed(key: char)
      requires Valid()
      modifies this
      ensures Valid() && Settings() == old(Settings()) && frameCount == old(frameCount)
      ensures motion == old(motion) && brightness == old(brightness)
      ensures key == 'r' || key == 'R' ==> revealed == Filled(GridCols, GridRows, false)
      ensures !(key == 'r' || key == 'R') ==> revealed == old(revealed)
    {
      if key == 'r' || key == 'R' {
        for i := 0 to GridCols
          invariant Valid() && Settings() == old(Settings()) && frameCount == old(frameCount)
          invariant motion == old(motion) && brightness == old(brightness)
          invariant forall a, b :: 0 <= a < GridCols && 0 <= b < GridRows ==> revealed[a][b] == (a >= i && old(revealed)[a][b])
        {
          for j := 0 to GridRows
            invariant Valid() && Settings() == old(Settings()) && frameCount == old(frameCount)
            invariant motion == old(motion) && brightness == old(brightness)
            invariant forall a, b :: 0 <= a < GridCols && 0 <= b < GridRows ==>
                        revealed[a][b] == (!(a < i || (a == i && b < j)) && old(revealed)[a][b])
          {
            if i < |revealed| {
              revealed := Update(revealed, i, j, false);
            }
          }
        }
        TableExtensionality(revealed, Filled(GridCols, GridRows, false), GridCols, GridRows);
      }
    }

    /** The counting and the status of `getInstallationStatus`. */
    method GetInstallationStatus() returns (report: StatusReport)
      requires Valid()
      ensures report.revealed == Count(revealed) && report.total == GridCols * GridRows
      ensures report.status == Label(StatusOf(frameCount, report.revealed))
      ensures report.revealed <= report.total
      ensures report.status == "Calibrando..." <==> frameCount <= MinFramesBeforeDetection
      ensures report.status == "Completa" <==> frameCount > MinFramesBeforeDetection && AllTrue(revealed)
    {
      var revealedCount := CountTrue(revealed);
      var status := "Calibrando...";
      if frameCount > MinFramesBeforeDetection {
        if revealedCount == GridCols * GridRows {
          status := "Completa";
        } else if revealedCount > 0 {
          status := "Revelando...";
        } else {
          status := "Esperando movimiento";
        }
      }
      StatusMeaning(frameCount, revealed);
      report := StatusReport(revealedCount, GridCols * GridRows, status);
    }

    /** The counting of `logDebugInfo`: how many cells are revealed, and
        whether the installation is complete. */
    method LogDebugInfo() returns (revealedCount: nat, complete: bool)
      requires Valid()
      ensures revealedCount == Count(revealed) && revealedCount <= GridCols * GridRows
      ensures complete <==> AllTrue(revealed)
    {
      revealedCount := CountTrue(revealed);
      complete := revealedCount == GridCols * GridRows;
      CountRange(revealed, GridCols, GridRows);
    }
  }
}
