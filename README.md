# Motion-reveal grid: a Dafny model

This project models the motion-detection core of two p5.js sketches.

- `sketch_instalacion.js` is the fullscreen installation.
  - A 3 x 4 grid covers the whole canvas.
  - Every frame after a 60-frame warm-up, each cell is scored by the mean
    luminance difference between the previous and the current camera frame.
    Pixels are sampled every 4 in x and y.
  - A cell whose mean is strictly above 25 counts as moving. A moving cell
    reveals the matching segment of a reference image for good.
  - Each newly revealed cell emits one OSC message. The message carries the
    segment's mean brightness, normalised to [0, 1].
  - The key 'r' hides every segment again.
  - A status summary counts the revealed cells.
- `sketch.js` is the windowed demo.
  - A fixed 2 x 3 grid, 270 x 480 pixels, sits centred in a 640 x 480 canvas.
  - Every pixel is sampled, with a threshold of 30 that a slider can change.
  - The motion table is rebuilt every frame. There is no reveal state.

Modules, one file each:

| file | module | contents |
|---|---|---|
| `options.dfy` | `Options` | `Option` |
| `pixels.dfy` | `Pixels` | RGBA buffers, the guarded pixel index, luminance differences, the per-cell accumulate-and-average loop (`AnalyzeCell`), shared by both sketches |
| `geometry.dfy` | `Geometry` | cell bounds `floor(offset + i * extent / parts)`, the motion table of a pass |
| `tables.dfy` | `Tables` | the `[gridX][gridY]` tables, the revealed-table merge, the counting loop |
| `reference_image.dfy` | `ReferenceImage` | the proportional image segment of a cell and its mean brightness |
| `osc.dfy` | `Osc` | the reveal message: address, arguments, and a receiver's reading of it |
| `installation.dfy` | `Installation` | the installation's constants, its reveal events and status, and the `Session` class holding its state |
| `windowed.dfy` | `Windowed` | the demo's fixed geometry and the `Demo` class holding its state |

Modelling choices:

- **Luminance.** It is kept exact and scaled by 1000: `299 R + 587 G + 114 B`.
- **Comparison.** A cell moves when its scaled total is above
  `1000 * threshold * count`. `ExceedsIsStrictAverage` proves this is the
  source's test `total / count > threshold` on the real mean.
  `AnalyzeCell` itself computes the real mean and compares it, as the
  source does.
- **Tables.** `motionGrid`, `revealedCells` and `cellBrightness` are
  sequences of columns. The methods reassign them cell by cell, in the
  same nested loops as the source.
- **Frame buffers.** They are the `prev` / `curr` parameters.
- **Time.** `Date.now()` is the `now` parameter.
- **Image.** The reference image is an `Option<Image>`. `None` means it
  failed to load (`imageLoaded` false).

## Model

| member | source | states |
|---|---|---|
| Pixels.RowStartIsProduct | sketch_instalacion.js:261 | the row offset used for the pixel index is y * width, so the index is (y * width + x) * 4 |
| Pixels.IndexInside | sketch_instalacion.js:260-261 | a pixel inside the canvas has its four RGBA entries inside a canvas-sized buffer |
| Pixels.ReadableInBounds | sketch_instalacion.js:260-273 | every pixel that passes the canvas and buffer-length guards has its R, G, B entries inside both buffers |
| Pixels.ExceedsIsStrictAverage | sketch_instalacion.js:286-289 | the decision is true iff at least one pixel was sampled and the mean difference is strictly greater than the threshold; a mean equal to the threshold gives false |
| Pixels.AnalyzeCell | sketch_instalacion.js:254-289 | the stride loop over x then y returns exactly the decision on the tally of the guarded lattice pixels of the cell |
| Pixels.CellCountBound | sketch_instalacion.js:258-266 | the number of sampled pixels is at most the number of stride-lattice points of the cell |
| Pixels.UniformShift | sketch_instalacion.js:275-289 | when every readable pixel differs by the same d, the total is d times the count and the cell moves iff some pixel was sampled and d is above the threshold |
| Pixels.IdenticalFramesNeverMove | sketch_instalacion.js:275-289 | identical buffers give a zero total and no motion for any threshold >= 0 |
| Pixels.StrideOneSamplesEveryPixel | sketch.js:142-170 | at stride 1 with canvas-sized buffers, the count is exactly the number of cell pixels inside the canvas |
| Geometry.EdgeExact | sketch_instalacion.js:249-252 | floor(offset + i * (extent / parts)) equals offset + (i * extent) div parts |
| Geometry.EdgeMonotone | sketch_instalacion.js:249-252 | cell edges never decrease with the cell index |
| Geometry.EdgeEnds | sketch_instalacion.js:117-124 | the first edge is the offset and the last is offset + extent |
| Geometry.CellInsideGrid | sketch_instalacion.js:249-252 | every cell lies inside the grid rectangle with start <= end on both axes |
| Geometry.CellsDisjoint | sketch.js:133-136 | a later cell of an axis starts at or after the end of an earlier one |
| Geometry.CellsCover | sketch.js:133-136 | every coordinate of the grid's extent lies in some cell |
| Geometry.IdenticalFramesStill | sketch_instalacion.js:230-233 | identical buffers leave every entry of the motion table false |
| Tables.Update | sketch_instalacion.js:233 | assigning one entry changes that entry and nothing else |
| Tables.MergeMeaning | sketch_instalacion.js:236-237 | the merged revealed table never clears a cell, sets every cell with motion, keeps every other cell, and equals the old table when no cell moved |
| Tables.CountRange | sketch_instalacion.js:371-378 | the revealed count is at most cols * rows, equals it iff every cell is revealed, and is 0 iff none is |
| Tables.CountTrue | sketch_instalacion.js:371-378 | the nested counting loop returns the number of true entries |
| ReferenceImage.ImageCellWithin | sketch_instalacion.js:495-500 | the proportional image region of every cell lies inside the image |
| ReferenceImage.CellAverageBrightness | sketch_instalacion.js:491-521 | returns 0 while no image is loaded, otherwise the mean luminance of the cell's image region |
| ReferenceImage.CellSamplesWholeRegion | sketch_instalacion.js:506-520 | the loop visits every pixel of the region exactly once, and an empty region has brightness 0 |
| ReferenceImage.BrightnessInRange | sketch_instalacion.js:514-520 | with 8-bit channels a cell's brightness lies in [0, 255] |
| Osc.Normalize | sketch_instalacion.js:527 | the normalised brightness times 255 is the brightness, and a brightness in [0, 255] normalises into [0, 1] |
| Osc.DecimalRoundTrip | sketch_instalacion.js:537 | the formatted cell index reads back as the same number |
| Osc.AddressRoundTrip | sketch_instalacion.js:537 | the address /gaza/cell/x/y parses back to (x, y) |
| Osc.EncodeRoundTrip | sketch_instalacion.js:535-546 | a receiver recovers the cell, the brightness and the timestamp from every message |
| Osc.SendOscMessage | sketch_instalacion.js:523-533 | a message is produced iff OSC is enabled, and it reports exactly the cell, brightness and time given |
| Installation.BrightnessTableRange | sketch_instalacion.js:469-479 | every entry of the brightness table is in [0, 255] |
| Installation.SessionBrightness | sketch_instalacion.js:336-345 | the session's brightness table, the image's when loaded and all 0 otherwise, has the grid's shape |
| Installation.SessionBrightnessRange | sketch_instalacion.js:336-345 | every entry of the session's brightness table is in [0, 255] |
| Installation.RevealMessagesNormalised | sketch_instalacion.js:523-527 | every message a pass sends carries four arguments whose third, the brightness divided by 255, is in [0, 1] |
| Installation.RevealEventsMeaning | sketch_instalacion.js:230-242 | a pass emits an event exactly for each cell that flips from hidden to revealed, with that cell's brightness, in column-major order, at most once per cell |
| Installation.IdenticalFramesRevealNothing | sketch_instalacion.js:230-242 | identical buffers leave the revealed table unchanged and emit nothing |
| Installation.Sent | sketch_instalacion.js:241 | one message per event, in order, each decoding to its event |
| Installation.StatusMeaning | sketch_instalacion.js:380-389 | 'Calibrando...' exactly during warm-up; afterwards 'Completa' iff all cells are revealed, 'Esperando movimiento' iff none is, 'Revelando...' otherwise |
| Installation.Session.constructor | sketch_instalacion.js:67-111 | after setup from an 8-bit image (or none) the tables are all false, the brightness table is filled from the loaded image, the grid covers the canvas once the image is loaded, and the camera is not ready |
| Installation.Session.CalculateGridDimensions | sketch_instalacion.js:113-124 | the grid becomes the canvas size when the image is loaded; otherwise nothing changes |
| Installation.Session.InitializeMotionGrid | sketch_instalacion.js:326-346 | motion and revealed become all false; brightness becomes the image's table when it is loaded and all 0 otherwise |
| Installation.Session.CalculateCellBrightness | sketch_instalacion.js:469-479 | every brightness entry becomes its cell's image brightness; nothing changes without an image |
| Installation.Session.OnVideoReady | sketch_instalacion.js:91-97 | the camera becomes ready and nothing else changes |
| Installation.Session.AnalyzeGridCell | sketch_instalacion.js:248-290 | the decision for a cell of the full-canvas grid at stride 4 is true iff some pixel was sampled and the mean difference is strictly above 25 |
| Installation.Session.ClearMotion | sketch_instalacion.js:221-227 | every motion entry becomes false and nothing else changes |
| Installation.Session.VisitCell | sketch_instalacion.js:232-243 | the cell's motion entry becomes its decision; a cell that moves and was hidden is revealed and reported with its brightness; otherwise revealed and messages stay as they were |
| Installation.Session.DetectColumn | sketch_instalacion.js:231-244 | one column's motion entries become the fresh decisions, its revealed entries gain the moving cells, other columns are untouched, and its events go out in row order |
| Installation.Session.DetectMotion | sketch_instalacion.js:211-246 | before the camera is ready or with an empty buffer nothing changes; otherwise motion is exactly the fresh motion table, revealed is the old table or-ed with it, and the messages are the flip events, each with a normalised brightness in [0, 1] |
| Installation.Session.Draw | sketch_instalacion.js:144-166 | nothing happens until the camera and the image are ready; then the frame counter advances by one, and detection runs only when the counter is above 60; every message's normalised brightness is in [0, 1] |
| Installation.Session.KeyPressed | sketch_instalacion.js:400-411 | 'r' or 'R' hides every cell and touches neither motion nor brightness; other keys change nothing |
| Installation.Session.GetInstallationStatus | sketch_instalacion.js:370-397 | reports the revealed count, the total 12 and the status text of that count; revealed <= total, 'Calibrando...' iff in warm-up, 'Completa' iff past warm-up and all cells are revealed |
| Installation.Session.LogDebugInfo | sketch_instalacion.js:348-367 | the revealed count is the number of revealed cells, at most 12, and the completion message appears iff every cell is revealed |
| Windowed.DemoGeometry | sketch.js:133-136 | with the 270 x 480 grid at (185, 0), cell (i, j) is 135 x 160 at (185 + 135 i, 160 j), lies inside 640 x 480, and adjacent cells share their edge |
| Windowed.DemoCellSamplesWholeCell | sketch.js:142-179 | with canvas-sized buffers each cell samples all 21600 of its pixels, so it moves iff the mean over the whole cell is above the threshold |
| Windowed.DemoIdenticalFramesStill | sketch.js:123-128 | identical buffers give an all-false motion table |
| Windowed.Demo.constructor | sketch.js:21-47 | after setup the threshold is 30, the camera is not ready and the motion table is all false |
| Windowed.Demo.InitializeMotionGrid | sketch.js:218-226 | the motion table becomes a 2 x 3 table of false |
| Windowed.Demo.OnVideoReady | sketch.js:33-38 | the camera becomes ready and nothing else changes |
| Windowed.Demo.SetThreshold | sketch.js:238-241 | the threshold takes the slider's value and nothing else changes |
| Windowed.Demo.AnalyzeGridCell | sketch.js:131-180 | the decision for a demo cell at stride 1 is true iff some pixel was sampled and the mean difference is strictly above the threshold |
| Windowed.Demo.DetectMotion | sketch.js:107-129 | without frame buffers nothing changes; otherwise every motion entry is exactly its cell's fresh decision, with no history |
| Windowed.Demo.Draw | sketch.js:49-77 | nothing happens before the camera is ready; afterwards every frame runs a detection pass |

## Left out

- Rendering is not modelled: `revealImageSegments`, `drawMotionGrid`, `drawGrid`, `drawInfo`, the mirrored video draw and the loading screens. They only draw and change no state.
- Frame acquisition is not modelled: `createCapture`, `createGraphics`, `loadPixels`, `updateCurrentFrame` and `updatePrevFrame`. The two buffers are inputs, so the horizontal mirroring of the current frame is not modelled either.
- The frame buffers exist exactly when the camera is ready, because both are set up in the same listener. The model uses `isVideoReady` for the `prevFrame && currentFrame` test.
- DOM and UI plumbing is not modelled: the page styling, the information key ('i') and the opacity slider. None of these touches the grid state.
- `windowResized` (also reached through the fullscreen toggle 'f') is not modelled. It resizes the canvas and the grid and recreates blank frame buffers. The model fixes the canvas size at setup, so it does not capture the spurious motion that a blank previous buffer causes after a resize.
- Images are 8-bit. The loaded image is assumed to hold RGBA channels in [0, 255], as p5 pixel arrays do; the session's invariant states this.
- Logging is not modelled: `console.log`, `frameRate()` and `toFixed` formatting. The `frameCount % 60` trigger of `logDebugInfo` is also left out; `LogDebugInfo` models only its counting.
- Installation.Session.GetInstallationStatus: the `fps` field is left out because it comes from `frameRate()`.
- Arithmetic is exact. Luminance, means and cell edges use exact rationals, not IEEE doubles. A floor of a double product, or a comparison of a double mean against the threshold, can differ from the exact value by rounding.
- Time is one `now` per pass. Each message's timestamp is the pass's `now`, where the source calls `Date.now()` for each message.
- Installation.Session.VisitCell: the source's `cellBrightness[gridX][gridY] !== undefined` guard always holds in the model, because the brightness table always has the full shape.
- `OscEnabled` is the constant `true`, as in the source. `SendOscMessage` still takes the flag as a parameter.
- The OSC host and port, and the actual network send, are not modelled: the source only logs a simulated message.
- Windowed.Demo.SetThreshold: the threshold is an integer. The slider's value is a string that JavaScript compares numerically; that coercion, and fractional slider steps, are not modelled.
- The reference image's loading is an input. The callbacks of `preload` are folded into the `Session` constructor, whose `loaded` argument is `None` when loading fails.
