# wmask in Dafny

A model of the pixel-masking engine of wmask, a browser tool for applying
reversible "censorship" masks (xor, negation, channel rotation) to a
rectangular, grid-aligned selection of an image. The model covers:

- **Chunking and reassembly** (`Filter` in lib/filters.js, `Mask.Mask` in
  lib/mask.js). A selection of `w × h` pixels is read as one
  `gridSize × gridSize` chunk per cell, row after row. `draw` writes chunk
  `i` back at cell (`i % xs`, `⌊i / xs⌋`). The callback is called once,
  after the chunk with index `chunkLen - 1`, with the whole selection read
  back from the canvas. The canvas is modelled as the value it shows: a
  width, a height and four bytes per pixel. `getImageData` and
  `putImageData` are modelled as exact byte storage: a read outside the
  canvas gives transparent black, and a write outside it is clipped.
- **Pixel masks** (lib/masks.js):
  - `Xor` and `OldXor` check their byte argument and then xor the colour
    bytes in place.
  - `RGB` rotates the channels of every pixel.
  - the `Buttons` table.
  - the chunk filters `Noop` and `Negate` (lib/filters.js).
- **The frame worker** (lib/mask.worker.js):
  - the state of `processFrames` as a class, whose `Tick` is `renderFrame`;
  - the chain of timer ticks, run to the end;
  - the messages it posts;
  - the message handler's choice of mask.
- **Geometry and grid snapping** (lib/geometry.js, and its copy in wmask.js):
  points, rectangles with cached corners, and `snapToGrid` with
  JavaScript's truncating `%`. Negative coordinates are included.
- **The selection state of both editors**:
  - lib/wmask.js snaps the press point and, during a drag, the current
    point, each in place, and commits or clears on mouse-up, with an area
    check. The cursor itself is kept unsnapped.
  - The earlier wmask.js uses raw positions and has no area check.
  - Each handler takes the event's `layerX`/`layerY` as parameters. The
    `TypeError`s the handlers can raise are reported as a `thrown` result.

Callbacks and posted messages become return values: the list of arguments
of every call, in order. "Called exactly once" is then a statement about the
length of that list.

## Model

| member | source | states |
|---|---|---|
| Snapping.JsRem | lib/wmask.js:357 | JavaScript's `%` by a positive divisor: the remainder lies strictly between `-n` and `n`, takes the sign of the dividend, and differs from it by a multiple of `n` |
| Snapping.SnapCoord | lib/wmask.js:357-361 | a snapped coordinate is a multiple of `GRID_SIZE`, and it is not negative when the input was not |
| Snapping.SnapPoint | wmask.js:220-229 | both coordinates of the snapped point lie on the grid |
| Snapping.SnapNearest | lib/wmask.js:357-361 | a coordinate that is not negative moves by at most half a cell, and no multiple of the grid is closer |
| Snapping.SnapRounding | wmask.js:223-227 | a remainder of more than half a cell rounds up; a remainder of half a cell or less rounds down |
| Snapping.SnapNegativeTowardsZero | lib/wmask.js:357-358 | a negative coordinate moves towards zero by less than one cell and does not pass zero |
| Snapping.SnapIdempotent | lib/wmask.js:357-361 | snapping a snapped coordinate changes nothing |
| Snapping.AlignedIsFixed | lib/wmask.js:357-361 | a coordinate that is already on the grid is left where it is |
| Snapping.AlignedSelection | lib/wmask.js:265-266 | the rectangle spanned by two grid points covers whole cells: origin and extent are multiples of 8, the extent is not negative, and the corners are cached |
| Geometry.CalcCorners | lib/geometry.js:76-81 | the four cached corners are (x, y), (x + w, y), (x + w, y + h) and (x, y + h) |
| Geometry.NewRectangle | lib/geometry.js:45-51 | the origin is the top-left point, the extent is the difference of the two points, and the getters return them |
| Geometry.FromPoints | lib/geometry.js:60-67 | the extent is not negative, the top-left corner is the pointwise minimum, and the bottom-right corner is the pointwise maximum |
| Geometry.EqualsIsEquality | lib/geometry.js:30-32 | `equals` holds exactly when both coordinates agree, so it is reflexive and symmetric |
| Geometry.FromPointsSymmetric | wmask.js:61-68 | the order of the two points does not matter |
| Geometry.FromPointsContains | lib/geometry.js:60-67 | both points lie on the border box of the rectangle they span |
| Geometry.FromPointsHasArea | lib/geometry.js:118-120 | the spanned rectangle has area exactly when the two points differ in both coordinates |
| Geometry.CornerValues | lib/geometry.js:87-113 | the four getters return the corners of the rectangle's origin and extent |
| Geometry.RebuildFromCorners | lib/geometry.js:45-51 | rebuilding a rectangle from its own top-left and bottom-right corners gives the same rectangle |
| Masks.Rgba | lib/masks.js:23-30 | the pixel's r, g, b and a are the four bytes of the buffer from `index` on, in that order |
| Masks.CheckMask | lib/masks.js:71-73 | the range check succeeds exactly for 0x00..0xff, with that byte, and otherwise fails with the rejected value |
| Masks.NewXor | lib/masks.js:70-91 | `Xor(mask)` throws exactly when the mask is outside 0x00..0xff, and otherwise gives the xor closure for that byte |
| Masks.NewOldXor | lib/masks.js:36-40 | `OldXor(mask)` applies the same range check before it builds its closure |
| Masks.Buttons | lib/masks.js:117-121 | the toolbar offers exactly `neg` (xor 0xff), `xor` (xor 0x80) and `rgb` |
| Masks.XorInPlace | lib/masks.js:83-87 | after the loop, the buffer is the xor of the old buffer on colour bytes, with alpha kept |
| Masks.RotateInPlace | lib/masks.js:105-110 | after the loop, every pixel (r, g, b, a) of the old buffer is (b, r, g, a) |
| Masks.ApplyImageMask | lib/masks.js:78-90 | a mask closure rewrites the ImageData in place and hands that same object to its callback |
| Masks.OldXorChunks | lib/masks.js:44-62 | every chunk is xor-ed, and `putChunks` is called once, with every chunk, after the last one, and never when there are no chunks |
| Masks.XorInvolution | lib/masks.js:83-87 | applying the same xor mask twice restores every byte |
| Masks.NegButtonComplements | lib/masks.js:118 | the `neg` button maps each colour byte b to 255 - b and keeps alpha |
| Masks.RotatePixel | lib/masks.js:106-109 | the rotation moves the channels of one pixel: (r, g, b, a) becomes (b, r, g, a) |
| Masks.RotateThriceIsIdentity | lib/masks.js:105-110 | three channel rotations give back the original buffer |
| Masks.RotateIsNotInvolution | lib/masks.js:105-110 | two rotations do not undo a rotation: some buffer is changed by two rotations |
| Filters.NegateInPlace | lib/filters.js:140-145 | after the loop, every byte at index k with (k + 1) % 4 != 0 is 255 - b, and every alpha byte is kept |
| Filters.RunFilter | lib/filters.js:125-152 | `Noop` calls back once with the chunks unchanged; `Negate` negates each chunk and calls back once with all of them after the last, and never when there are none |
| Filters.NegateInvolution | lib/filters.js:141-145 | negating twice restores every byte |
| Filters.NegateIsNegButton | lib/filters.js:142-143 | the `Negate` filter does to a whole number of pixels what the `neg` mask button does |
| Chunking.CellOfIndex | lib/filters.js:100-101 | the chunk read at cell (x, y) has list index y·xs + x, and `draw` puts it back at cell (x, y) |
| Chunking.IndexOfCell | lib/mask.js:98-99 | each list index of the grid maps to a cell inside the grid, and that cell's index is the list index again |
| Chunking.ChunksOf | lib/filters.js:37-40 | there are xs·ys chunks, each a `gridSize` square |
| Chunking.ChunkAtCell | lib/mask.js:36-39 | chunk y·xs + x is the square whose origin is (x·gridSize, y·gridSize) |
| Chunking.PutAll | lib/filters.js:99-102 | drawing chunks keeps the canvas's size and its four bytes per pixel |
| Chunking.Reassembly | lib/mask.js:97-100 | after the first n chunks are drawn, each pixel of the grid holds its own cell's chunk, at its offset in that cell, once that chunk is drawn; every other pixel, those right of the grid included, is unchanged |
| Chunking.RightOfGrid | lib/filters.js:99-102 | no drawn chunk reaches a pixel right of the grid's columns: its bytes keep their value |
| Chunking.DrawInvertsChunking | lib/mask.js:97-100 | drawing the unmodified chunks back leaves the canvas byte for byte as it was read |
| Chunking.ReadChunks | lib/filters.js:37-41 | the nested loops collect xs·ys fresh chunks, in row-major order, each holding the square of its cell, and no two chunks share a buffer |
| Filters.Filter.constructor | lib/filters.js:24-42 | `chunkLen` is (w / gridSize)·(h / gridSize), and the chunks hold the squares of the canvas in list order |
| Filters.Filter.GetFilteredImageData | lib/filters.js:115-117 | returns a fresh copy of the whole `w × h` selection as the canvas shows it |
| Filters.Filter.Draw | lib/filters.js:94-108 | the canvas becomes the old canvas with every chunk drawn at its cell; the callback is called once, with the whole selection after chunk `chunkLen - 1`, and not at all when there are fewer chunks |
| Filters.Filter.DrawChunk | lib/filters.js:99-106 | chunk i is put at cell (i % xs, ⌊i / xs⌋); the callback is called only for i + 1 = chunkLen |
| Filters.Filter.ApplyFilter | lib/filters.js:84-86 | the filter is applied to every stored chunk, all chunks are drawn back, and the callback gets the whole selection exactly once when there are chunks; the `Noop` filter on freshly read chunks leaves the canvas unchanged |
| MaskFrame.Mask.constructor | lib/mask.js:23-41 | `chunkLen` is (w / gridSize)·(h / gridSize), and the chunks hold the squares of the canvas in list order |
| MaskFrame.Mask.Draw | lib/mask.js:93-106 | the canvas becomes the old canvas with every chunk drawn at its cell; the callback is called once, with the whole selection after chunk `chunkLen - 1`, and not at all when there are fewer chunks |
| MaskFrame.Mask.DrawChunk | lib/mask.js:97-105 | chunk i is put at cell (i % xs, ⌊i / xs⌋); the callback gets a fresh read of the `w × h` selection only for i + 1 = chunkLen |
| MaskFrame.Mask.ApplyMask | lib/mask.js:83-85 | the stored chunks go to the mask function with `draw` as its continuation; the callback gets the whole selection exactly once when there are chunks; an identity mask on freshly read chunks leaves the canvas unchanged |
| Worker.RoundPercent | lib/mask.worker.js:33 | the result is the whole percentage nearest to current / total, with a half rounding up |
| Worker.FrameProcessor.constructor | lib/mask.worker.js:17-24 | a new batch starts at frame 0 with no results, and the first tick is scheduled |
| Worker.FrameProcessor.Tick | lib/mask.worker.js:24-45 | one tick adds the masked current frame to the results. It posts what the tick for that frame posts. The next tick is scheduled unless this was the last frame. The results remain the masked frames in order, and `prevProgress` remains the percentage of the previous frame |
| Worker.ProcessFrames | lib/mask.worker.js:24-45 | running the timer chain to the end posts exactly the trace of the batch |
| Worker.RoundMonotone | lib/mask.worker.js:33-34 | a later frame never has a smaller percentage |
| Worker.RoundRange | lib/mask.worker.js:33 | frame 0 rounds to 0 %, and every frame of the batch rounds to at most 100 % |
| Worker.ProgressTrace | lib/mask.worker.js:33-41 | before the last tick only progress messages are posted. Their percentages are above 0 and strictly increasing. Each carries the result and the percentage of one frame after the first |
| Worker.BatchTrace | lib/mask.worker.js:27-41 | a batch posts strictly increasing progress between 1 % and 100 %, then exactly one `done`, last, carrying every frame's result in order |
| Worker.SingleFrame | lib/mask.worker.js:27-31 | a one-frame batch posts `done` on its first tick and no progress |
| Worker.FirstTickSilent | lib/mask.worker.js:33-34 | with two frames or more, the tick for frame 0 posts nothing |
| Worker.ChooseMask | lib/mask.worker.js:52-59 | the entry is taken from `ReverseActions` when `undo` is set and from `Actions` otherwise; the arguments are applied exactly when there are any |
| Worker.UndoSwapsTables | lib/mask.worker.js:52-56 | undoing with one pair of tables is doing with the pair swapped |
| Worker.OnMessage | lib/mask.worker.js:48-67 | messages other than `processFrames` are ignored; otherwise the batch runs on the chosen mask and posts its trace |
| Editor.MouseUpOutcome | lib/wmask.js:288-292 | a mouse-up commits exactly when the press point exists, differs from the release point, and the selection exists and has area; it throws exactly when the press point is missing, or the points differ and there is no selection |
| Geometry.PointRef.constructor | lib/geometry.js:20-23 | a `new Point(x, y)` object, the mutable point the editors snap and move in place, holds exactly the given coordinates |
| Editor.WMask.constructor | lib/wmask.js:62-81 | a new editor has no cursor, no drag, no selection points and no selection |
| Editor.WMask.SnapToGrid | lib/wmask.js:353-364 | snaps the point object itself and returns that same object |
| Editor.WMask.OnMouseMove | lib/wmask.js:256-268 | the cursor object is created once and then moved. During a drag the selection spans from the press point to the snapped pointer. Otherwise the selection is left unchanged. Both selection points stay on the grid |
| Editor.WMask.OnMouseDown | lib/wmask.js:273-276 | starts a drag at the snapped pointer, leaving the selection as it is |
| Editor.WMask.OnMouseUp | lib/wmask.js:282-294 | ends the drag, then clears and dispatches `selectionClear`, commits and dispatches `selectionEnd`, or throws, as `MouseUpOutcome` decides. A selection left after a completed mouse-up has area |
| Editor.WMask.OnMouseLeave | lib/wmask.js:299-304 | drops the cursor and ends a drag in progress as a mouse-up would; with no drag nothing else changes |
| LegacyEditor.MouseUpOutcome | wmask.js:279-281 | a mouse-up throws exactly when there is no press point; otherwise the selection is dropped exactly when the release point equals the press point |
| LegacyEditor.WMask.constructor | wmask.js:175-196 | a new editor has no cursor, no drag, no selection points and no selection |
| LegacyEditor.WMask.SnapToGrid | wmask.js:217-230 | returns a new snapped point and leaves its argument unchanged |
| LegacyEditor.WMask.OnMouseMove | wmask.js:250-262 | the cursor object is created once and then moved; during a drag the selection spans from the press point to the raw pointer position |
| LegacyEditor.WMask.OnMouseDown | wmask.js:267-270 | starts a drag at the raw pointer position |
| LegacyEditor.WMask.OnMouseUp | wmask.js:275-282 | ends the drag at the raw pointer position. It drops the selection only when that position is the press point; there is no area check |
| LegacyEditor.WMask.OnMouseLeave | wmask.js:284-289 | drops the cursor and ends a drag in progress as a mouse-up would |
| LegacyEditor.OneAxisDragKept | wmask.js:279-281 | a drag along one axis only keeps a selection without area here, where lib/wmask.js clears it |
| LegacyEditor.ReleaseOnPressPointClears | wmask.js:279-281 | a release on the press point clears the selection in both editors, whatever the selection |

## Left out

- Rendering: `startscreen`, `draw`, `drawCursor`, `drawSelection`, `drawLines`, `toString`, fonts, colours and `requestAnimationFrame`. None of these changes the state modelled here.
- Image loading and drag-and-drop (`acceptImage`, `setImage`, `startEditor`, `FileReader`) and the menu (`initMenu`, `addEventListeners`). These are DOM wiring.
- `WMask.prototype.applyMask` in lib/wmask.js calls `new Mask.Mask` with three arguments where the constructor expects four, and then draws onto an off-screen canvas. That wiring is not part of this model. The `Mask.Mask` object itself is modelled.
- The mask functions of `Mask.Mask` and `Filter`: both are modelled as the chunk filters that follow the `(chunks, callback)` protocol (`Noop`, `Negate`). `OldXor` is modelled on its own, over its chunk list (`Masks.OldXorChunks`). Its `getChunks`/`putChunks` receivers are not defined in lib/ or wmask.js, and are not part of this model.
- `Mask.Xor` and `Mask.RGB` closures read their image through `this.getImageData()`. The model applies them to a given ImageData (`Masks.ApplyImageMask`).
- `Mask.Actions` and `Mask.ReverseActions` are not defined in lib/ or wmask.js. The worker takes them as parameters.
- `analytics.js`, the history and the remaining masks are not part of this model.
- Timers and message passing: `setTimeout`, `postMessage` and `procid` are modelled as the sequence of ticks and the list of posted messages. Events from other sources that interleave between ticks are not modelled.
- Worker.RoundPercent: the worker's progress is JavaScript floating point. The model rounds the exact ratio half up, as ⌊(200·current + total) / (2·total)⌋. Double arithmetic rounds some of those ties down instead: frame 23 of 40 gives 57.49999999999999 and posts 0.57, where the model says 58; frame 29 of 200 gives 14 against 15. A posted `progress` of `p / 100` is represented by the whole number `p`.
- Worker.FrameProcessor.constructor: requires at least one frame. With none, the first tick passes `frames[0]`, which is `undefined`, to the mask. If the mask throws on it, the first tick ends the chain with an uncaught error. If the mask tolerates it, the chain of ticks never ends.
- Worker.ChooseMask: an entry that is a plain mask but is given arguments, a factory given none, or a name missing from the table yields no mask (`NoMask`). In JavaScript the first two are called with the wrong arguments. A missing name throws a `TypeError`, in the handler when `args` is truthy and in the first tick otherwise, and nothing is posted.
- Filters.Filter.constructor: requires `w` and `h` to be multiples of `gridSize` and not negative. With a fractional `xs` or `ys`, the JavaScript loops read ⌈xs⌉ whole squares per row (and ⌈ys⌉ rows), the last one reaching past the selection. `chunkLen = xs·ys` is fractional unless `w·h` is a multiple of `gridSize²`. When it is fractional, `draw` never calls back. When it is whole (w = 20, h = 16, gridSize = 8 gives xs = 2.5 and six chunks read against chunkLen = 5), `draw` calls back after chunk `chunkLen - 1` with chunks still to draw, and `i % xs` misplaces every chunk after the first row. That case is not modelled. The lib/wmask.js editor only builds grid-aligned selections (`Snapping.AlignedSelection`; `Editor.WMask` keeps its selection on the grid), so there the requirement holds.
- MaskFrame.Mask.constructor: the same requirement as `Filters.Filter.constructor`, with the same consequences for the loops at lib/mask.js:36-39 and `draw` at lib/mask.js:97-100.
- Filters.Filter.Draw: requires `xs > 0` whenever there are chunks. With `xs = 0`, JavaScript's `i % xs` is `NaN`.
- MaskFrame.Mask.Draw: the same requirement as `Filters.Filter.Draw`.
- Filters.Filter.GetFilteredImageData: requires a selection with area, as `getImageData` throws for an empty rectangle. `draw` only calls it after a chunk is drawn, so the selection has area then.
- Editor.WMask.OnMouseMove and the other handlers of both editors require `Valid()`. Every editor starts in a valid state and each handler keeps it, so every reachable state is covered.
- Pointer coordinates are whole numbers. Fractional `layerX`/`layerY` values are not modelled.
- The `Error` thrown by `Xor`/`OldXor` is modelled as `MaskOutOfRange(mask)`. Its message formatting is not.
- The earlier `onMouseUp` in wmask.js reads the global `event` instead of a parameter. The model passes the coordinates of the event being handled.
- The snapping grid of wmask.js is its `gridSize` field, whose default is 8. The model uses the constant `GRID_SIZE`, which is also 8.
- `Mask.WIN_XFORM` and `GRID_SIZE_DOUBLE` are declared but used by no modelled operation.
- The canvas is exact byte storage in this model: `putImageData` followed by `getImageData` gives back the same bytes. A browser canvas stores premultiplied alpha and guarantees this only for opaque pixels. For other pixels, the bytes the callbacks of `Filters.Filter.Draw` and `MaskFrame.Mask.Draw` read back, and the round trip of `Chunking.DrawInvertsChunking`, may differ on a real canvas.
- Worker.ChooseMask: the handler tests `!!e.data.undo` and `!!e.data.entry.args`. `None` stands for any falsy `args` (0, "", null, undefined). So an xor factory given mask 0 is itself used as the per-frame function.
- Masks.CheckMask: the mask is a whole number here. In JavaScript, `undefined`, `NaN` and fractional masks pass the range check, because both comparisons are false. `^` then makes the first two an identity and truncates a fraction. The `int` parameter cannot express these inputs.
- Points and rectangles are defined twice in the source, in lib/geometry.js and again in wmask.js:21-68. Both definitions have the same shape. `LegacyEditor` reuses `Geometry` for the wmask.js copy.
- The cursor is kept unsnapped in both editors' `onMouseMove`, as the code does. The doc comments at lib/wmask.js:250-251 and wmask.js:245-246 say the cursor moves to the nearest grid point.
