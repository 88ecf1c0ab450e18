# termdraw: display logic of the animation engine

This project models the sequential core of `termdraw`. The engine turns raster
images into monochrome frames and cycles through them in a character terminal.
The model covers three pieces, each with its contracts proved:

- **Frame conversion** (`processImages`). Each image becomes an `imageData`.
  It has width `Xmax`, height `Ymax` and a grid with one cell per pixel. A cell
  is set exactly when the pixel's alpha channel is positive. An image is its
  bounds `Bounds().Max` (the origin is taken to be (0, 0)) and an alpha
  function `(x, y) -> nat`. The grid is an `array2<bool>` that nested loops
  fill, as the Go slices of slices are.
- **Frame drawing** (`draw`). The terminal is a `Terminal` object whose back
  buffer is an `array2<char>` of the viewport's size. `Clear` blanks it,
  `SetCell` writes one cell, and `Flush` is counted. `Size` is read again on
  every draw.
- **The frame cursor** (the update and tick arms of `eventLoop`). The loop's
  local counter `i` becomes the field `counter`; `curr` is the frame drawn.
  `Update` and `Tick` are the two arms as methods. The module `Cursor` states
  one tick as a pure function `Step`. Its lemmas say what successive ticks
  display.

Files: `frames.dfy` (module `Frames`), `display.dfy` (module `Display`),
`cursor.dfy` (module `Cursor`) and `termdraw.dfy` (module `TermDraw`, class
`Term`).

Four behaviours of the code differ from what one might expect of an
animation engine. The model follows the code:

- One might expect the cursor to advance as `(cursor + 1) mod frameCount`. The
  code instead wraps the counter when a tick finds it equal to the frame count.
  An update resets the counter but not `curr`.
- One might expect a tick with zero frames to do nothing. The code still copies
  the counter into `curr` and increments it, so the counter keeps growing
  (`Cursor.EmptyCounterGrows`). Only `draw` returns early.
- One might expect an update with zero images to blank the display. Because
  `draw` returns before clearing when there are no frames (termdraw.go:127-129),
  the frame drawn last stays on screen (`TermDraw.EmptyUpdateThenTick`).
- One might expect a display-enable toggle and a per-animation frame interval.
  The code has no toggle and ignores the interval argument, so the model has
  neither.

## Model

| member | source | states |
|---|---|---|
| `Frames.ConvertImage` | termdraw.go:100-122 | the frame has `Xmax`/`Ymax` equal to the image's `Bounds().Max.X`/`.Y`, a grid of `Ymax` rows by `Xmax` columns, and cell `[y, x]` is true iff alpha(x, y) > 0 (alpha 0 gives false) |
| `Frames.CoversPixel` | termdraw.go:134 | for a converted frame, the draw guard `Ymax > y && Xmax > x && data[y][x]` selects the glyph exactly where (x, y) is inside the source image and opaque |
| `Display.Terminal.Size` | termdraw.go:130 | returns the viewport's columns and rows, the back buffer's dimensions |
| `Display.Terminal.Clear` | termdraw.go:131 | every cell of the back buffer is blank afterwards |
| `Display.Terminal.SetCell` | termdraw.go:135 | an in-range write sets exactly that cell and leaves the others unchanged |
| `Display.Terminal.Flush` | termdraw.go:139 | the flush count goes up by one |
| `TermDraw.Term.constructor` | termdraw.go:36-45 | a new engine has no frames, `curr` 0, the zero rune as glyph, and the loop counter `i` at 0 (termdraw.go:166) |
| `TermDraw.Term.ProcessImages` | termdraw.go:90-124 | the frame list is replaced by exactly one converted frame per input image, in input order, and the glyph becomes `ch` |
| `TermDraw.Term.Draw` | termdraw.go:126-140 | with no frames the screen and flush count are untouched; otherwise, for every viewport cell, the cell holds the glyph when the frame covers it and is opaque, and is blank if not; there is exactly one flush; no frame index is out of range, given `curr < len(images)` |
| `TermDraw.Term.Update` | termdraw.go:169-171 | the counter is 0, the frames are the conversions of the new images, the glyph is replaced, and the invariant holds again |
| `TermDraw.Term.Tick` | termdraw.go:173-179 | `(curr, i)` moves as `Cursor.Step` says; with frames present `curr < len(images)` at the draw; the screen then shows frame `curr`'s source image; the counter stays within 0..N |
| `TermDraw.Term.TickTimes` | termdraw.go:167-180 | k ticks in a row set `curr` to the frames `Cursor.Shown(i, N, k)` in turn and leave the counter at `Cursor.After(i, N, k)`; with no frames the screen and flush count are untouched; with frames there are k flushes and the screen shows the source image of the frame drawn last |
| `TermDraw.UpdateThenTick` | termdraw.go:169-178 | an update followed by a tick draws frame 0 of the new images, whatever the cursor was: `curr` 0, counter 1, the new glyph and sources, one flush, and every cell is that image's pixel |
| `TermDraw.EmptyUpdateThenTick` | termdraw.go:127-129 | an update with no images followed by a tick leaves the screen and flush count unchanged, so the last drawn frame stays visible; `curr` is 0 and the counter 1 |
| `TermDraw.DiagonalExample` | termdraw.go:107-137 | a new engine given a 2x2 image with alpha rows [0, 255], [255, 0] and glyph `*`, after one update and one tick on a w by h viewport, has flushed once and shows `*` at (1, 0) and (0, 1) only |
| `TermDraw.AlternatingExample` | termdraw.go:173-179 | two 1x1 frames (opaque, then transparent) give glyph, blank, glyph, … at (0, 0) from an update on |
| `Cursor.Step` | termdraw.go:173-179 | one tick: the next counter is the shown index plus one; with N ≥ 1 frames and counter ≤ N, the shown index is `i mod N` and is < N, and the next counter is ≤ N; with no frames the counter grows by one |
| `Cursor.ShownSnoc` | termdraw.go:173-179 | k+1 ticks are k ticks followed by one `Step` from the counter they left |
| `Cursor.ShownCycles` | termdraw.go:173-179 | with N ≥ 1 frames and counter i ≤ N, tick j displays frame (i + j) mod N |
| `Cursor.UpdateRestartsCycle` | termdraw.go:169-177 | after an update (counter 0) ticks display 0, 1, …, N-1, 0, …; the first tick displays frame 0 |
| `Cursor.Periodic` | termdraw.go:173-179 | the displayed frame sequence repeats with period N |
| `Cursor.CounterBounded` | termdraw.go:173-179 | with frames present the counter stays in 0..N (in 1..N after a tick), and every displayed index is < N |
| `Cursor.EmptyCounterGrows` | termdraw.go:173-179 | with no frames each tick increments the counter: after k ticks it is i + k |

## Left out

- `LoadImages`: file opening and PNG decoding are I/O through foreign libraries. It stops at the first file that fails to open or decode and returns no images. The model starts from decoded images.
- `Init`, `Run`, the event-poller goroutine, `Quit` and the shutdown arm of `eventLoop`: these are terminal start-up, goroutines and channel coordination. No concurrency is modelled.
- `Animate`: it only sends the images and glyph over the update channel; the receiving arm is `Term.Update`.
- The ticker, its fixed 100 ms period and the ignored duration argument: these are wall-clock behaviour, not logic.
- Colours: `Clear` and `SetCell` use the default colours, which the model does not represent; a cleared cell is a space.
- Images whose bounds do not start at (0, 0): only `Bounds().Max` is read, and the model takes the origin to be (0, 0).
- Display.Terminal.SetCell: requires the cell to be inside the viewport, because `draw` only writes inside it; termbox's silent ignoring of out-of-range writes is not modelled.
- Display.Terminal.Flush: counts flushes but does not model the physical screen contents that a flush copies from the back buffer.
- TermDraw.Term.Tick: the counter and `curr` are unbounded naturals. The Go `int`/`uint` wrap-around after 2^63 ticks with no frames is not modelled.
- examples/basic.go: a demo program with I/O and event handling and no logic of its own.
