# Game of Life engine of `gol.c`, in Dafny

`gol.c` runs Conway's Game of Life on an image. It loads a 32-bit image into
an SDL surface and binarizes it in place: every pixel whose leading byte has
its top bit set is painted with the alive colour, and every other pixel with
the dead colour. It then allocates a second surface of the same size. Each
frame it first handles the pending input. If the simulation is running, it
then computes the next generation into the second surface and swaps the two.

This project models that engine and the input state machine:

- `surfaces.dfy` (`Surfaces`): a surface is a `w`×`h` `array2` of pixel leading bytes (`bv8`), indexed `[y, x]`. `Cells` reads one as a `Grid`, a sequence of rows.
- `life.dfy` (`Life`): `Rules`, and `Colors` (the leading bytes the alive and dead colours leave in a pixel). It also holds:
  - `IsAlive`, the top bit of a pixel's leading byte;
  - `NeighborCount` (`GetAliveNeighborCount`), the clamped Moore neighbourhood count;
  - `NextPixel` and `NextGeneration`, the per-cell rule and the whole-surface rule that `Step` follows.
- `engine.dfy` (`Engine`): the in-place passes. `Blit` (the whole-surface copy), `Step` and `Binarize` are methods with nested loops over the arrays. Each is proved against the functions above.
- `patterns.dfy` (`Patterns`): the block still life, the dying isolated cell and the period-2 blinker, under the rules `main` sets up (survive on 2–3 neighbours, birth on exactly 3). `Pattern` builds the fixtures: a binarized surface whose alive pixels are exactly a shape's cells.
- `viewport.dfy` (`Viewport`): the `Context` record and `HandleInputs`.
  - `Handle` is the effect of one event as a function on the record's mutable fields, and `HandleAll` is its fold over the queue.
  - The class `Context` has the same fields. Its methods `HandleEvent` and `HandleInputs` are proved to follow those functions.
- `game.dfy` (`Game`): the two surface pointers of `main` with `Swap`. `Frame` is one iteration of `main`'s loop, which advances the simulation only while `is_running` is set.

Notes on the code's behaviour:

- There is no toroidal boundary mode. Out-of-range neighbours are skipped.
- `Binarize` repaints the image in place.
- The size reset happens on a middle-button *release*.
- The wheel zoom has no bounds.
- A wheel event whose vertical amount is 0 (a purely horizontal scroll) zooms out, because the code tests only `wheel.y > 0`.
- `main` ignores `Step`'s result and swaps the buffers even when `Step` fails.

Whether the alive and dead colours read back as alive and dead depends on the surface's pixel format. The predicate `Faithful(colors)` states that they do. The cell-level lemmas assume it; the byte-level contracts do not. `main`'s two surfaces need not share a pixel format: the image keeps the format it was loaded in, and the second surface gets fixed RGBA masks. So each surface in `Game.Buffers` carries its own `Colors`, and `Step` paints with the destination's.

## Model

| member | source | states |
|---|---|---|
| Surfaces.Cells | gol.c:74-77 | the value of a surface has h rows of w pixels, pixel (x, y) being the array's `[y, x]` |
| Life.IsAlive | gol.c:74-78 | the cell read from a pixel is a single bit, 0 or 1 |
| Life.IsAliveReadsTopBit | gol.c:76-77 | the cell read from a pixel is 1 exactly when its leading byte is at least 0x80 (top bit set), and 0 exactly when it is below |
| Life.NeighborCount | gol.c:80-110 | the neighbour count is at most 8 |
| Life.NeighborCountIsLiveNeighbors | gol.c:80-110 | the neighbour count equals the number of live cells among the in-bounds Moore neighbours of the cell, the centre excluded |
| Life.CandidatesAreGuards | gol.c:84-107 | the eight guards pass exactly as many times as the 3×3 block around the cell, centre excluded, has in-bounds positions, at most 8 |
| Life.CountWithinCandidates | gol.c:80-110 | the count never exceeds the number of in-bounds neighbours |
| Life.CandidatesByPosition | gol.c:84-107 | a corner cell has at most 3 candidate neighbours (exactly 3 on a surface at least 2×2), a non-corner border cell at most 5 (exactly 5 when the surface extends across the border), an interior cell exactly 8 |
| Life.NeighborCountLocal | gol.c:84-107 | the count depends only on the liveness of the in-bounds neighbours, not on the centre or any other pixel |
| Life.NeighborCountIgnoresCentre | gol.c:84-107 | repainting the centre pixel never changes its own count: the centre is never read |
| Life.FullNeighborhood | gol.c:84-107 | when every in-bounds neighbour is alive the count equals the number of in-bounds neighbours |
| Life.EmptyNeighborhood | gol.c:84-107 | when no neighbour is alive the count is 0 |
| Life.NextPixel | gol.c:143-150 | a new pixel is the old pixel, the alive colour or the dead colour; with faithful colours it reads alive exactly when the old cell was alive with a count in [survive_min, survive_max] or dead with a count in [reproduction_min, reproduction_max] |
| Life.NextGeneration | gol.c:141-151 | every new pixel is the dead colour for a live cell whose count is below survive_min or above survive_max, the alive colour for a dead cell whose count lies in [reproduction_min, reproduction_max], and the old pixel otherwise |
| Life.TransitionRule | gol.c:141-151 | with faithful colours a cell is alive in the next generation exactly when it was alive with a count in the survival interval or dead with a count in the birth interval |
| Life.NextPixelLocal | gol.c:141-151 | each new pixel depends only on the old pixel and the liveness of its neighbours, so the per-cell updates are independent of their order |
| Life.NextGenerationBinary | gol.c:141-151 | a surface holding only the two colours still holds only them after a generation |
| Engine.Blit | gol.c:131 | the copy of a same-sized surface leaves the destination equal to the source pixel by pixel |
| Engine.Step | gol.c:125-155 | fails exactly when the widths or heights differ or the copy fails, and then writes nothing; otherwise the destination becomes the next generation of the source, cell by cell as the survive/birth rule says; the source is never modified |
| Engine.Generate | gol.c:141-152 | over a destination holding a copy of the source, the rule loop leaves the destination equal to the next generation of the source |
| Engine.UpdateRow | gol.c:142-151 | the inner loop repaints row y of the destination with the next generation's pixels of that row, read from the source, and leaves every other row as it was |
| Engine.Binarize | gol.c:157-168 | every pixel becomes the alive colour when its own original leading byte had its top bit set and the dead colour otherwise, so the surface holds only the two colours; with faithful colours every cell keeps its liveness |
| Patterns.PatternBit | gol.c:74-78 | with faithful colours a pattern's cell reads alive exactly when the shape covers it |
| Patterns.PatternCount | gol.c:80-110 | on a pattern the neighbour count is the number of the shape's cells among the in-bounds neighbours |
| Patterns.PatternCellNext | gol.c:141-151 | under the rules of `main`, a pattern's next pixel is alive exactly where the shape's own counts make the cell live |
| Patterns.BlockIsStill | gol.c:301 | a 2×2 block anywhere inside the surface is unchanged by one generation |
| Patterns.IsolatedCellDies | gol.c:146-147 | a live cell with no live neighbour becomes the dead colour, whatever else the surface holds |
| Patterns.RowBecomesColumn | gol.c:141-151 | a three-cell row away from the border becomes a three-cell column in one generation |
| Patterns.ColumnBecomesRow | gol.c:141-151 | a three-cell column away from the border becomes a three-cell row in one generation |
| Patterns.BlinkerHasPeriodTwo | gol.c:301 | a blinker changes after one generation and returns to itself after two |
| Viewport.PointInRect | gol.c:210 | a point is in the rectangle exactly when its offset from the origin lies in [0, w) × [0, h), so only a rectangle of positive width and height contains any point |
| Viewport.Handle | gol.c:172-229 | after one event, quit is set exactly when it was set or the event is a close or an Escape release; is_running flips exactly on a Space release; the origin moves only on a motion with the left button down in the rectangle; the size changes only on a wheel event or a middle release; the click offset and in_rect are set only by a left press inside the rectangle; in_rect and the left-button flag change only on a left press or a left release |
| Viewport.IgnoredEventsChangeNothing | gol.c:177-229 | an event the switch has no case for (a release of another key, a press of a button other than the left, a release of a button other than the left and middle, any other event type) leaves the whole context as it was |
| Viewport.HandleAll | gol.c:172 | draining the queue handles the events in the order they are polled: no events leave the context as it was, and the last event is handled after all the others |
| Viewport.QuitRequests | gol.c:174-181 | a close or an Escape release sets quit and changes nothing else |
| Viewport.SpaceToggles | gol.c:182-184 | a Space release toggles is_running and changes nothing else |
| Viewport.LeftPressInside | gol.c:207-213 | a left press inside the half-open rectangle sets the button flag and in_rect and records the pointer minus the rectangle's origin as the click offset, leaving the rectangle in place |
| Viewport.LeftPressOutside | gol.c:207-216 | a left press outside the rectangle sets the button flag, clears in_rect and changes nothing else |
| Viewport.MotionDrags | gol.c:187-191 | a motion moves the origin to the pointer minus the click offset exactly when the button is down and in_rect holds, and otherwise changes nothing; the size never changes |
| Viewport.LeftRelease | gol.c:195-198 | a left release clears both the button flag and in_rect and changes nothing else |
| Viewport.MiddleReleaseResetsSize | gol.c:199-202 | a middle release sets the size to rect_start_w × rect_start_h and keeps the origin |
| Viewport.WheelChangesOnlySize | gol.c:220-228 | a wheel event changes only the rectangle's width and height |
| Viewport.DragFollowsPointer | gol.c:187-213 | pressing inside the rectangle then moving moves the origin by the pointer's displacement |
| Viewport.SpaceTwiceRestores | gol.c:182-184 | two Space releases restore is_running |
| Viewport.QuitIsFinal | gol.c:174-181 | once quit is set, no sequence of events clears it |
| Viewport.NoDragWithoutPressInside | gol.c:187-216 | with in_rect clear, no sequence of events without a left press sets in_rect or moves the origin |
| Viewport.PressOutsideThenMoveKeepsOrigin | gol.c:187-216 | a left press outside the rectangle followed by any motions leaves the rectangle unchanged |
| Viewport.SizeKeptWithoutZoom | gol.c:199-228 | events without wheel movement or middle release never change the size |
| Viewport.Context.constructor | gol.c:303-314 | the initial context: not quitting, not running, rectangle at the origin with the image's size as current and home size, no drag, 20 ms delay |
| Viewport.Context.HandleEvent | gol.c:173-229 | handling one event updates the context as `Handle` says |
| Viewport.Context.HandleInputs | gol.c:170-231 | draining the queue updates the context as handling its events one by one in order |
| Game.Buffers.constructor | gol.c:289 | the buffer pair starts as two distinct surfaces of the same size, each with the colours of its own pixel format |
| Game.Buffers.Swap | gol.c:241-246 | the two roles are exchanged, each surface keeping its own colours, and both surfaces keep the same size |
| Game.Frame | gol.c:316-324 | after the input is handled, the buffers are stepped and swapped only if is_running is set; if the copy succeeds, the new on-screen surface is the next generation of the old one, painted in its own format's colours; the old on-screen surface is never modified |

## Left out

- `CreateApp`, `DestroyApp`, `Draw`, `IMG_Load`, the 32-bits-per-pixel check, texture creation, `SDL_Delay` and logging in `main` are calls into SDL. The outer `while (!ctx.quit)` loop is modelled by one iteration (`Frame`). Input comes from outside, and the iteration count is unbounded.
- `SetSurfacePixel`: SDL_MapRGBA's byte layout, the endianness masks, and the pitch and bytes-per-pixel address arithmetic are not modelled. A pixel is its leading byte, and `Colors` gives the leading bytes the two colours leave. Whether those read back as alive or dead depends on the pixel format (`Faithful`). For the same reason the model does not claim that `Binarize` is idempotent.
- Engine.Blit: models SDL_BlitSurface as a pixel-for-pixel copy. `main`'s second surface is created with explicit masks, so the real blit may convert between pixel formats. That conversion is not modelled, and a copy failure is a boolean parameter of `Step`.
- Game.Frame: when the two surfaces' pixel formats differ, the real copy at the start of `Step` converts each pixel into the destination's format. The model copies leading bytes unchanged, so a pixel that the rule does not repaint keeps the source's byte rather than its converted form.
- The OpenMP `parallel for` on `Step`'s loop is not modelled. The loop runs sequentially. `NextPixelLocal` and the function `NextGeneration` state the order independence that makes the parallel loop equivalent.
- Viewport.Handle: wheel zoom scales an `int` by the float `zoom_factor` 1.1 and truncates. That float arithmetic is left as the two functions `zoomIn` and `zoomOut` of `Settings`, so only "a wheel event changes nothing but the width and height" is stated.
- Viewport.Handle: C `int` is 32 bits, but the rectangle and pointer arithmetic is on unbounded integers. Overflow of `pos - click_offset` is not modelled.
- The `event` buffer of `Context` is not modelled. It is the SDL_Event that `SDL_PollEvent` fills.
- `gol.cpp` is not part of this model. It is a separate window demo with no simulation logic.
