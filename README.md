# Rust-Mandelbrot, modelled in Dafny

The program draws the Mandelbrot set into an 800 x 600 window, one row per
frame. For every pixel it maps the pixel to a point `c` of the rectangle
[-2, 1] x [-1, 1] of the complex plane. It iterates `z := z*z + c` from
`z = 0` until `|z| > 20` or the budget of 1000 iterations is spent. It then
colours the pixel through a fixed table of iteration ranges. Before each row
it drains the window events and exits on a window close or an Escape key press.

The model has four modules, one per component of `src/main.rs`:

- `Escape` (escape.dfy): complex numbers over `real`, the orbit `z_n` as a
  recursive function, and `mandelbrot_value_at_point` as a method with the
  source's loop and early return. The method is proved against a declarative
  predicate, `IsEscapeTime`: the least escaping index, or the budget when none
  escapes earlier. An escape-time function is proved to be the predicate's
  only solution. The escape test `norm() > 20.0` is `re*re + im*im > 400.0`.
- `Viewport` (viewport.dfy): the pixel-to-plane arithmetic of the drawing
  loop, lifted out as the pure function `MapPixel`, with its inverse.
- `Palette` (palette.dfy): the colour `match` as `ColorOf`. The match arms are
  also written out as a table of inclusive ranges, `Arms`. Lemmas tie the two
  together and state the order, disjointness and monotonicity of the arms.
- `Render` (render.dfy): the drawing loop as a class `Renderer`. It holds the
  row cursor `cur_y`, the sequence of `draw_point` calls made so far, a count
  of `present` calls, and whether the loop is still running. `Tick` is one
  frame, and `Run` feeds one batch of events to each frame. `Image(cfg, n)`
  specifies the draws of the first `n` rows. The class invariant says the
  canvas has received exactly `Image(cfg, cur_y)`.

Behaviour of the source that the model keeps as written:

- Points that never escape get the value 1000. The colour `match` sends 1000
  to its wildcard arm, so those points are drawn white, not black.
- The arm for 0 (black) is unreachable with a budget of at least 1.
- The escape radius is 20, ten times the textbook radius of 2.
- The result of `draw_point` is discarded, so a failed write is not fatal. The
  model treats every write as succeeding.
- There is no smoothed or continuous colouring, and no aspect-ratio
  derivation.

## Model

| member | source | states |
|---|---|---|
| Escape.MandelbrotValueAtPoint | src/main.rs:12-27 | For a budget `max_iters >= 0`, returns the least `i` in `0..=max_iters` with `z_i` escaped. Every earlier orbit point has not escaped. A result below the budget has escaped. For a negative budget the range is empty and the budget itself is returned. |
| Escape.EscapeFromCorrect | src/main.rs:20-26 | Searching upwards from `i`, with no escape before `i`, yields a value meeting the evaluator's contract. |
| Escape.EscapeTimeCorrect | src/main.rs:20-26 | The escape-time function meets the evaluator's declarative contract. |
| Escape.EscapeTimeUnique | src/main.rs:20-26 | A value meets the contract if and only if it equals the escape-time function, so the loop and the function agree on every input. |
| Escape.EscapeTimeInRange | src/main.rs:20-26 | For a budget `>= 0` the result lies in `[0, max_iters]`. |
| Escape.EscapeTimeNeverZero | src/main.rs:17-23 | With a budget `>= 1` the result is never 0, because `z_0 = 0` has not escaped. |
| Escape.EscapeTimeStableUnderLargerBudget | src/main.rs:20-26 | A point that escapes strictly within a budget escapes at the same index under every larger budget. |
| Escape.OriginIsBounded | src/main.rs:17-26 | For `c = 0` the orbit stays at 0 and the result is the budget. |
| Escape.MinusOneIsBounded | src/main.rs:17-26 | For `c = -1` the orbit alternates between 0 and -1 and the result is the budget. |
| Escape.MinusTwoIsBounded | src/main.rs:17-26 | For `c = -2` the orbit runs 0, -2, 2, 2, ... and the result is the budget. |
| Escape.FarPointEscapesAtTwo | src/main.rs:20-24 | For `c = 5+5i` and any budget `>= 2` the result is 2, whatever the budget. |
| Escape.EscapeAtBudgetLooksBounded | src/main.rs:20-26 | With budget 2, the point `5+5i` escapes at step 2 and `0` never escapes, yet both return 2: escaping exactly at the budget looks the same as never escaping. |
| Viewport.MapPixel | src/main.rs:75-78 | Maps pixel `(x, y)` to `x_min + (x_max - x_min) * x / width` plus `i` times `y_min + (y_max - y_min) * y / height`; column 0 lands on `x_min` and row 0 on `y_min`. |
| Viewport.MapPixelOrigin | src/main.rs:75-78 | Pixel (0, 0) maps exactly to the corner `(x_min, y_min)`. |
| Viewport.MapPixelInRegion | src/main.rs:75-78 | Every pixel inside the window maps into `[x_min, x_max) x [y_min, y_max)`, and `x_max`, `y_max` are never reached. |
| Viewport.MapPixelStrictlyIncreasing | src/main.rs:75-78 | A larger column gives a strictly larger real part, and a larger row a strictly larger imaginary part. |
| Viewport.MapPixelInverse | src/main.rs:75-78 | Undoing the linear map on each axis recovers the pixel coordinates. |
| Palette.ColorOf | src/main.rs:82-97 | Computes the colour the `match` picks for an escape value: red equals green and neither exceeds blue, the colour is black if and only if the value is 0, and every value outside `0..=999` is white. |
| Palette.ArmsOrderedAndContiguous | src/main.rs:82-96 | The range arms are non-empty, in increasing order, each starts right after the previous one ends, and together they run from 0 to 999. |
| Palette.ArmsDisjoint | src/main.rs:82-96 | Two arms that share a value are the same arm. |
| Palette.ColorOfFollowsArms | src/main.rs:82-95 | A value inside an arm gets that arm's colour. |
| Palette.ColorOfWildcard | src/main.rs:82-96 | A value lies in some arm if and only if it is in `0..=999`. Every other value, including all negatives and 1000, is white. |
| Palette.ColorOfMonotone | src/main.rs:83-96 | For `0 <= a <= b`, each channel of `colour(a)` is at most the same channel of `colour(b)`. |
| Render.PollQuit | src/main.rs:60-68 | Reports a quit if and only if the batch holds a window close or an Escape key press. All other events are ignored. |
| Render.QuietTicks | src/main.rs:58-68 | Counts the leading batches that hold no quit. The batch right after them, if there is one, holds a quit. |
| Render.QuietTicksAt | src/main.rs:58-68 | A prefix of quiet batches followed by a quitting batch, or by the end, fixes the number of quiet ticks. |
| Render.Renderer.constructor | src/main.rs:50-57 | No draws are recorded yet and one present has been made. The cursor starts at row 0 and the loop is running. |
| Render.Renderer.DrawRow | src/main.rs:73-101 | Draws exactly the pixels `(x, cur_y)` for `x` from 0 to `width - 1`, in order. Each is drawn in `colour(evaluate(map(x, cur_y)))`. |
| Render.Renderer.Tick | src/main.rs:58-105 | A tick whose batch holds a quit stops the loop and draws nothing. Otherwise, below the last row it draws one row and moves `cur_y` down by one, and once every row is drawn it draws nothing and leaves `cur_y` unchanged. It then presents once. The cursor never exceeds the height. |
| Render.Renderer.Run | src/main.rs:58-106 | After the quiet ticks before the first quit, the cursor stands at `min(start + ticks, height)`. The canvas holds exactly those rows, one present was made per quiet tick, and the loop keeps running only if no batch quit. |
| Render.ImageLength | src/main.rs:72-103 | The first `n` rows make `n * width` draws. |
| Render.ImageEntry | src/main.rs:72-103 | Every draw in the first `n` rows is of a pixel of those rows, in that pixel's colour, at position `y * width + x`. |
| Render.ImageAt | src/main.rs:72-103 | Pixel `(x, y)` of the first `n` rows is drawn at position `y * width + x`, in its colour. |
| Render.ImageNoPixelTwice | src/main.rs:72-103 | No pixel is drawn twice. |
| Render.ImageDrawsEachPixelOnce | src/main.rs:72-103 | The first `n` rows draw every pixel of those rows exactly once, each in its colour, and nothing else. With `n = height` this is the whole window. |
| Render.PixelColor | src/main.rs:75-97 | The colour drawn at pixel `(x, y)` is the colour of a value meeting the evaluator's contract at the point the pixel maps to. |
| Render.PixelNeverBlack | src/main.rs:79-97 | With a budget `>= 1` no pixel is drawn black. |
| Render.ProgramLeftTipIsWhite | src/main.rs:30-36 | With the program's constants, pixel (0, 300) maps to `c = -2`, a point of the set, and is drawn white. |
| Render.SmallImageScenario | src/main.rs:57-103 | In a 4 x 2 window with budget 10, two quiet ticks complete the image. All 8 pixels are drawn exactly once, and a third tick leaves the draws and the cursor unchanged. |
| Render.QuitFirstScenario | src/main.rs:60-68 | A quit in the first batch ends the loop with zero draws. |

## Left out

- SDL initialisation, window and canvas construction, and their `unwrap` calls (src/main.rs:40-53): foreign library calls. `clear` and `present` are modelled only as a count of present calls.
- The pacing `thread::sleep` (src/main.rs:105): timing is outside the model.
- IEEE-754 rounding, NaN and infinity in the evaluator and the mapper: `f64` is modelled as the mathematical reals. Proved properties about exact values, such as the corner pixel mapping exactly to `(x_min, y_min)`, hold over the reals only.
- `to_i32().unwrap()` on the pixel coordinates (src/main.rs:100): replaced by the configuration precondition `width, height <= 0x7fff_ffff`, under which it cannot fail.
- The event queue itself: each tick receives the batch of events pending at that moment as a sequence. Events after a quit in the same batch are never read, because the program exits.
- The canvas's pixel storage: the canvas belongs to the graphics library, so the model records the sequence of `draw_point` calls made on it, each with the colour set just before it.
- Render.Renderer.Tick: it requires that the loop is still running, because the source never ticks again after a quit ends the loop.
