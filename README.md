# statis: selection UI and X11 capture, modelled in Dafny

statis is a small Rust screenshot tool. Its window shows a "Capture Area"
button. The button switches the window to a full-screen selection mode. In
that mode the user drags a rectangle with the left mouse button. The capture
side asks the X11 server for the raw pixels of a region. The server returns
BGRX bytes: blue, green, red and an unused byte per pixel. The tool turns
these into packed RGB and wraps them in an `image::ImageBuffer`.

This project models two files:

- `capture.dfy` (module `Capture`) models `src/capture.rs`. It covers the
  conversion `bgrx_to_rgb`, written as a loop method proved against the
  function `RgbOf`. It covers the request `capture_region` sends, including
  the `u16 -> i16` cast of the origin. It covers the buffer-size check
  (`ImageBuffer::from_raw`) and `capture_full_screen`. The X11 connection is
  a value: its root screens plus a total function from a GetImage request to
  the server's response. That response is a send failure, a reply error, or
  the reply's bytes.
- `statis_ui.dfy` (module `StatisUi`) models `src/statis_ui.rs`. `Statis`
  is a class whose `Update` method changes the three fields in place. Its
  contract ties the new fields to `Step`, a function on the state as a value.
  The lemmas about `Step` state what each message does and the fields'
  invariant. `SelectionProgram` is a datatype with two functions. `Update`
  maps canvas events to messages, and `DrawnRect` gives the rectangle `draw`
  paints.
- `wrappers.dfy` holds Rust's `Option`.

Points are `f32` in the source. Only `min`, `max`, subtraction and `abs` are
applied to them, so they are integers here.

Behaviours of the code the model keeps as written:

- `ImageBuffer::from_raw` in the image crate returns `None` only when the
  container is too small for `width * height` pixels. A larger container is
  accepted. So `capture_region` fails with "Invalid buffer size" exactly when
  the converted reply is shorter than `width * height * 3`. It does not fail
  when the converted reply is exactly that length or longer. For the reply a
  32-bit-per-pixel server sends (`width * height * 4` bytes), the image has
  exactly `width * height * 3` bytes (`ExactReplyIsCaptured`).
- A press while a drag is in progress restarts the drag at the new point. It
  is not ignored.
- A release with zero width or height still ends selection mode. The window
  goes back to its small size, and the empty region is reported.
- `MouseMoved` carries the position from the `CursorMoved` event itself.
  Presses and releases carry `cursor.position_in(bounds)` instead.
- The release only prints the selected region. `capture_region` is never
  called from the UI (the code marks that spot as a TODO). The model returns
  the printed region from `Update` as `selected`.

## Model

| member | source | states |
|---|---|---|
| `Capture.AsI16` | src/capture.rs:30 | `region.x as i16` gives the one signed 16-bit value congruent to the coordinate modulo 2^16. It is negative exactly when the coordinate is at least 32768. |
| `Capture.AsI16Injective` | src/capture.rs:30 | The cast loses nothing: two different coordinates reach the server as different `i16` values. |
| `Capture.RgbOf` | src/capture.rs:47-57 | The converted buffer holds exactly `len / 4 * 3` bytes, three for each complete 4-byte chunk. |
| `Capture.RgbOfAt` | src/capture.rs:49-56 | Output bytes `3i, 3i+1, 3i+2` are input bytes `4i+2, 4i+1, 4i` (red, green, blue) for every complete chunk `i`. |
| `Capture.RgbOfIgnoresUnused` | src/capture.rs:49-52 | Two replies with the same number of chunks that agree on the first three bytes of every chunk convert to the same RGB. Neither the X byte nor an incomplete tail of 1 to 3 bytes affects the output. |
| `Capture.RgbOfDropsTail` | src/capture.rs:49 | Converting a reply is the same as converting only its complete chunks, as `chunks_exact(4)` does. |
| `Capture.RgbOfAppend` | src/capture.rs:49-56 | For a first part whose length is a multiple of 4, converting a concatenation gives the two conversions concatenated. |
| `Capture.SwapRecoversBgr` | src/capture.rs:50-55 | Swapping bytes 0 and 2 of every output triple recovers the (b, g, r) bytes of every input chunk. |
| `Capture.SwapTriplesInvolution` | src/capture.rs:50-55 | The channel swap undone twice is the identity on whole triples, so RGB and BGR convert into each other without loss. |
| `Capture.BgrxToRgb` | src/capture.rs:47-58 | The loop's result is `RgbOf(data)`, the chunk-by-chunk conversion: `len / 4 * 3` bytes, whose triples `RgbOfAt` describes. |
| `Capture.ScreenCapture.CaptureRegion` | src/capture.rs:28-35 | The request is a Z_PIXMAP GetImage of the root window for the region's size, with the origin cast to `i16`. A send failure panics and a reply error is returned. Otherwise the result is an image of the region's size holding the converted reply exactly when that reply has at least `width * height * 3` bytes, and "Invalid buffer size" when it has fewer. |
| `Capture.ScreenCapture.CaptureFullScreen` | src/capture.rs:37-40 | The outcome is that of `capture_region` on the region at (0, 0) with the root screen's width and height. |
| `Capture.ExactReplyIsCaptured` | src/capture.rs:31-34 | A reply of exactly `width * height * 4` bytes yields an image of exactly `width * height * 3` bytes. Triple `i` of that image is (red, green, blue) of pixel `i` of the reply. |
| `Capture.ScreenCapture.ScreenDimensions` | src/capture.rs:23-26 | `screen_dimensions` gives the width and height of the root screen the connection's screen number selects. `FullScreenRequest` states what the full-screen capture does with them. |
| `Capture.FullScreenRequest` | src/capture.rs:23-26 | The full-screen request asks for origin (0, 0) and the size `screen_dimensions` reports. |
| `StatisUi.SelectedRegion` | src/statis_ui.rs:64-69 | The reported width and height are never negative. The region's left and right edges are exactly the two endpoints' x coordinates, and its top and bottom edges their y coordinates. |
| `StatisUi.SelectedRegionSymmetric` | src/statis_ui.rs:64-67 | Swapping the two endpoints of a drag does not change the region. |
| `StatisUi.SelectedRegionEmpty` | src/statis_ui.rs:64-69 | The width is 0 exactly when both endpoints have the same x coordinate. The height is 0 exactly when both have the same y coordinate. |
| `StatisUi.Step` | src/statis_ui.rs:37-86 | Every message keeps the invariant (`start` and `current` are set together, and only while selecting). A region is reported exactly on a release during a drag, and then the state is idle and the window is restored. Only `CaptureFullScreen` and a finishing release return a task. |
| `StatisUi.CaptureFullScreenStep` | src/statis_ui.rs:39-41 | `CaptureFullScreen` turns selection mode on and leaves `start` and `current` as they were. |
| `StatisUi.MousePressedStep` | src/statis_ui.rs:48-53 | A press in selection mode sets `start` and `current` to the press point, overwriting a drag in progress. Outside selection mode a press changes nothing. |
| `StatisUi.MouseMovedStep` | src/statis_ui.rs:55-59 | A move changes only `current`, and only when selecting with `start` set. |
| `StatisUi.MouseReleasedStep` | src/statis_ui.rs:61-84 | A release during a drag reports the normalized region and resets all three fields, even for an empty region. Any other release changes nothing and reports nothing. |
| `StatisUi.RunPreservesValid` | src/statis_ui.rs:37-86 | The invariant holds after any sequence of messages from a state that satisfies it, so it holds in every state reached from `new`. |
| `StatisUi.DragScenario` | src/statis_ui.rs:61-75 | Pressing at (100, 200), moving to (500, 600) and releasing there reports the 400x400 region at (100, 200) and ends selection mode. |
| `StatisUi.ZeroAreaScenario` | src/statis_ui.rs:61-75 | Pressing and releasing at the same point reports an empty region at that point and still ends selection mode. |
| `StatisUi.Statis.constructor` | src/statis_ui.rs:28-32 | The fields start as not selecting, with no `start` and no `current`. |
| `StatisUi.Statis.New` | src/statis_ui.rs:26-34 | `new` gives a fresh idle application that satisfies the invariant, and no task. |
| `StatisUi.Statis.Update` | src/statis_ui.rs:37-86 | The new fields, the returned task and the reported region are exactly what `Step` gives for the old fields. The invariant is kept. |
| `StatisUi.SelectionProgram.Update` | src/statis_ui.rs:172-196 | A left press or release becomes `MousePressed` or `MouseReleased` at the in-bounds cursor position, and only when the cursor is in bounds. Every cursor move becomes `MouseMoved` at the event's position. The status is `Captured` exactly when a message is produced. Every other event is `Ignored` with no message. |
| `StatisUi.SelectionProgram.DrawnRect` | src/statis_ui.rs:208-214 | A rectangle is drawn exactly when both endpoints are set. Its corner at the minima and its extent `abs(end - start)` equal the region `update` reports for the same endpoints. |
| `StatisUi.DrawMatchesRelease` | src/statis_ui.rs:208-212 | During a drag, the canvas draws the region a release at the current point would report. |

## Left out

- `ScreenCapture::new` (`x11rb::connect`) and the X11 round trip are network I/O with the display server. The connection is a parameter: its root screens and a function from GetImage request to response.
- The internals of `ImageBuffer` belong to the image crate. Only the length check of `from_raw` is modelled. Its overflow check on `width * height * 3` cannot fail for 16-bit dimensions on a 64-bit target, so it is not modelled.
- `Statis::view` and all styling (colours, borders, shadows, layout) are presentation with float colour values.
- The `Task` values are recorded only as tags (`Resize`, `MoveTo`). `window::get_oldest` and the runtime that carries them out are not modelled. The `println!` lines are not modelled; the region the release prints is returned as `selected`.
- `Frame` fill and stroke in `draw` are rendering. Only the rectangle handed to them is modelled.
- `cursor.position_in(bounds)` is an iced call. Its result is an optional position input.
- The `f32` rounding and NaN behaviour of `Point` coordinates is not modelled. Coordinates are integers.
- `src/main.rs` is application wiring and window configuration.
