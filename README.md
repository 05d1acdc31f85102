# printscr: selection rectangle, preview state machine and capture bookkeeping

printscr captures the primary display in HDR and shows the capture in a
fullscreen preview. The user drags out a rectangle over the preview, and the
tool returns the rectangle once it is confirmed. This project models the
sequential logic of that tool in Dafny and proves properties of the model:

- `selection.dfy`, module `Selection`: the `SelectionRect` value. It stores
  two corners that are not normalised. Left, Top, Right, Bottom, Width,
  Height and IsValid are derived from them. The module also has the
  normalisation and translation that the preview applies to a rectangle.
- `preview.dfy`, module `Preview`: the preview window's input model. It has:
  - the drag mode as a closed datatype, with the source's integer codes 0..9;
  - the hit test `GetDragMode`, which uses a 3-pixel tolerance;
  - the hover cursor for each mode;
  - the transition one pointer move applies in each mode;
  - class `PreviewWindow`, whose fields mirror the window's members. It has
    one method per handled message (`WM_KEYDOWN`, `WM_LBUTTONDOWN`,
    `WM_MOUSEMOVE`, `WM_LBUTTONUP`, `WM_RBUTTONUP`, `WM_DESTROY`), the
    window procedure that routes messages to them, and `Show`'s message loop
    and return value.
- `capture.dfy`, module `Capture`: class `ScreenCapturer` holds the capture
  engine's state: the capturing flag, the last content size, whether a
  staging texture exists, and the latest published frame. The module has
  `StartCapture`, `StopCapture` and `GetLatestFrame`, and the decisions of
  the frame-arrival callback. The callback's row-by-row copy, which strips
  the device's row padding, is an in-place loop over `array<bv8>`.
- `wrappers.dfy`: `Option` and `Outcome`.
- `scenarios.dfy`: client methods. They drive the window and the engine
  through their contracts alone: drawing a new selection, both through the
  handlers and through the window procedure with packed `lParam` values,
  dragging the right edge, and a capture lifecycle with a resize,
  publication, last-writer-wins and stop.

Platform results are parameters:
- the capture item, with its size;
- whether the session started;
- what `TryGetNextFrame` returned and the frame's texture description;
- whether `CreateTexture2D` succeeded;
- the mapped staging texture, with its row pitch and bytes.

Pointer coordinates are decoded from `lParam` with `LOWORD`/`HIWORD`. These
are modelled as `lParam % 65536` and `(lParam / 65536) % 65536`, so a handler
always sees coordinates in 0..65535. After a move, rectangle coordinates may
leave that range, so they are `int`.

Behaviour of the code that is easy to misread:
- The last pointer position is updated only on a left-button press and on
  moves while dragging (PreviewModule.cpp:189-190, 260-261). It is not
  updated on every move.
- `WM_DESTROY` only ends the loop (PreviewModule.cpp:312-316). It does not
  reset the confirmation flag. The session still counts as cancelled unless
  Return or the right button confirmed it first, because every handler that
  sets the flag also ends the session (`Preview.PreviewWindow.Dispatch`).
- A `StartCapture` that fails after the capture item exists has already
  recorded the item's size as the last size (ScreenCapture.cpp:125-126).
- The hit test uses only the 3-pixel tolerance. The constant
  `tolerance = 5` at PreviewModule.cpp:128 is never read.
- The window class sets `CS_DBLCLKS` (PreviewModule.cpp:327). A quick
  second left click therefore arrives as `WM_LBUTTONDBLCLK` instead of
  `WM_LBUTTONDOWN`. The window procedure passes it to `DefWindowProc`, so
  it starts no drag, and the moves after it only change the hover cursor.
  The model treats it as `Other`.
- The message loop handles every message already pending before it checks
  whether the session has ended (PreviewModule.cpp:57-66). So `Show` takes
  the messages as batches: one batch for each loop iteration.

## Model

| member | source | states |
|---|---|---|
| Selection.Rect.Left | PreviewModule.h:10 | Left is at most both x coordinates |
| Selection.Rect.Top | PreviewModule.h:11 | Top is at most both y coordinates |
| Selection.Rect.Right | PreviewModule.h:12 | Right is at least both x coordinates, so Left <= Right |
| Selection.Rect.Bottom | PreviewModule.h:13 | Bottom is at least both y coordinates, so Top <= Bottom |
| Selection.Rect.Width | PreviewModule.h:14 | Width is never negative |
| Selection.Rect.Height | PreviewModule.h:15 | Height is never negative |
| Selection.EdgesAreStoredCoordinates | PreviewModule.h:10-15 | Left is one x coordinate and Right the other; the same holds for Top/Bottom and y; Width and Height are the distances between the two coordinates |
| Selection.ValidIffDistinctCorners | PreviewModule.h:16 | IsValid holds exactly when x1 != x2 and y1 != y2 |
| Selection.PointIsInvalid | PreviewModule.h:16 | a one-point rectangle, including {0,0,0,0}, is not valid |
| Selection.SwapInvariant | PreviewModule.h:10-16 | swapping x1 with x2, or y1 with y2, changes no accessor and not validity |
| Selection.Rect.Normalized | PreviewModule.cpp:199-208 | the normalised rectangle has x1 <= x2 and y1 <= y2 and the same four edges |
| Selection.NormalizedIdempotent | PreviewModule.cpp:199-208 | normalising twice gives the same result as normalising once |
| Selection.TranslatedKeepsSize | PreviewModule.cpp:249-257 | a translation moves every edge by the offset and keeps width, height and validity |
| Selection.Rect.IsValid | PreviewModule.h:16 | a rectangle with positive width and height; `ValidIffDistinctCorners` proves it holds exactly when both coordinate pairs differ |
| Selection.Rect.Translated | PreviewModule.cpp:249-257 | both corners shifted by the same offset; `TranslatedKeepsSize` proves every edge moves by the offset and width, height and validity are kept |
| Preview.DragMode.Code | PreviewModule.cpp:107 | the code is in 0..9: 0 is new, 1..4 are the corners, 5..8 the edges, 9 is move |
| Preview.CodeInjective | PreviewModule.cpp:107 | different modes have different codes |
| Preview.GetDragMode | PreviewModule.cpp:119-156 | the press classifier; `GrabsIffInHitZone` decides New, `CornersTakePriority` gives each corner mode exactly with the corner order TL, TR, BR, BL, `EdgeModeMeansOnEdge` gives the conditions each edge mode implies, `MoveIffDeepInterior` decides Move exactly, and `DragModeIgnoresCornerOrder` shows it reads only the edges |
| Preview.GrabsIffInHitZone | PreviewModule.cpp:119-156 | with no valid selection the mode is New; with one, the mode is not New exactly when the press lies within 3 px of the closed rectangle |
| Preview.CornersTakePriority | PreviewModule.cpp:131-143 | with hitL/hitR/hitT/hitB the four 3-px edge tests: TopLeft exactly when hitL and hitT; TopRight exactly when hitR and hitT but not hitL; BottomRight exactly when hitR and hitB but not hitT; BottomLeft exactly when hitL and hitB but neither hitT nor hitR; the mode is a corner exactly when the press is near a vertical edge and near a horizontal edge |
| Preview.EdgeModeMeansOnEdge | PreviewModule.cpp:144-151 | an edge mode means the press is near that edge and within its span, and not near either edge that crosses it |
| Preview.MoveIffDeepInterior | PreviewModule.cpp:152-153 | Move is returned exactly when the press is strictly inside and more than 3 px from all four edges |
| Preview.DragModeIgnoresCornerOrder | PreviewModule.cpp:119-126 | the mode depends only on the edges, so normalising the corners does not change it |
| Preview.CursorFor | PreviewModule.cpp:264-289 | the hover cursor for each mode; `CursorMatchesDrag` proves each cursor is shown exactly for the modes whose drag moves the coordinates that cursor points along |
| Preview.Dragged | PreviewModule.cpp:216-259 | one pointer move in each mode; `NewDragSpansPressAndPointer` (New), `CornerDragChangesOneCorner` and `CornerDragMovesThatCorner` (corners), `EdgeDragChangesOneCoordinate` and `EdgeDragMovesThatEdge` (edges) and `MoveDragKeepsSize` (Move) state what each mode changes and keeps |
| Preview.CursorMatchesDrag | PreviewModule.cpp:264-289 | the N-S cursor is shown for the top and bottom edges, whose drags leave both x coordinates alone; the W-E cursor is shown for the left and right edges, whose drags leave both y coordinates alone; a diagonal cursor's mode moves one stored corner on that diagonal; the four-way cursor means Move; the cross means New |
| Preview.MoveDragKeepsSize | PreviewModule.cpp:249-257 | a Move drag shifts all four coordinates by the pointer's offset and keeps width, height and validity |
| Preview.EdgeDragChangesOneCoordinate | PreviewModule.cpp:237-248 | an edge drag changes only its own coordinate (top: y1, right: x2, bottom: y2, left: x1) and sets it to the pointer |
| Preview.EdgeDragMovesThatEdge | PreviewModule.cpp:237-248 | in a normalised rectangle an edge drag that does not cross the opposite edge moves that edge to the pointer and leaves the other three edges alone |
| Preview.CornerDragChangesOneCorner | PreviewModule.cpp:221-236 | a corner drag sets that stored corner to the pointer (top-left x1,y1; top-right x2,y1; bottom-right x2,y2; bottom-left x1,y2) and keeps the other two coordinates |
| Preview.CornerDragMovesThatCorner | PreviewModule.cpp:221-236 | in a normalised rectangle a corner drag that crosses neither opposite edge moves that corner's two edges to the pointer and keeps the other two edges |
| Preview.NewDragSpansPressAndPointer | PreviewModule.cpp:217-220 | a New drag keeps (x1,y1) and sets (x2,y2) to the pointer; from the press's one-point rectangle the result spans the press and the pointer, and is valid exactly when the pointer differs from the press in both x and y |
| Preview.MoveDragTelescopes | PreviewModule.cpp:249-261 | over a whole Move drag the rectangle ends translated by the final pointer position minus the press position |
| Preview.LoWord | PreviewModule.cpp:187 | the decoded x coordinate lies in 0..65535 |
| Preview.HiWord | PreviewModule.cpp:188 | the decoded y coordinate lies in 0..65535 |
| Preview.UnpackPackPoint | PreviewModule.cpp:187-188 | decoding a packed pointer position gives back both coordinates |
| Preview.PreviewWindow.constructor | PreviewModule.cpp:102-117 | initial members: not running, not confirmed, empty selection, not dragging, mode 0, last pointer (0,0) |
| Preview.PreviewWindow.Begin | PreviewModule.cpp:49-53 | running, not confirmed, selection {0,0,0,0} |
| Preview.PreviewWindow.OnKeyDown | PreviewModule.cpp:175-184 | Escape sets confirmed false and running false; Return sets confirmed true and running false; any other key changes nothing |
| Preview.PreviewWindow.OnLButtonDown | PreviewModule.cpp:185-211 | remembers the pointer, starts dragging and sets the mode from the old selection; mode New makes the selection the pointer point, any other mode normalises it |
| Preview.PreviewWindow.OnMouseMove | PreviewModule.cpp:212-293 | while dragging: applies the mode's transition against the last pointer, remembers the pointer, sets no cursor; otherwise: sets the hover cursor for the mode under the pointer and changes neither the selection nor the last pointer |
| Preview.PreviewWindow.OnLButtonUp | PreviewModule.cpp:301-305 | clears dragging and nothing else |
| Preview.PreviewWindow.OnRButtonUp | PreviewModule.cpp:306-311 | confirms and ends the session |
| Preview.PreviewWindow.OnDestroy | PreviewModule.cpp:312-316 | ends the session and nothing else |
| Preview.PreviewWindow.Dispatch | PreviewModule.cpp:163-319 | the effect of each message: Escape cancels and Return confirms, both ending the session, and other keys change nothing; a press at the `LoWord`/`HiWord` position of `lParam` starts a drag in the mode `GetDragMode` gives for the old selection, resetting it to the point for New and normalising it otherwise; a move while dragging applies `Dragged` against the last pointer and remembers the pointer, and otherwise returns the hover cursor and changes nothing; the left-button release ends the drag; the right-button release confirms and ends the session; `WM_DESTROY` ends the session and keeps the confirmation flag; only a press and a release touch the drag state, only keys, the right button and `WM_DESTROY` touch the session flags, only a press and a move touch the selection and the last pointer; no message restarts an ended session; unhandled messages change nothing |
| Preview.PreviewWindow.Result | PreviewModule.cpp:81 | the selection if confirmed, else {0,0,0,0}, which is never valid |
| Preview.PreviewWindow.Show | PreviewModule.cpp:22-82 | set-up failure returns {0,0,0,0}; otherwise the loop ends exactly when the session has ended; it returns Result(); a valid result was confirmed |
| Capture.U32Mul | ScreenCapture.cpp:245-246 | a uint32_t product is below 2^32 and is exact when the true product fits |
| Capture.FrameSizeFitsU32 | ScreenCapture.cpp:245-246 | for texture sizes up to 16384, `width*8` and `width*8*height` do not wrap in 32 bits |
| Capture.RowInside | ScreenCapture.cpp:252-256 | when the buffer reaches the end of the last row, every row the loop reads lies inside it, and so does every shorter prefix of rows |
| Capture.Unpadded | ScreenCapture.cpp:252-256 | copying `rows` rows of `rowBytes` bytes gives exactly `rows*rowBytes` bytes; the source only has to reach the end of the last row |
| Capture.UnpaddedAt | ScreenCapture.cpp:252-256 | byte i of row r of the copy is byte `r*srcPitch + i` of the source, for every `srcPitch >= rowBytes` |
| Capture.MemCopy | ScreenCapture.cpp:253 | the destination range equals the source range, and the rest of the destination is unchanged |
| Capture.CopyOneRow | ScreenCapture.cpp:253-255 | one loop iteration: after copying a row, the destination prefix is the unpadded copy of one more row, and that row lies inside the source |
| Capture.CopyRows | ScreenCapture.cpp:248-256 | the destination buffer holds the source rows with their padding removed |
| Capture.ScreenCapturer.constructor | ScreenCapture.cpp:48-53 | not capturing, last size (0,0), no staging texture, no latest frame |
| Capture.ScreenCapturer.StartCapture | ScreenCapture.cpp:120-152 | does nothing if already capturing; a failure to create the item is an error and changes nothing; otherwise records the item size and is capturing exactly when the session started, and reports an error if it did not |
| Capture.ScreenCapturer.StopCapture | ScreenCapture.cpp:154-177 | afterwards not capturing; from the capturing state it releases the staging texture; when not capturing it does nothing; the latest frame is kept |
| Capture.ScreenCapturer.GetLatestFrame | ScreenCapture.cpp:267-270 | returns the latest published frame, which is tightly packed, or None before the first publication |
| Capture.ScreenCapturer.OnFrameArrived | ScreenCapture.cpp:179-265 | no frame: nothing happens; a size change updates the size, drops the staging texture and publishes nothing; a missing texture, a stopped capture, or a failed staging creation publishes nothing; staging is created only when absent; a failed map keeps the latest frame; a successful map publishes exactly the unpadded copy with row pitch `width*8`; the engine invariant (staging only while capturing, published frames tightly packed) is kept |

## Left out

- Rendering: the fragment shader, `Render`, GL uniforms, drawing and buffer
  swaps (PreviewModule.cpp:394-522). They are floating-point GPU work with no
  state the selection logic reads.
- Window, EGL and GL set-up and teardown: `CreateWin32Window`, `InitEGL`,
  `InitGL`, `Cleanup`. These are foreign calls. `Show` takes their combined
  success as `platformReady`.
- `PeekMessage`, `TranslateMessage`, `Sleep(16)`, `SetCursor` and
  `LoadCursorW`. `Show` receives the pending messages as batches, and the
  chosen cursor is returned instead of being set.
- `WM_CREATE` and `WM_SETCURSOR`. They change none of the modelled state, so
  they fall under `Other`. `PostQuitMessage` in `WM_DESTROY` has no modelled
  effect: the handler already ends the session, and the loop stops after the
  current batch.
- The HDR metadata query (SystemInfo.cpp). It is platform queries plus a
  single-precision float conversion.
- Device creation and capture-item creation (`InitializeDevice`,
  `CreateCaptureItemForPrimaryMonitor`), `frame_pool.Recreate`,
  `CopyResource`, `Unmap`, and the revoker and session teardown in
  `StopCapture`. These are foreign calls. Their results enter as parameters,
  or they have no modelled effect.
- Concurrency. The frame callback runs on another thread, and `frame_mutex`
  and the atomic `is_capturing` guard it. The model runs every operation as
  one sequential step. A callback racing with `StopCapture` is not modelled.
  In particular, `OnFrameArrived` in the model reports `Resized` and records
  the new size even when capture has stopped. In the source that can only
  happen in such a race, and there `frame_pool.Recreate` would be called on
  the pool that `StopCapture` has already released
  (ScreenCapture.cpp:166-169, 191).
- The staging texture is a boolean. Its description, taken from the first
  frame that created it, is not tracked.
- Capture.ScreenCapturer.OnFrameArrived: the model assumes that each frame's
  texture has the dimensions of the texture the staging copy was made from.
  The source never checks this (ScreenCapture.cpp:216-227, 245-256): it
  reuses the staging texture while the content size stays the same, and it
  copies the current frame's rows from that mapping. A larger frame would
  make it read past the mapped data. The precondition that the mapping holds
  every row the copy reads rules that case out.
- Preview.PreviewWindow.Show: the loop's result is stated through the session
  flags. The model does not compute the final rectangle as a function of the
  whole message sequence.
- Selection.Rect: coordinates are unbounded integers. The source's 32-bit
  `int` could wrap under `+=` in Move mode only after more than 2^31 pixels
  of accumulated movement. One Move drag moves the rectangle by at most
  65535 pixels per axis, so that would take tens of thousands of drags.
- main.cpp's orchestration and Logger.h's logging are not part of this model.
