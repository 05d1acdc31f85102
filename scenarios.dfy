/** Client code that drives the preview window and the capture engine
    through their contracts alone: drawing a selection, dragging an edge,
    and a capture lifecycle. */
module Scenarios {
  import opened Wrappers
  import opened Selection
  import opened Preview
  import opened Capture

  /** Draw a new selection: press at (50, 50) over an invalid rectangle,
      move to (150, 120), release, and confirm with Return. */
  method DrawNewSelection() {
    var w := new PreviewWindow();
    w.Begin();
    w.OnLButtonDown(10, 10);
    w.OnLButtonUp();
    assert w.selection == Rect(10, 10, 10, 10) && !w.selection.IsValid();

    w.OnLButtonDown(50, 50);
    assert w.dragMode == New;
    var c := w.OnMouseMove(150, 120);
    assert c == None;
    w.OnLButtonUp();
    assert w.selection == Rect(50, 50, 150, 120);
    assert w.selection.Left() == 50 && w.selection.Top() == 50;
    assert w.selection.Right() == 150 && w.selection.Bottom() == 120;
    assert w.selection.IsValid();

    w.OnKeyDown(ReturnKey);
    assert !w.running && w.Result() == Rect(50, 50, 150, 120);
  }

  /** The first selection again, this time through the window procedure,
      with the pointer positions packed into `lParam`: press at (50, 50)
      and drag to (150, 120). */
  method DrawThroughWindowProcedure() {
    var w := new PreviewWindow();
    w.Begin();
    var p1, p2 := PackPoint(50, 50), PackPoint(150, 120);
    UnpackPackPoint(50, 50);
    UnpackPackPoint(150, 120);
    GrabsIffInHitZone(Empty, 50, 50);
    var _ := w.Dispatch(LButtonDown(p1));
    assert w.dragMode == New && w.selection == Rect(50, 50, 50, 50);
    var c := w.Dispatch(MouseMove(p2));
    assert c == None && w.selection == Rect(50, 50, 150, 120);
    ReleaseThenConfirm(w);
  }

  /** Continues a drag that has reached (50, 50)-(150, 120): release the
      left button, then confirm with Return. */
  method ReleaseThenConfirm(w: PreviewWindow)
    requires w.Valid() && w.running && w.isDragging && w.selection == Rect(50, 50, 150, 120)
    modifies w
  {
    var _ := w.Dispatch(LButtonUp);
    assert !w.isDragging && w.running && w.selection == Rect(50, 50, 150, 120);
    var _ := w.Dispatch(KeyDown(ReturnKey));
    assert w.selectionConfirmed && !w.running;
    assert w.Result() == Rect(50, 50, 150, 120) && w.Result().IsValid();
  }

  /** Grab the right edge of (50, 50)-(150, 120) at (150, 85) and drag it
      to (200, 85); then cancel with Escape. */
  method DragRightEdgeThenCancel() {
    var w := new PreviewWindow();
    w.Begin();
    w.OnLButtonDown(50, 50);
    var _ := w.OnMouseMove(150, 120);
    w.OnLButtonUp();
    assert w.selection == Rect(50, 50, 150, 120);

    var hover := w.OnMouseMove(150, 85);
    assert GetDragMode(Rect(50, 50, 150, 120), 150, 85) == RightEdge;
    assert hover == Some(SizeWE);
    w.OnLButtonDown(150, 85);
    assert w.dragMode == RightEdge;
    var _ := w.OnMouseMove(200, 85);
    assert w.selection == Rect(50, 50, 200, 120);
    assert w.selection.Right() == 200 && w.selection.Left() == 50;
    assert w.selection.Top() == 50 && w.selection.Bottom() == 120;

    w.OnKeyDown(EscapeKey);
    assert !w.Result().IsValid();
  }

  /** Capture: nothing before the first frame, a resize drops its frame,
      the next frame of the same size is published, the last writer wins,
      and stopping keeps the latest frame. */
  method CaptureLifecycle(src1: array<bv8>, src2: array<bv8>) {
    var cap := new ScreenCapturer();
    var f0 := cap.GetLatestFrame();
    assert f0 == None;

    var ok := cap.StartCapture(Some(Size(2, 1)), true);
    assert ok == Pass && cap.isCapturing;
    var again := cap.StartCapture(None, false);
    assert again == Pass && cap.isCapturing;

    var desc := TextureDesc(2, 1);
    var e1 := cap.OnFrameArrived(Some(ArrivedFrame(Size(4, 2), Some(TextureDesc(4, 2)))), true, None);
    assert e1 == Resized && cap.latestFrame == None;

    if src1.Length >= 72 && src2.Length >= 72 {
      var e2 := cap.OnFrameArrived(Some(ArrivedFrame(Size(4, 2), Some(TextureDesc(4, 2)))), true,
                                   Some(Mapping(40, src1)));
      assert e2 == Published;
      var first := cap.GetLatestFrame();
      assert first.Some? && first.value.metadata.rowPitch == 32;
      assert |first.value.pixelData| == 64;

      var e3 := cap.OnFrameArrived(Some(ArrivedFrame(Size(4, 2), Some(TextureDesc(4, 2)))), false, None);
      assert e3 == MapFailed;
      var still := cap.GetLatestFrame();
      assert still == first;

      var e4 := cap.OnFrameArrived(Some(ArrivedFrame(Size(4, 2), Some(TextureDesc(4, 2)))), false,
                                   Some(Mapping(40, src2)));
      assert e4 == Published;
      var second := cap.GetLatestFrame();
      assert second.Some? && second.value.metadata == FrameMetadata(4, 2, 32);
      assert second.value.pixelData == Unpadded(src2[..], 40, 32, 2);
    }

    cap.StopCapture();
    assert !cap.isCapturing && !cap.hasStaging;
    var e5 := cap.OnFrameArrived(Some(ArrivedFrame(Size(4, 2), Some(desc))), true, None);
    assert e5 == NotCapturing;
  }
}
