/** The interactive part of the preview window: the hit-test that decides
    which part of the selection a press landed on, the cursor shown for it,
    how a drag edits the rectangle, and the window whose message handlers
    run that state machine until the user confirms or cancels. */
module Preview {
  import opened Wrappers
  import opened Selection

  /** What a left-button press grabbed. The source encodes these as the
      integers 0..9 (see `Code`). */
  datatype DragMode =
    | New          // draw a fresh rectangle
    | TopLeft | TopRight | BottomRight | BottomLeft
    | TopEdge | RightEdge | BottomEdge | LeftEdge
    | Move         // translate the whole rectangle
  {
    /** The source's integer drag-mode code. */
    function Code(): (c: int)
      ensures 0 <= c <= 9
      ensures c == 0 <==> New?
      ensures 1 <= c <= 4 <==> IsCorner()
      ensures 5 <= c <= 8 <==> IsEdge()
      ensures c == 9 <==> Move?
    {
      match this
      case New => 0
      case TopLeft => 1
      case TopRight => 2
      case BottomRight => 3
      case BottomLeft => 4
      case TopEdge => 5
      case RightEdge => 6
      case BottomEdge => 7
      case LeftEdge => 8
      case Move => 9
    }

    predicate IsCorner() { TopLeft? || TopRight? || BottomRight? || BottomLeft? }
    predicate IsEdge() { TopEdge? || RightEdge? || BottomEdge? || LeftEdge? }
  }

  /** Distinct modes have distinct codes, so the code identifies the mode. */
  lemma CodeInjective(a: DragMode, b: DragMode)
    ensures a.Code() == b.Code() ==> a == b
  {
  }

  /** Hit-test tolerance in pixels, shared by corners and edges. */
  const Tolerance := 3

  /** Coordinate `p` lies within the tolerance of the line at `edge`. */
  predicate Near(p: int, edge: int)
  {
    Abs(p - edge) <= Tolerance
  }

  /** The closed rectangle grown by the tolerance on every side: the area in
      which a press grabs the existing selection instead of starting anew. */
  predicate InHitZone(sel: Rect, x: int, y: int)
  {
    sel.Left() - Tolerance <= x <= sel.Right() + Tolerance
    && sel.Top() - Tolerance <= y <= sel.Bottom() + Tolerance
  }

  /** Classifies a press at (x, y): corners first (top-left, top-right,
      bottom-right, bottom-left), then edges within the rectangle's span,
      then the strict interior. A press anywhere else, or any press while
      there is no valid selection, starts a new rectangle. */
  function GetDragMode(sel: Rect, x: int, y: int): DragMode
  {
    if !sel.IsValid() then New
    else
      var l, t, r, b := sel.Left(), sel.Top(), sel.Right(), sel.Bottom();
      var hitL, hitR, hitT, hitB := Near(x, l), Near(x, r), Near(y, t), Near(y, b);
      if hitL && hitT then TopLeft
      else if hitR && hitT then TopRight
      else if hitR && hitB then BottomRight
      else if hitL && hitB then BottomLeft
      else if hitT && l <= x <= r then TopEdge
      else if hitR && t <= y <= b then RightEdge
      else if hitB && l <= x <= r then BottomEdge
      else if hitL && t <= y <= b then LeftEdge
      else if l < x < r && t < y < b then Move
      else New
  }

  /** Without a valid selection every press starts anew; with one, a press
      grabs the selection exactly when it lands in the hit zone. */
  lemma GrabsIffInHitZone(sel: Rect, x: int, y: int)
    ensures !sel.IsValid() ==> GetDragMode(sel, x, y) == New
    ensures sel.IsValid() ==> (GetDragMode(sel, x, y) != New <==> InHitZone(sel, x, y))
  {
  }

  /** A press near a corner grabs a corner whatever the edge and interior
      tests would say. Corners are tried top-left, top-right, bottom-right,
      bottom-left, so on a rectangle narrower or shorter than the tolerance
      an earlier corner wins a tie. */
  lemma CornersTakePriority(sel: Rect, x: int, y: int)
    requires sel.IsValid()
    ensures var m := GetDragMode(sel, x, y);
      var hitL, hitR := Near(x, sel.Left()), Near(x, sel.Right());
      var hitT, hitB := Near(y, sel.Top()), Near(y, sel.Bottom());
      && (m == TopLeft <==> hitL && hitT)
      && (m == TopRight <==> hitR && hitT && !hitL)
      && (m == BottomRight <==> hitR && hitB && !hitT)
      && (m == BottomLeft <==> hitL && hitB && !hitT && !hitR)
    ensures (Near(x, sel.Left()) || Near(x, sel.Right())) && (Near(y, sel.Top()) || Near(y, sel.Bottom()))
      ==> GetDragMode(sel, x, y).IsCorner()
    ensures GetDragMode(sel, x, y).IsCorner()
      ==> (Near(x, sel.Left()) || Near(x, sel.Right())) && (Near(y, sel.Top()) || Near(y, sel.Bottom()))
  {
  }

  /** An edge mode means the press was near that edge, inside the span of
      the rectangle along it, and not near either edge that crosses it. */
  lemma EdgeModeMeansOnEdge(sel: Rect, x: int, y: int)
    requires sel.IsValid()
    ensures var m := GetDragMode(sel, x, y);
      var l, t, r, b := sel.Left(), sel.Top(), sel.Right(), sel.Bottom();
      && (m == TopEdge ==> Near(y, t) && l <= x <= r && !Near(x, l) && !Near(x, r))
      && (m == RightEdge ==> Near(x, r) && t <= y <= b && !Near(y, t) && !Near(y, b))
      && (m == BottomEdge ==> Near(y, b) && !Near(y, t) && l <= x <= r && !Near(x, l) && !Near(x, r))
      && (m == LeftEdge ==> Near(x, l) && !Near(x, r) && t <= y <= b && !Near(y, t) && !Near(y, b))
  {
  }

  /** Move is chosen exactly for presses strictly inside the rectangle and
      farther than the tolerance from all four edges. */
  lemma MoveIffDeepInterior(sel: Rect, x: int, y: int)
    requires sel.IsValid()
    ensures GetDragMode(sel, x, y) == Move
      <==> sel.Left() < x < sel.Right() && sel.Top() < y < sel.Bottom()
           && !Near(x, sel.Left()) && !Near(x, sel.Right())
           && !Near(y, sel.Top()) && !Near(y, sel.Bottom())
  {
  }

  /** Classification depends only on the edges, so normalising the stored
      corners (as a press does) does not change what a press grabs. */
  lemma DragModeIgnoresCornerOrder(sel: Rect, x: int, y: int)
    ensures GetDragMode(sel.Normalized(), x, y) == GetDragMode(sel, x, y)
  {
  }

  /** The cursor shapes the window shows while hovering. */
  datatype Cursor = Cross | SizeNWSE | SizeNESW | SizeNS | SizeWE | SizeAll

  /** The hover cursor for a drag mode. */
  function CursorFor(m: DragMode): Cursor
  {
    match m
    case TopLeft | BottomRight => SizeNWSE
    case TopRight | BottomLeft => SizeNESW
    case TopEdge | BottomEdge => SizeNS
    case RightEdge | LeftEdge => SizeWE
    case Move => SizeAll
    case New => Cross
  }

  /** The rectangle after one pointer move to (x, y) while dragging in mode
      `m`, where (lastX, lastY) is the previous pointer position. */
  function Dragged(sel: Rect, m: DragMode, x: int, y: int, lastX: int, lastY: int): Rect
  {
    match m
    case New => sel.(x2 := x, y2 := y)
    case TopLeft => sel.(x1 := x, y1 := y)
    case TopRight => sel.(x2 := x, y1 := y)
    case BottomRight => sel.(x2 := x, y2 := y)
    case BottomLeft => sel.(x1 := x, y2 := y)
    case TopEdge => sel.(y1 := y)
    case RightEdge => sel.(x2 := x)
    case BottomEdge => sel.(y2 := y)
    case LeftEdge => sel.(x1 := x)
    case Move => sel.Translated(x - lastX, y - lastY)
  }

  /** The hover cursor announces what a drag in that mode will do: a
      vertical or horizontal resize cursor for a drag that changes only y
      or only x coordinates, a diagonal cursor for a drag that moves one
      stored corner (on the diagonal that cursor shows), the four-way
      cursor for a translation, the cross for a fresh rectangle. */
  lemma CursorMatchesDrag(sel: Rect, m: DragMode, x: int, y: int, lastX: int, lastY: int)
    ensures var d := Dragged(sel, m, x, y, lastX, lastY);
      && (CursorFor(m) == SizeNS <==> m == TopEdge || m == BottomEdge)
      && (CursorFor(m) == SizeNS ==> d.x1 == sel.x1 && d.x2 == sel.x2)
      && (CursorFor(m) == SizeWE <==> m == LeftEdge || m == RightEdge)
      && (CursorFor(m) == SizeWE ==> d.y1 == sel.y1 && d.y2 == sel.y2)
      && (CursorFor(m) == SizeNWSE ==> d == sel.(x1 := x, y1 := y) || d == sel.(x2 := x, y2 := y))
      && (CursorFor(m) == SizeNESW ==> d == sel.(x2 := x, y1 := y) || d == sel.(x1 := x, y2 := y))
      && (CursorFor(m) == SizeAll <==> m == Move)
      && (CursorFor(m) == Cross <==> m == New)
  {
  }

  /** Dragging in Move mode translates both corners by the pointer's
      movement and so keeps width, height and validity. */
  lemma MoveDragKeepsSize(sel: Rect, x: int, y: int, lastX: int, lastY: int)
    ensures var d := Dragged(sel, Move, x, y, lastX, lastY);
      && d.x1 == sel.x1 + (x - lastX) && d.x2 == sel.x2 + (x - lastX)
      && d.y1 == sel.y1 + (y - lastY) && d.y2 == sel.y2 + (y - lastY)
      && d.Width() == sel.Width() && d.Height() == sel.Height()
      && d.IsValid() == sel.IsValid()
  {
    TranslatedKeepsSize(sel, x - lastX, y - lastY);
  }

  /** Dragging an edge rewrites exactly one stored coordinate: the top edge
      `y1`, the right edge `x2`, the bottom edge `y2`, the left edge `x1`. */
  lemma EdgeDragChangesOneCoordinate(sel: Rect, m: DragMode, x: int, y: int, lastX: int, lastY: int)
    requires m.IsEdge()
    ensures var d := Dragged(sel, m, x, y, lastX, lastY);
      && (d.x1 != sel.x1 ==> m == LeftEdge) && (d.x2 != sel.x2 ==> m == RightEdge)
      && (d.y1 != sel.y1 ==> m == TopEdge) && (d.y2 != sel.y2 ==> m == BottomEdge)
      && (m == TopEdge ==> d.y1 == y) && (m == RightEdge ==> d.x2 == x)
      && (m == BottomEdge ==> d.y2 == y) && (m == LeftEdge ==> d.x1 == x)
  {
  }

  /** In a normalised rectangle an edge drag moves that edge to the pointer
      and leaves the opposite edge and the perpendicular edges in place, as
      long as the pointer does not cross the opposite edge. */
  lemma EdgeDragMovesThatEdge(sel: Rect, m: DragMode, x: int, y: int, lastX: int, lastY: int)
    requires sel.x1 <= sel.x2 && sel.y1 <= sel.y2
    requires m.IsEdge()
    ensures var d := Dragged(sel, m, x, y, lastX, lastY);
      && (m == RightEdge && x >= sel.Left() ==>
            d.Right() == x && d.Left() == sel.Left() && d.Top() == sel.Top() && d.Bottom() == sel.Bottom())
      && (m == LeftEdge && x <= sel.Right() ==>
            d.Left() == x && d.Right() == sel.Right() && d.Top() == sel.Top() && d.Bottom() == sel.Bottom())
      && (m == BottomEdge && y >= sel.Top() ==>
            d.Bottom() == y && d.Top() == sel.Top() && d.Left() == sel.Left() && d.Right() == sel.Right())
      && (m == TopEdge && y <= sel.Bottom() ==>
            d.Top() == y && d.Bottom() == sel.Bottom() && d.Left() == sel.Left() && d.Right() == sel.Right())
  {
  }

  /** Dragging a corner rewrites exactly that stored corner's two
      coordinates: top-left `x1, y1`, top-right `x2, y1`, bottom-right
      `x2, y2`, bottom-left `x1, y2`. */
  lemma CornerDragChangesOneCorner(sel: Rect, m: DragMode, x: int, y: int, lastX: int, lastY: int)
    requires m.IsCorner()
    ensures var d := Dragged(sel, m, x, y, lastX, lastY);
      && (m == TopLeft ==> d == Rect(x, y, sel.x2, sel.y2))
      && (m == TopRight ==> d == Rect(sel.x1, y, x, sel.y2))
      && (m == BottomRight ==> d == Rect(sel.x1, sel.y1, x, y))
      && (m == BottomLeft ==> d == Rect(x, sel.y1, sel.x2, y))
  {
  }

  /** In a normalised rectangle a corner drag moves that corner to the
      pointer and keeps the two edges through the opposite corner, as long
      as the pointer does not cross them. */
  lemma CornerDragMovesThatCorner(sel: Rect, m: DragMode, x: int, y: int, lastX: int, lastY: int)
    requires sel.x1 <= sel.x2 && sel.y1 <= sel.y2
    requires m.IsCorner()
    ensures var d := Dragged(sel, m, x, y, lastX, lastY);
      && (m == TopLeft && x <= sel.Right() && y <= sel.Bottom() ==>
            d.Left() == x && d.Top() == y && d.Right() == sel.Right() && d.Bottom() == sel.Bottom())
      && (m == TopRight && x >= sel.Left() && y <= sel.Bottom() ==>
            d.Right() == x && d.Top() == y && d.Left() == sel.Left() && d.Bottom() == sel.Bottom())
      && (m == BottomRight && x >= sel.Left() && y >= sel.Top() ==>
            d.Right() == x && d.Bottom() == y && d.Left() == sel.Left() && d.Top() == sel.Top())
      && (m == BottomLeft && x <= sel.Right() && y >= sel.Top() ==>
            d.Left() == x && d.Bottom() == y && d.Right() == sel.Right() && d.Top() == sel.Top())
  {
  }

  /** A fresh rectangle keeps the press point as its anchor corner and puts
      the other corner at the pointer. Started from the one-point rectangle
      a press leaves, it spans the press and the pointer, and it is a valid
      selection exactly when the pointer has left both the press's row and
      its column. */
  lemma NewDragSpansPressAndPointer(sel: Rect, x: int, y: int, lastX: int, lastY: int)
    ensures var d := Dragged(sel, New, x, y, lastX, lastY);
      && d.x1 == sel.x1 && d.y1 == sel.y1 && d.x2 == x && d.y2 == y
      && (sel.x1 == sel.x2 && sel.y1 == sel.y2 ==>
            && d.Left() == (if x < sel.x1 then x else sel.x1)
            && d.Right() == (if x < sel.x1 then sel.x1 else x)
            && d.Top() == (if y < sel.y1 then y else sel.y1)
            && d.Bottom() == (if y < sel.y1 then sel.y1 else y)
            && (d.IsValid() <==> x != sel.x1 && y != sel.y1))
  {
  }

  /** The rectangle after a sequence of pointer moves in one drag, each move
      measured from the previous pointer position. */
  function DragPath(sel: Rect, m: DragMode, path: seq<(int, int)>, lastX: int, lastY: int): Rect
    decreases |path|
  {
    if path == [] then sel
    else DragPath(Dragged(sel, m, path[0].0, path[0].1, lastX, lastY), m, path[1..], path[0].0, path[0].1)
  }

  /** Over a whole Move drag the per-move offsets add up: the rectangle ends
      translated by the distance from the press to the final pointer
      position, whatever route the pointer took. */
  lemma {:induction false} MoveDragTelescopes(sel: Rect, path: seq<(int, int)>, lastX: int, lastY: int)
    requires |path| > 0
    ensures var last := path[|path| - 1];
      DragPath(sel, Move, path, lastX, lastY) == sel.Translated(last.0 - lastX, last.1 - lastY)
    decreases |path|
  {
    var p := path[0];
    var next := sel.Translated(p.0 - lastX, p.1 - lastY);
    if |path| > 1 {
      MoveDragTelescopes(next, path[1..], p.0, p.1);
    }
  }

  /** `VK_ESCAPE` and `VK_RETURN`. */
  const EscapeKey := 0x1B
  const ReturnKey := 0x0D

  /** `LOWORD(lParam)`: the low 16 bits, i.e. the pointer's x coordinate. */
  function LoWord(lParam: int): (w: int)
    ensures 0 <= w < 0x1_0000
  {
    lParam % 0x1_0000
  }

  /** `HIWORD(lParam)`: bits 16..31, i.e. the pointer's y coordinate. */
  function HiWord(lParam: int): (w: int)
    ensures 0 <= w < 0x1_0000
  {
    (lParam / 0x1_0000) % 0x1_0000
  }

  /** A pointer position packed as Win32 packs it into `lParam`. */
  function PackPoint(x: int, y: int): int
  {
    x + y * 0x1_0000
  }

  /** Unpacking recovers every position a 16-bit word can hold. */
  lemma UnpackPackPoint(x: int, y: int)
    requires 0 <= x < 0x1_0000 && 0 <= y < 0x1_0000
    ensures LoWord(PackPoint(x, y)) == x && HiWord(PackPoint(x, y)) == y
  {
  }

  /** The window messages the preview handles; `Quit` is intercepted by
      the message loop and `Other` stands for everything passed to the
      default window procedure. Because the window class asks for
      double-click messages, that includes the `WM_LBUTTONDBLCLK` a quick
      second click produces: it starts no drag. */
  datatype Message =
    | KeyDown(wParam: int)
    | LButtonDown(lParam: int)
    | MouseMove(lParam: int)
    | LButtonUp
    | RButtonUp
    | Destroy
    | Quit
    | Other

  /** The selection session of the fullscreen preview window. */
  class PreviewWindow {
    var running: bool
    var selectionConfirmed: bool
    var selection: Rect
    var isDragging: bool
    var dragMode: DragMode
    var lastMouseX: int
    var lastMouseY: int

    /** The last pointer position was always read from a 16-bit word. */
    ghost predicate Valid()
      reads this
    {
      0 <= lastMouseX < 0x1_0000 && 0 <= lastMouseY < 0x1_0000
    }

    constructor()
      ensures Valid()
      ensures !running && !selectionConfirmed && selection == Empty
      ensures !isDragging && dragMode == New && lastMouseX == 0 && lastMouseY == 0
    {
      running, selectionConfirmed := false, false;
      selection := Empty;
      isDragging, dragMode := false, New;
      lastMouseX, lastMouseY := 0, 0;
    }

    /** The state `Show` sets up before entering its message loop. */
    method Begin()
      modifies this`running, this`selectionConfirmed, this`selection
      ensures running && !selectionConfirmed && selection == Empty
    {
      running := true;
      selectionConfirmed := false;
      selection := Empty;
    }

    /** Escape cancels and Return confirms; both end the session. Any other
        key changes nothing. */
    method OnKeyDown(wParam: int)
      modifies this`running, this`selectionConfirmed
      ensures wParam == EscapeKey ==> !selectionConfirmed && !running
      ensures wParam == ReturnKey ==> selectionConfirmed && !running
      ensures wParam != EscapeKey && wParam != ReturnKey ==>
        running == old(running) && selectionConfirmed == old(selectionConfirmed)
    {
      if wParam == EscapeKey {
        selectionConfirmed := false;
        running := false;
      } else if wParam == ReturnKey {
        selectionConfirmed := true;
        running := false;
      }
    }

    /** A press at (x, y), decoded from `lParam` by the window procedure,
        remembers the pointer, starts dragging and classifies the
        press; "new" restarts the selection as a point at the pointer, any
        other mode first normalises the stored corners. */
    method OnLButtonDown(x: int, y: int)
      requires Valid()
      requires 0 <= x < 0x1_0000 && 0 <= y < 0x1_0000
      modifies this`lastMouseX, this`lastMouseY, this`isDragging, this`dragMode, this`selection
      ensures Valid()
      ensures && lastMouseX == x && lastMouseY == y && isDragging
        && dragMode == GetDragMode(old(selection), x, y)
        && (dragMode == New ==> selection == Rect(x, y, x, y))
        && (dragMode != New ==> selection == old(selection).Normalized())
    {
      lastMouseX := x;
      lastMouseY := y;
      isDragging := true;
      dragMode := GetDragMode(selection, x, y);
      if dragMode == New {
        selection := Rect(x, y, x, y);
      } else {
        selection := selection.Normalized();
      }
    }

    /** While dragging, a move edits the selection for the current mode and
        remembers the pointer; otherwise it only picks the hover cursor,
        leaving the selection and the remembered pointer alone. */
    method OnMouseMove(x: int, y: int) returns (cursor: Option<Cursor>)
      requires Valid()
      requires 0 <= x < 0x1_0000 && 0 <= y < 0x1_0000
      modifies this`selection, this`lastMouseX, this`lastMouseY
      ensures Valid()
      ensures isDragging ==>
          && cursor == None
          && selection == Dragged(old(selection), dragMode, x, y, old(lastMouseX), old(lastMouseY))
          && lastMouseX == x && lastMouseY == y
      ensures !isDragging ==>
          && cursor == Some(CursorFor(GetDragMode(selection, x, y)))
          && selection == old(selection)
          && lastMouseX == old(lastMouseX) && lastMouseY == old(lastMouseY)
    {
      if isDragging {
        selection := Dragged(selection, dragMode, x, y, lastMouseX, lastMouseY);
        lastMouseX := x;
        lastMouseY := y;
        cursor := None;
      } else {
        cursor := Some(CursorFor(GetDragMode(selection, x, y)));
      }
    }

    /** Releasing the left button ends the drag and nothing else. */
    method OnLButtonUp()
      modifies this`isDragging
      ensures !isDragging
    {
      isDragging := false;
    }

    /** Releasing the right button confirms the selection and ends the session. */
    method OnRButtonUp()
      modifies this`running, this`selectionConfirmed
      ensures selectionConfirmed && !running
    {
      selectionConfirmed := true;
      running := false;
    }

    /** Destroying the window ends the session without touching the
        confirmation flag. */
    method OnDestroy()
      modifies this`running
      ensures !running
    {
      running := false;
    }

    /** The window procedure: decodes the pointer position of a mouse
        message with `LoWord`/`HiWord` and routes the message to its
        handler. No handler ever restarts a finished session, and the
        confirmation flag only changes together with the end of the
        session. */
    method Dispatch(msg: Message) returns (cursor: Option<Cursor>)
      requires Valid()
      modifies this
      ensures Valid()
      ensures running ==> old(running)
      ensures selectionConfirmed != old(selectionConfirmed) ==> !running
      ensures cursor.Some? ==> msg.MouseMove?
      // Keys: Escape cancels, Return confirms, any other key changes nothing.
      ensures msg.KeyDown? && msg.wParam == EscapeKey ==> !selectionConfirmed && !running
      ensures msg.KeyDown? && msg.wParam == ReturnKey ==> selectionConfirmed && !running
      ensures msg.KeyDown? && msg.wParam != EscapeKey && msg.wParam != ReturnKey ==> unchanged(this)
      // A press starts a drag at the decoded position.
      ensures msg.LButtonDown? ==>
        var x, y := LoWord(msg.lParam), HiWord(msg.lParam);
        && lastMouseX == x && lastMouseY == y && isDragging
        && dragMode == GetDragMode(old(selection), x, y)
        && (dragMode == New ==> selection == Rect(x, y, x, y))
        && (dragMode != New ==> selection == old(selection).Normalized())
      // A move drags the selection, or else picks the hover cursor.
      ensures msg.MouseMove? && isDragging ==>
        var x, y := LoWord(msg.lParam), HiWord(msg.lParam);
        && cursor == None
        && selection == Dragged(old(selection), dragMode, x, y, old(lastMouseX), old(lastMouseY))
        && lastMouseX == x && lastMouseY == y
      ensures msg.MouseMove? && !isDragging ==>
        && cursor == Some(CursorFor(GetDragMode(selection, LoWord(msg.lParam), HiWord(msg.lParam))))
        && selection == old(selection)
        && lastMouseX == old(lastMouseX) && lastMouseY == old(lastMouseY)
      ensures msg.LButtonUp? ==> !isDragging
      ensures msg.RButtonUp? ==> selectionConfirmed && !running
      ensures msg.Destroy? ==> !running && selectionConfirmed == old(selectionConfirmed)
      ensures msg.Quit? || msg.Other? ==> unchanged(this)
      // What each message leaves alone.
      ensures !(msg.LButtonDown? || msg.LButtonUp?) ==> isDragging == old(isDragging)
      ensures !msg.LButtonDown? ==> dragMode == old(dragMode)
      ensures !(msg.KeyDown? || msg.RButtonUp? || msg.Destroy?) ==>
        running == old(running) && selectionConfirmed == old(selectionConfirmed)
      ensures !(msg.LButtonDown? || msg.MouseMove?) ==>
        selection == old(selection) && lastMouseX == old(lastMouseX) && lastMouseY == old(lastMouseY)
    {
      cursor := None;
      match msg
      case KeyDown(wParam) => OnKeyDown(wParam);
      case LButtonDown(lParam) => OnLButtonDown(LoWord(lParam), HiWord(lParam));
      case MouseMove(lParam) => cursor := OnMouseMove(LoWord(lParam), HiWord(lParam));
      case LButtonUp => OnLButtonUp();
      case RButtonUp => OnRButtonUp();
      case Destroy => OnDestroy();
      case Quit =>
      case Other =>
    }

    /** What `Show` returns once its loop has ended: the selection if it
        was confirmed, the empty rectangle otherwise, so a cancelled
        session never yields a valid selection. */
    function Result(): (r: Rect)
      reads this
      ensures selectionConfirmed ==> r == selection
      ensures !selectionConfirmed ==> r == Empty && !r.IsValid()
    {
      if selectionConfirmed then selection else Empty
    }

    /** The message loop, given the messages that each iteration finds
        pending. A platform set-up failure returns the empty rectangle at
        once. Each iteration handles every pending message (stopping early
        only at `Quit`) and then renders; the loop ends when a handler has
        ended the session. `None` means the session was still open when
        the given messages ran out. */
    method Show(platformReady: bool, batches: seq<seq<Message>>) returns (result: Option<Rect>)
      requires Valid()
      modifies this
      ensures Valid()
      ensures !platformReady ==> result == Some(Empty) && unchanged(this)
      ensures platformReady ==> (result.None? <==> running)
      ensures platformReady && result.Some? ==> result.value == Result()
      ensures result.Some? && result.value.IsValid() ==> selectionConfirmed && result.value == selection
    {
      if !platformReady {
        return Some(Empty);
      }
      Begin();
      var i := 0;
      while running && i < |batches|
        invariant 0 <= i <= |batches|
        invariant Valid()
      {
        var batch := batches[i];
        var j := 0;
        while j < |batch|
          invariant 0 <= j <= |batch|
          invariant Valid()
        {
          if batch[j].Quit? {
            running := false;
            break;
          }
          var _ := Dispatch(batch[j]);
          j := j + 1;
        }
        i := i + 1;
      }
      result := if running then None else Some(Result());
    }
  }
}
