/** The selection rectangle of the preview window: two corner points in
    window pixels that are stored as the user dragged them, so `x1` may lie
    to the right of `x2` and `y1` below `y2`. Every accessor derives the
    normalised edges from the raw corners. */
module Selection {

  /** |n|, the reference the accessors are checked against. */
  function Abs(n: int): (r: nat)
    ensures r == n || r == -n
  {
    if n < 0 then -n else n
  }

  datatype Rect = Rect(x1: int, y1: int, x2: int, y2: int) {

    /** The smaller of the two x coordinates. */
    function Left(): (l: int)
      ensures l <= x1 && l <= x2
    {
      if x1 < x2 then x1 else x2
    }

    /** The smaller of the two y coordinates. */
    function Top(): (t: int)
      ensures t <= y1 && t <= y2
    {
      if y1 < y2 then y1 else y2
    }

    /** The larger of the two x coordinates. */
    function Right(): (r: int)
      ensures r >= x1 && r >= x2
    {
      if x1 < x2 then x2 else x1
    }

    /** The larger of the two y coordinates. */
    function Bottom(): (b: int)
      ensures b >= y1 && b >= y2
    {
      if y1 < y2 then y2 else y1
    }

    /** Horizontal extent: never negative, the distance between the x coordinates. */
    function Width(): (w: int)
      ensures w >= 0
    {
      Right() - Left()
    }

    /** Vertical extent: never negative, the distance between the y coordinates. */
    function Height(): (h: int)
      ensures h >= 0
    {
      Bottom() - Top()
    }

    /** A rectangle with a positive area; anything else means "no selection". */
    predicate IsValid()
    {
      Width() > 0 && Height() > 0
    }

    /** The rectangle with the same edges and corners stored top-left first,
        as the left-button handler rewrites it before an edit. */
    function Normalized(): (n: Rect)
      ensures n.x1 <= n.x2 && n.y1 <= n.y2
      ensures n.Left() == Left() && n.Top() == Top()
      ensures n.Right() == Right() && n.Bottom() == Bottom()
    {
      Rect(Left(), Top(), Right(), Bottom())
    }

    /** Both corners moved by the same offset. */
    function Translated(dx: int, dy: int): Rect
    {
      Rect(x1 + dx, y1 + dy, x2 + dx, y2 + dy)
    }
  }

  /** `SelectionRect{0, 0, 0, 0}`: the initial selection and the cancelled result. */
  const Empty := Rect(0, 0, 0, 0)

  /** Each edge is one of the stored coordinates: the left edge is one of
      the x coordinates and the right edge the other, likewise top and
      bottom; width and height are the distances between them. */
  lemma EdgesAreStoredCoordinates(r: Rect)
    ensures (r.Left() == r.x1 && r.Right() == r.x2) || (r.Left() == r.x2 && r.Right() == r.x1)
    ensures (r.Top() == r.y1 && r.Bottom() == r.y2) || (r.Top() == r.y2 && r.Bottom() == r.y1)
    ensures r.Width() == Abs(r.x1 - r.x2) && r.Height() == Abs(r.y1 - r.y2)
  {
  }

  /** Validity holds exactly when neither pair of coordinates coincides. */
  lemma ValidIffDistinctCorners(r: Rect)
    ensures r.IsValid() <==> r.x1 != r.x2 && r.y1 != r.y2
  {
  }

  /** A single point, and so the empty rectangle, is never a selection. */
  lemma PointIsInvalid(x: int, y: int)
    ensures !Rect(x, y, x, y).IsValid()
    ensures !Empty.IsValid()
  {
  }

  /** Which of the two x (or y) coordinates is stored first does not matter
      to any accessor. */
  lemma SwapInvariant(r: Rect)
    ensures var s := r.(x1 := r.x2, x2 := r.x1);
      s.Left() == r.Left() && s.Right() == r.Right() && s.Width() == r.Width()
      && s.Top() == r.Top() && s.Bottom() == r.Bottom() && s.Height() == r.Height()
      && s.IsValid() == r.IsValid()
    ensures var s := r.(y1 := r.y2, y2 := r.y1);
      s.Left() == r.Left() && s.Right() == r.Right() && s.Width() == r.Width()
      && s.Top() == r.Top() && s.Bottom() == r.Bottom() && s.Height() == r.Height()
      && s.IsValid() == r.IsValid()
  {
  }

  /** Normalising twice is the same as normalising once. */
  lemma NormalizedIdempotent(r: Rect)
    ensures r.Normalized().Normalized() == r.Normalized()
  {
  }

  /** Translation moves every edge by the offset and keeps the size. */
  lemma TranslatedKeepsSize(r: Rect, dx: int, dy: int)
    ensures var t := r.Translated(dx, dy);
      t.Left() == r.Left() + dx && t.Right() == r.Right() + dx
      && t.Top() == r.Top() + dy && t.Bottom() == r.Bottom() + dy
      && t.Width() == r.Width() && t.Height() == r.Height()
      && t.IsValid() == r.IsValid()
  {
  }
}
