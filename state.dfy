/**
 * The viewport state of the client: where the board's top-left corner is, and how far the
 * current drag has moved it. Positions are whole numbers here; the client's are pixel
 * coordinates.
 */
module State {
  import opened Wrappers

  datatype Point = Point(x: int, y: int)

  /** A rectangle with the `left`, `right`, `top` and `bottom` edges of a pixi Rectangle. */
  datatype Rectangle = Rectangle(x: int, y: int, width: int, height: int) {
    function Left(): int { x }
    function Right(): int { x + width }
    function Top(): int { y }
    function Bottom(): int { y + height }
  }

  /** The error `expect` throws on a null value. */
  datatype Error = ExpectedNonNull

  datatype Result<T> = Ok(value: T) | Err(error: Error)

  /** `expect`: a null value throws; any other value is handed back unchanged. */
  function ExpectNonNull<T>(value: Option<T>): (r: Result<T>)
    ensures r.Err? <==> value.None?
    ensures value.Some? ==> r == Ok(value.value)
  {
    match value
    case None => Err(ExpectedNonNull)
    case Some(v) => Ok(v)
  }

  function Max0(v: int): (r: int)
    ensures r >= 0 && r >= v
    ensures r == v || r == 0
  {
    if v < 0 then 0 else v
  }

  class Global {
    var topLeftPosition: Point
    var dragStartPosition: Point
    var stageDragPosition: Point

    constructor ()
      ensures topLeftPosition == Point(0, 0)
      ensures dragStartPosition == Point(0, 0)
      ensures stageDragPosition == Point(0, 0)
    {
      topLeftPosition := Point(0, 0);
      dragStartPosition := Point(0, 0);
      stageDragPosition := Point(0, 0);
    }

    /** The board position shown: top-left plus drag, clamped below at zero. */
    function GamePosition(): (p: Point)
      reads this
      ensures p.x >= 0 && p.y >= 0
      ensures topLeftPosition.x + stageDragPosition.x >= 0 ==> p.x == topLeftPosition.x + stageDragPosition.x
      ensures topLeftPosition.y + stageDragPosition.y >= 0 ==> p.y == topLeftPosition.y + stageDragPosition.y
      ensures topLeftPosition.x + stageDragPosition.x < 0 ==> p.x == 0
      ensures topLeftPosition.y + stageDragPosition.y < 0 ==> p.y == 0
    {
      Point(Max0(topLeftPosition.x + stageDragPosition.x), Max0(topLeftPosition.y + stageDragPosition.y))
    }

    method SetGamePosition(x: int, y: int)
      modifies this
      ensures topLeftPosition == Point(Max0(x), Max0(y))
      ensures topLeftPosition.x >= 0 && topLeftPosition.y >= 0
      ensures dragStartPosition == old(dragStartPosition)
      ensures stageDragPosition == old(stageDragPosition)
    {
      topLeftPosition := Point(Max0(x), Max0(y));
    }

    /**
     * The view rectangle: unclamped origin (negative while dragging past the edge) and the
     * container's size, which is passed in.
     */
    function GetViewRect(containerWidth: int, containerHeight: int): (r: Rectangle)
      reads this
      ensures r.width == containerWidth && r.height == containerHeight
      ensures r.x == topLeftPosition.x + stageDragPosition.x
      ensures r.y == topLeftPosition.y + stageDragPosition.y
    {
      Rectangle(topLeftPosition.x + stageDragPosition.x, topLeftPosition.y + stageDragPosition.y,
                containerWidth, containerHeight)
    }

    /** The shown position is the view rectangle's origin, clamped. */
    lemma GamePositionClampsViewRect(w: int, h: int)
      ensures GamePosition() == Point(Max0(GetViewRect(w, h).x), Max0(GetViewRect(w, h).y))
    {
    }
  }
}
