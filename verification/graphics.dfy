/** The value types of `android.graphics` that the widget's logic uses. */
module Graphics {

  /** `android.graphics.Rect`: edges in pixels, left and top inclusive, right and bottom exclusive. */
  datatype Rect = Rect(left: int, top: int, right: int, bottom: int)
  {
    function Width(): int { right - left }
    function Height(): int { bottom - top }

    /** `Rect.contains(x, y)`: the pixel lies in the half-open box. */
    predicate Contains(x: int, y: int) { left <= x < right && top <= y < bottom }
  }

  /** The rectangle `new Rect()` starts as. */
  const EmptyRect := Rect(0, 0, 0, 0)

  /** An ARGB colour packed into an int, as `Bitmap.getPixel` returns it. */
  type Color = int

  /** `Color.TRANSPARENT`: the colour every pixel of a new ARGB_8888 bitmap starts with. */
  const Transparent: Color := 0

  /** `Canvas.drawRect(rect, paint)` on a bitmap indexed `[x, y]`, as an
      overwrite: every pixel of `rect` takes `color`, no other changes. In
      `getGridMosaic` each pixel is drawn exactly once, over `Transparent`, and
      source-over onto a transparent pixel leaves the drawn colour as it is. */
  method DrawRect(bitmap: array2<Color>, rect: Rect, color: Color)
    requires 0 <= rect.left && rect.right <= bitmap.Length0
    requires 0 <= rect.top && rect.bottom <= bitmap.Length1
    modifies bitmap
    ensures forall x, y :: 0 <= x < bitmap.Length0 && 0 <= y < bitmap.Length1 ==>
      bitmap[x, y] == if rect.Contains(x, y) then color else old(bitmap[x, y])
  {
    forall x, y | rect.left <= x < rect.right && rect.top <= y < rect.bottom {
      bitmap[x, y] := color;
    }
  }
}
