/** An ABSTRACTION of `MosaicView.onDraw` at one view pixel. Scaling the
    bitmaps into the image rectangle and rasterising the stroke are left to
    the graphics library; here their results arrive as parameters: the colour
    each scaled bitmap contributes at the pixel and whether the stroke covers
    it. Both bitmaps are taken to be fully opaque. */
module Reveal {
  import opened Graphics

  /** A pixel of a drawing layer: nothing drawn (or cleared), or an opaque colour. */
  datatype Pixel = Clear | Opaque(color: Color)

  /** Step one: the mosaic bitmap drawn into the image rectangle on the canvas.
      The canvas is covered exactly on the rectangle, in the mosaic's colour. */
  function BasePixel(inImageRect: bool, mosaicColor: Color): (p: Pixel)
    ensures p != Clear <==> inImageRect
    ensures p != Clear ==> p.color == mosaicColor
  {
    if inImageRect then Opaque(mosaicColor) else Clear
  }

  /** Steps two to four: a layer bounded by `(0, 0, imageWidth, imageHeight)`
      in view coordinates, the source bitmap drawn into the image rectangle
      on it, then the stroke drawn with `PorterDuff.Mode.CLEAR`, which
      empties every pixel it covers. No source colour survives where the
      stroke has passed; elsewhere the layer holds the source exactly where
      the rectangle and the layer's bounds overlap. */
  function LayerPixel(inImageRect: bool, inLayerBounds: bool, stroked: bool, sourceColor: Color): (p: Pixel)
    ensures stroked ==> p == Clear
    ensures p != Clear <==> inImageRect && inLayerBounds && !stroked
    ensures p != Clear ==> p.color == sourceColor
  {
    if inImageRect && inLayerBounds && !stroked then Opaque(sourceColor) else Clear
  }

  /** Step five: the layer merged back over the canvas (source-over). With
      opaque colours, a drawn top pixel hides the bottom one, a clear one lets
      it through, and the result is clear only where both are. */
  function Over(top: Pixel, bottom: Pixel): (p: Pixel)
    ensures top.Opaque? ==> p == top
    ensures top == Clear ==> p == bottom
    ensures p == Clear <==> top == Clear && bottom == Clear
  {
    if top.Opaque? then top else bottom
  }

  /** The frame at view pixel `(px, py)`. It shows nothing outside the image
      rectangle; inside it, the detailed source where no stroke has passed and
      the layer reaches, and the mosaic wherever a stroke has passed or the
      layer's bounds, which ignore the rectangle's offset and scale, cut the
      source off. */
  function FramePixel(px: int, py: int, imageRect: Rect, imageWidth: int, imageHeight: int,
                      stroked: bool, mosaicColor: Color, sourceColor: Color): (frame: Pixel)
    ensures !imageRect.Contains(px, py) ==> frame == Clear
    ensures imageRect.Contains(px, py) && 0 <= px < imageWidth && 0 <= py < imageHeight && !stroked
        ==> frame == Opaque(sourceColor)
    ensures imageRect.Contains(px, py) && (stroked || !(0 <= px < imageWidth && 0 <= py < imageHeight))
        ==> frame == Opaque(mosaicColor)
  {
    var inImageRect := imageRect.Contains(px, py);
    var inLayerBounds := 0 <= px < imageWidth && 0 <= py < imageHeight;
    Over(LayerPixel(inImageRect, inLayerBounds, stroked, sourceColor), BasePixel(inImageRect, mosaicColor))
  }
}
