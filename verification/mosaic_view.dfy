/** The widget `MosaicView`: its image, the mosaic made from it, the image
    rectangle of the last layout and the accumulated stroke path. */
module MosaicWidget {
  import opened Graphics
  import opened MosaicGrid
  import opened AspectFit
  import opened StrokePath

  class MosaicView {
    /** `mPadding`: the margin kept free on every side of the content box. */
    const Padding: int := 6 * 3
    /** `mGridWidth`: the side of one mosaic cell. */
    const GridWidth: int := 20 * 3

    var imageWidth: int
    var imageHeight: int
    /** `mImageRect`: where the image is drawn, relative to the view's origin. */
    var imageRect: Rect
    /** `bmSourceLayout`, indexed `[x, y]` as `Bitmap.getPixel(x, y)` is. */
    var source: array2?<Color>
    /** `bmMosaicLayout`. */
    var mosaic: array2?<Color>
    /** `mPath`. */
    var path: seq<PathOp>
    /** Every touch event handled so far, in order. */
    ghost var events: seq<MotionEvent>

    /** The image dimensions are those of the source bitmap; a view built
        without `init` has no bitmap and zero dimensions. */
    ghost predicate ImageValid()
      reads this
    {
      if source == null then imageWidth == 0 && imageHeight == 0
      else source.Length0 == imageWidth && source.Length1 == imageHeight
    }

    /** The object invariant: image, mosaic and path are consistent. */
    ghost predicate Valid()
      reads this, source, mosaic
    {
      ImageValid() && MosaicValid() && PathValid()
    }

    /** The mosaic exists exactly when the image is non-empty, and is then
        the grid mosaic of the source. */
    ghost predicate MosaicValid()
      reads this, source, mosaic
    {
      (mosaic == null <==> imageWidth <= 0 || imageHeight <= 0) &&
      (mosaic != null ==> source != null && IsGridMosaic(mosaic, source, GridWidth))
    }

    /** The path is the one the handled events build. */
    ghost predicate PathValid()
      reads this
    {
      path == PathOf(events)
    }

    /** `MosaicView(Context)` and `MosaicView(Context, AttributeSet, int)`:
        they never call `init`, so there is no image. */
    constructor Blank()
      ensures Valid()
      ensures source == null && mosaic == null && imageWidth == 0 && imageHeight == 0
      ensures imageRect == EmptyRect && path == [] && events == []
    {
      imageWidth, imageHeight := 0, 0;
      imageRect := EmptyRect;
      source, mosaic := null, null;
      path, events := [], [];
    }

    /** `MosaicView(Context, AttributeSet)` with `init`: the decoded bitmap
        `source` is given; its size becomes the image size and the mosaic is
        built from it. */
    constructor (source: array2<Color>)
      ensures Valid()
      ensures this.source == source && imageWidth == source.Length0 && imageHeight == source.Length1
      ensures mosaic != null ==> fresh(mosaic)
      ensures imageRect == EmptyRect && path == [] && events == []
    {
      this.source := source;
      imageWidth, imageHeight := source.Length0, source.Length1;
      imageRect := EmptyRect;
      mosaic := null;
      path, events := [], [];
      new;
      mosaic := GetGridMosaic();
    }

    /** `getGridMosaic`: no bitmap for an empty image; otherwise a new bitmap
        of the image's size in which every `GridWidth`-sided cell is filled
        with the source pixel at its top-left corner. The source is only read. */
    method GetGridMosaic() returns (bitmap: array2?<Color>)
      requires ImageValid()
      ensures bitmap == null <==> imageWidth <= 0 || imageHeight <= 0
      ensures bitmap != null ==> source != null && fresh(bitmap) && IsGridMosaic(bitmap, source, GridWidth)
    {
      if imageWidth <= 0 || imageHeight <= 0 {
        return null;
      }
      var src: array2<Color> := source;
      var width, height, g := imageWidth, imageHeight, GridWidth;
      bitmap := new Color[width, height]((x, y) => Transparent);
      var horCount := CellCount(width, g);
      var verCount := CellCount(height, g);
      var horIndex := 0;
      while horIndex < horCount
        invariant 0 <= horIndex <= horCount
        invariant FilledBefore(bitmap, src, g, horIndex, 0)
      {
        var verIndex := 0;
        while verIndex < verCount
          invariant 0 <= verIndex <= verCount
          invariant FilledBefore(bitmap, src, g, horIndex, verIndex)
        {
          var cell := Cell(horIndex, verIndex, width, height, g);
          CellInImage(horIndex, verIndex, width, height, g);
          var color := src[cell.left, cell.top];
          label BeforeFill:
          DrawRect(bitmap, cell, color);
          forall x, y | 0 <= x < width && 0 <= y < height
            ensures bitmap[x, y] == FilledPixel(src, g, x, y, horIndex, verIndex + 1)
          {
            CellOfPixel(x, y, horIndex, verIndex, width, height, g);
            assert bitmap[x, y] == if cell.Contains(x, y) then color else old@BeforeFill(bitmap[x, y]);
          }
          verIndex := verIndex + 1;
        }
        NextColumn(bitmap, src, g, horIndex);
        horIndex := horIndex + 1;
      }
      AllCellsFilled(bitmap, src, g);
    }

    /** `onLayout`: with an image, the rectangle fitted to the content box
        `right - left` by `bottom - top`, placed relative to the view's own
        origin; without one, the rectangle is left as it was. */
    method OnLayout(changed: bool, left: int, top: int, right: int, bottom: int)
      requires Valid()
      modifies this`imageRect
      ensures Valid()
      ensures if imageWidth <= 0 || imageHeight <= 0 then imageRect == old(imageRect)
              else imageRect == FitRect(right - left, bottom - top, imageWidth, imageHeight, Padding)
    {
      if imageWidth <= 0 || imageHeight <= 0 {
        return;
      }
      imageRect := FitRect(right - left, bottom - top, imageWidth, imageHeight, Padding);
    }

    /** `onTouchEvent`: pointer-down appends a move-to, pointer-move a
        line-to, anything else leaves the path alone; the event is always
        consumed. */
    method OnTouchEvent(event: MotionEvent) returns (handled: bool)
      requires Valid()
      modifies this`path, this`events
      ensures Valid() && handled
      ensures events == old(events) + [event]
      ensures path == old(path) + Recorded(event)
    {
      if event.action == ActionDown {
        path := path + [MoveTo(event.x, event.y)];
      } else if event.action == ActionMove {
        path := path + [LineTo(event.x, event.y)];
      }
      PathOfSnoc(events, event);
      events := events + [event];
      handled := true;
    }
  }

  /** The colour pixel `(x, y)` has in `getGridMosaic`'s bitmap once every
      cell before `(horIndex, verIndex)` in its column-by-column order has
      been filled: its cell's sample if that cell is done, else transparent. */
  ghost function FilledPixel(source: array2<Color>, g: nat, x: nat, y: nat, horIndex: nat, verIndex: nat): Color
    requires g > 0 && x < source.Length0 && y < source.Length1
    reads source
  {
    if x / g < horIndex || (x / g == horIndex && y / g < verIndex)
    then source[CellStart(x, g), CellStart(y, g)]
    else Transparent
  }

  /** The loop invariant of `getGridMosaic`: every pixel is as `FilledPixel` says. */
  ghost predicate FilledBefore(bitmap: array2<Color>, source: array2<Color>, g: nat, horIndex: nat, verIndex: nat)
    requires g > 0
    reads bitmap, source
  {
    bitmap.Length0 == source.Length0 && bitmap.Length1 == source.Length1 &&
    forall x, y :: 0 <= x < bitmap.Length0 && 0 <= y < bitmap.Length1 ==>
      bitmap[x, y] == FilledPixel(source, g, x, y, horIndex, verIndex)
  }

  /** Finishing every row of column `horIndex` is starting column `horIndex + 1`. */
  lemma NextColumn(bitmap: array2<Color>, source: array2<Color>, g: nat, horIndex: nat)
    requires g > 0 && FilledBefore(bitmap, source, g, horIndex, CellCount(source.Length1, g))
    ensures FilledBefore(bitmap, source, g, horIndex + 1, 0)
  {
    forall x, y | 0 <= x < bitmap.Length0 && 0 <= y < bitmap.Length1
      ensures bitmap[x, y] == FilledPixel(source, g, x, y, horIndex + 1, 0)
    {
      CellOfPixel(x, y, 0, 0, source.Length0, source.Length1, g);
    }
  }

  /** Once every column is done the bitmap is the grid mosaic. */
  lemma AllCellsFilled(bitmap: array2<Color>, source: array2<Color>, g: nat)
    requires g > 0 && FilledBefore(bitmap, source, g, CellCount(source.Length0, g), 0)
    ensures IsGridMosaic(bitmap, source, g)
  {
    forall x, y | 0 <= x < bitmap.Length0 && 0 <= y < bitmap.Length1
      ensures bitmap[x, y] == source[CellStart(x, g), CellStart(y, g)]
    {
      CellOfPixel(x, y, 0, 0, source.Length0, source.Length1, g);
    }
  }
}
