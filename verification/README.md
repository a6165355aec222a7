# Mosaic: a verified model of `MosaicView`

`MosaicView` is an Android view that shows a picture together with a
pixelated ("mosaic") copy of it. The user drags a finger across the view,
and the drag trail switches the picture between its two forms. This project
models the three parts of the view that hold real logic, and proves what
they promise:

- **Grid mosaic (`getGridMosaic`).** A `W×H` source bitmap is cut into
  `ceil(W/G) × ceil(H/G)` square cells of side `G = mGridWidth = 60`. The
  cells in the last column and row are clipped to the image. Each cell is
  flat-filled with the source pixel at its top-left corner, in a fresh
  bitmap of the same size. For an empty image there is no bitmap (`null`).
- **Aspect-fit layout (`onLayout`).** From the content box and the padding
  `mPadding = 18`, the view computes the largest rectangle with the image's
  aspect ratio that fits. It centres that rectangle with Java's truncating
  `/ 2` and stores it in `mImageRect`. Without an image it does nothing.
- **Stroke path (`onTouchEvent`).** Pointer-down appends a `moveTo` to the
  persistent path, pointer-move appends a `lineTo`, and other actions change
  nothing. The event is always consumed.

Bitmaps are `array2<Color>` indexed `[x, y]`, the way `Bitmap.getPixel(x, y)`
indexes them; a colour is the packed ARGB `int`. The class
`MosaicWidget.MosaicView` holds the view's state. Its `Valid()` invariant
says three things: the image size is the source bitmap's size; the mosaic
is the grid mosaic of the source; the path is the one the handled touch
events build. The float arithmetic of `onLayout` is modelled with exact
reals. The lemma `FitSizeByCrossMultiplication` shows that this equals a
purely integer computation.

How the frame is drawn: `onDraw` draws the mosaic first. It then draws the
original picture on a separate layer and clears that layer along the path.
So the original shows where no stroke has passed, and the mosaic shows
wherever a stroke has passed. This is the reverse of "dragging reveals the
original", which is how the widget is sometimes described. The model
follows the code (`Reveal.FramePixel`).

Files: `graphics.dfy` (`Rect`, colours, `drawRect`), `java_arith.dfy`
(Java's truncating `/` and `(int)` cast), `mosaic_grid.dfy` (cell
geometry), `aspect_fit.dfy` (layout), `stroke_path.dfy` (path), `reveal.dfy`
(the abstract compositor), `mosaic_view.dfy` (the class).

## Model

| member | source | states |
|---|---|---|
| `MosaicWidget.MosaicView.GetGridMosaic` | app/src/main/java/com/example/tyaathome/mosaic/view/MosaicView.java:90-125 | returns null exactly when a dimension is <= 0; otherwise a fresh bitmap of the source's size in which every pixel equals the source pixel at the top-left corner of its cell; the source is only read |
| `MosaicWidget.MosaicView.OnLayout` | app/src/main/java/com/example/tyaathome/mosaic/view/MosaicView.java:127-148 | leaves `imageRect` unchanged when a dimension is <= 0; otherwise stores the fitted rectangle, which depends on `left`/`top` only through `right - left` and `bottom - top` |
| `MosaicWidget.MosaicView.OnTouchEvent` | app/src/main/java/com/example/tyaathome/mosaic/view/MosaicView.java:150-162 | always returns true; the new path is the old path plus what the event records (never cleared); the path invariant is kept |
| `MosaicWidget.MosaicView.constructor` | app/src/main/java/com/example/tyaathome/mosaic/view/MosaicView.java:61-68 | `init`, which the two-argument constructor (lines 52-55) runs: with a decoded source, the image size is the bitmap's size, the mosaic is built from it, the rectangle is empty and the path is empty |
| `MosaicWidget.MosaicView.Blank` | app/src/main/java/com/example/tyaathome/mosaic/view/MosaicView.java:48-50 | a view built without `init` (this constructor and the three-argument one at lines 57-59) has no bitmaps and zero dimensions, yet satisfies the invariant |
| `Graphics.DrawRect` | app/src/main/java/com/example/tyaathome/mosaic/view/MosaicView.java:118-120 | a flat fill sets every pixel inside the half-open rectangle to the colour and changes no other pixel |
| `MosaicGrid.CellCount` | app/src/main/java/com/example/tyaathome/mosaic/view/MosaicView.java:99-100 | the cell count covers all `n` pixels and no cell is spare (`(count-1)*g < n`) |
| `MosaicGrid.Cell` | app/src/main/java/com/example/tyaathome/mosaic/view/MosaicView.java:107-116 | cell `(h, v)` starts at `(g*h, g*v)`, is at most `g` wide and high, and is shorter only where it is cut at the image's right or bottom edge; a cell that starts inside the image is non-empty and ends inside it |
| `MosaicGrid.CellStart` | app/src/main/java/com/example/tyaathome/mosaic/view/MosaicView.java:107-108 | the first column of a pixel's cell is at most the pixel's column and less than `g` before it |
| `MosaicGrid.CellInImage` | app/src/main/java/com/example/tyaathome/mosaic/view/MosaicView.java:105-117 | every cell of the grid satisfies `0 <= l < r <= W` and `0 <= t < b <= H`, so the sampled pixel `(l, t)` exists |
| `MosaicGrid.CellOfPixel` | app/src/main/java/com/example/tyaathome/mosaic/view/MosaicView.java:105-116 | every image pixel lies in a cell of the grid, and in cell `(h, v)` if and only if `h == x / g` and `v == y / g`: the cells cover the image and are disjoint |
| `MosaicGrid.CellIsFlat` | app/src/main/java/com/example/tyaathome/mosaic/view/MosaicView.java:117-120 | in a grid mosaic, every pixel of a cell has the colour of the source pixel at the cell's top-left corner (a point sample) |
| `MosaicGrid.FourQuadrants` | app/src/main/java/com/example/tyaathome/mosaic/view/MosaicView.java:105-120 | an 8×8 source with cells of side 4 gives four flat quadrants sampled at (0,0), (4,0), (0,4), (4,4) |
| `JavaArith.Quot` | app/src/main/java/com/example/tyaathome/mosaic/view/MosaicView.java:143-144 | Java's int `/` by a positive divisor truncates toward zero; both sign cases are characterised |
| `JavaArith.FloatToInt` | app/src/main/java/com/example/tyaathome/mosaic/view/MosaicView.java:140-141 | the `(int)` cast truncates toward zero: within one of the value, on the side of zero |
| `JavaArith.FloatToIntOfQuotient` | app/src/main/java/com/example/tyaathome/mosaic/view/MosaicView.java:137-141 | truncating the exact quotient of two ints is Java's integer division |
| `AspectFit.FitRatio` | app/src/main/java/com/example/tyaathome/mosaic/view/MosaicView.java:137-139 | the chosen ratio is one of the two per-axis ratios and is at most both of them (their minimum) |
| `AspectFit.Scale` | app/src/main/java/com/example/tyaathome/mosaic/view/MosaicView.java:140-141 | both dimensions are scaled by the same ratio; a non-negative product is truncated to a whole pixel at most one below it, never negative |
| `AspectFit.FitSize` | app/src/main/java/com/example/tyaathome/mosaic/view/MosaicView.java:135-141 | the fitted size is never negative when the padded view is not |
| `AspectFit.CompareRatios` | app/src/main/java/com/example/tyaathome/mosaic/view/MosaicView.java:137-139 | the width ratio is the smaller exactly when `viewWidth*imageHeight < viewHeight*imageWidth` |
| `AspectFit.FitSizeByCrossMultiplication` | app/src/main/java/com/example/tyaathome/mosaic/view/MosaicView.java:137-141 | the real-valued ratio computation equals an integer one: the winning dimension is the view's, the other a truncated quotient |
| `AspectFit.FitSizeWithinView` | app/src/main/java/com/example/tyaathome/mosaic/view/MosaicView.java:135-141 | `realWidth <= viewWidth`, `realHeight <= viewHeight`, and one of the two is filled exactly, for every view size |
| `AspectFit.FitSizeKeepsAspect` | app/src/main/java/com/example/tyaathome/mosaic/view/MosaicView.java:137-141 | for a non-negative view the size is non-negative and keeps the image's aspect ratio up to one truncated pixel |
| `AspectFit.FitRect` | app/src/main/java/com/example/tyaathome/mosaic/view/MosaicView.java:133-147 | for a non-negative padding the rectangle lies within the content box less the padding on every side, and is centred up to the one pixel the truncating `/ 2` drops |
| `AspectFit.FitRectFillsView` | app/src/main/java/com/example/tyaathome/mosaic/view/MosaicView.java:133-147 | the stored rectangle is no larger than the padded view, fills it exactly along the limiting dimension, and for a non-negative view keeps the image's aspect ratio up to one truncated pixel |
| `AspectFit.FitExactBox` | app/src/main/java/com/example/tyaathome/mosaic/view/MosaicView.java:133-147 | box 100×50, image 200×100, no padding: rectangle (0,0,100,50) |
| `AspectFit.FitSquareBox` | app/src/main/java/com/example/tyaathome/mosaic/view/MosaicView.java:133-147 | box 100×100, image 200×100, no padding: rectangle (0,25,100,75) |
| `AspectFit.FitSquareBoxPadded` | app/src/main/java/com/example/tyaathome/mosaic/view/MosaicView.java:133-147 | the same box with the view's padding of 18: rectangle (18,34,82,66) |
| `StrokePath.Recorded` | app/src/main/java/com/example/tyaathome/mosaic/view/MosaicView.java:152-159 | pointer-down records exactly `moveTo(x, y)`, pointer-move exactly `lineTo(x, y)`, any other action nothing |
| `StrokePath.PathOf` | app/src/main/java/com/example/tyaathome/mosaic/view/MosaicView.java:151-161 | the path built by a run of events is never longer than the run: each event adds at most one command |
| `StrokePath.PathOfSnoc` | app/src/main/java/com/example/tyaathome/mosaic/view/MosaicView.java:151-161 | one more event appends exactly what it records to the path |
| `StrokePath.PathOfConcat` | app/src/main/java/com/example/tyaathome/mosaic/view/MosaicView.java:151-161 | handling two runs of events in turn concatenates their paths (order is kept) |
| `StrokePath.PathOnlyGrows` | app/src/main/java/com/example/tyaathome/mosaic/view/MosaicView.java:151-161 | the path before later events is a prefix of the path after them: it is never cleared or rewritten |
| `StrokePath.PathLength` | app/src/main/java/com/example/tyaathome/mosaic/view/MosaicView.java:151-161 | the path is never longer than the event history, and exactly as long when every event is a pointer-down or pointer-move |
| `StrokePath.TwoStrokes` | app/src/main/java/com/example/tyaathome/mosaic/view/MosaicView.java:151-161 | down(1,1), move(2,2), up, down(5,5), move(6,6) give two sub-paths in drawing order |
| `Reveal.BasePixel` | app/src/main/java/com/example/tyaathome/mosaic/view/MosaicView.java:168 | the mosaic drawn into the image rectangle covers exactly that rectangle, in the mosaic's colour |
| `Reveal.LayerPixel` | app/src/main/java/com/example/tyaathome/mosaic/view/MosaicView.java:170-172 | on the layer, the source survives exactly inside both the image rectangle and the layer bounds where no stroke passed; the `CLEAR` stroke leaves nothing |
| `Reveal.Over` | app/src/main/java/com/example/tyaathome/mosaic/view/MosaicView.java:173 | merging the layer back (source-over, opaque colours): a drawn layer pixel hides the canvas, a clear one shows it, and the result is clear only where both are |
| `Reveal.FramePixel` | app/src/main/java/com/example/tyaathome/mosaic/view/MosaicView.java:165-175 | abstract frame pixel: nothing outside the image rectangle; inside it, the original where unstroked and inside the layer bounds, the mosaic where stroked or outside `(0,0,W,H)` |

## Left out

- Resource decoding (`BitmapFactory.decodeResource`), `requestLayout` and
  `invalidate` are host calls. The constructor takes the decoded bitmap as
  a parameter instead.
- `initPaint` only configures `Paint` objects: stroke width 60, round
  joins and caps, a `CornerPathEffect` of 10, and the `CLEAR` and `DST_IN`
  transfer modes. It has no logic to verify.
- `Reveal.FramePixel`: `onDraw` is modelled only as a per-pixel selector.
  Scaling the bitmaps into the rectangle and rasterising the stroke are
  library work, so their results are parameters: each bitmap's colour at
  the pixel, and whether the stroke covers it. Both bitmaps are taken to be
  fully opaque, and anti-aliased stroke edges are not modelled. Both
  bitmaps are also taken to exist. A view built by a constructor that skips
  `init` (lines 48-50 and 57-59) keeps a `null` mosaic, and `onDraw` passes
  it to `canvas.drawBitmap` at line 168. The framework fails on that null
  argument rather than drawing nothing; the model does not cover this frame.
- `MosaicGrid.CellCount`: `Math.ceil` over `float` is modelled as an exact
  ceiling. A float quotient that rounds across an integer is not modelled.
- `AspectFit.FitSize`: the two ratios and the products are exact reals, not
  `float`s, so the one-pixel differences float rounding can cause are not
  modelled.
- The anti-alias flag and `canvas.save()` in `getGridMosaic` have no effect
  on flat fills of integer rectangles. `DrawRect` is an exact fill.
- Pixel colours are plain ints; the ARGB_8888 packing is not modelled. A new
  bitmap starts with every pixel `Color.TRANSPARENT` (0).
- Touch coordinates (`float`) are exact reals. Only `getAction()`, `getX()`
  and `getY()` of a `MotionEvent` are modelled. Other action codes,
  including pointer events with index bits, fall through unchanged, as in
  the `switch`.
- `onLayout`'s `changed` argument is unused by the source and by the model.
- The fields `mX`, `mY`, `mBitmap`, `mCanvas`, `mPaint` and `mPaintDSTIN`
  are never used in the active code and are not modelled.
- Dimensions come from a bitmap, so they are never negative. The source's
  `<= 0` tests are kept as written; only `== 0` can occur.
- Java's 32-bit `int` is Dafny's unbounded `int`, so the model has no
  wrap-around in `right - left` and `bottom - top`, in `l + mGridWidth` and
  `t + mGridWidth`, or in `imageLeft + realWidth` and `imageTop +
  realHeight`. `JavaArith.FloatToInt` and `JavaArith.Quot` have no bound
  either: the `(int)` cast's saturation at `Integer.MIN_VALUE` and
  `Integer.MAX_VALUE` is not modelled. None of this is reachable for real
  inputs. Every operand is a view coordinate or a bitmap dimension, and
  these are far below 2^31: a bitmap of 2^31 pixels on a side would not fit
  in memory. So every sum stays in range, and the scaled size never exceeds
  the view (`AspectFit.FitSizeWithinView`).
