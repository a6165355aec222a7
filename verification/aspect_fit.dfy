/** The aspect-fit layout of `MosaicView.onLayout`: from the content box the
    host hands over and the fixed padding, the largest rectangle with the
    image's aspect ratio that fits, centred in the box.

    The source computes the two scale ratios in `float`; here they are exact
    reals, so the only rounding left is the truncating `(int)` cast. */
module AspectFit {
  import opened JavaArith
  import opened Graphics

  /** Width and height of the scaled image. */
  datatype Size = Size(width: int, height: int)

  /** The scale-to-fit ratio: the smaller of the two per-axis ratios
      (on a tie the height ratio is taken, as the strict `<` does). */
  function FitRatio(viewWidth: int, viewHeight: int, imageWidth: int, imageHeight: int): (ratio: real)
    requires imageWidth > 0 && imageHeight > 0
    ensures ratio <= viewWidth as real / imageWidth as real
    ensures ratio <= viewHeight as real / imageHeight as real
    ensures ratio == viewWidth as real / imageWidth as real || ratio == viewHeight as real / imageHeight as real
  {
    var widthRatio := viewWidth as real / imageWidth as real;
    var heightRatio := viewHeight as real / imageHeight as real;
    if widthRatio < heightRatio then widthRatio else heightRatio
  }

  /** Each image dimension times `ratio`, truncated by the `(int)` cast: both
      axes are scaled by the same ratio, and a non-negative product is rounded
      down to a whole pixel, by less than one. */
  function Scale(imageWidth: int, imageHeight: int, ratio: real): (size: Size)
    ensures imageWidth as real * ratio >= 0.0 ==>
      0 <= size.width && size.width as real <= imageWidth as real * ratio < size.width as real + 1.0
    ensures imageHeight as real * ratio >= 0.0 ==>
      0 <= size.height && size.height as real <= imageHeight as real * ratio < size.height as real + 1.0
  {
    Size(FloatToInt(imageWidth as real * ratio), FloatToInt(imageHeight as real * ratio))
  }

  /** The scaled image size, `realWidth` and `realHeight`: never negative
      for a view that is not. */
  function FitSize(viewWidth: int, viewHeight: int, imageWidth: int, imageHeight: int): (size: Size)
    requires imageWidth > 0 && imageHeight > 0
    ensures viewWidth >= 0 && viewHeight >= 0 ==> size.width >= 0 && size.height >= 0
  {
    var ratio := FitRatio(viewWidth, viewHeight, imageWidth, imageHeight);
    assert viewWidth >= 0 && viewHeight >= 0 ==>
      imageWidth as real * ratio >= 0.0 && imageHeight as real * ratio >= 0.0;
    Scale(imageWidth, imageHeight, ratio)
  }

  /** The rectangle `onLayout` stores for a content box of `contentWidth` by
      `contentHeight`: the fitted size inside the box less `padding` on every
      side, centred with Java's truncating `/ 2`. For a non-negative padding
      it lies inside that padded box, and the margin on the right (bottom)
      equals the margin on the left (top) or exceeds it by the one pixel the
      truncation drops. */
  function FitRect(contentWidth: int, contentHeight: int, imageWidth: int, imageHeight: int, padding: int): (r: Rect)
    requires imageWidth > 0 && imageHeight > 0
    ensures padding >= 0 ==>
      padding <= r.left && r.right <= contentWidth - padding &&
      padding <= r.top && r.bottom <= contentHeight - padding &&
      0 <= (contentWidth - r.right) - r.left <= 1 &&
      0 <= (contentHeight - r.bottom) - r.top <= 1
  {
    var viewWidth := contentWidth - padding * 2;
    var viewHeight := contentHeight - padding * 2;
    FitSizeWithinView(viewWidth, viewHeight, imageWidth, imageHeight);
    var size := FitSize(viewWidth, viewHeight, imageWidth, imageHeight);
    var imageLeft := Quot(contentWidth - size.width, 2);
    var imageTop := Quot(contentHeight - size.height, 2);
    Rect(imageLeft, imageTop, imageLeft + size.width, imageTop + size.height)
  }

  /** The same size by integer arithmetic only: the width ratio wins exactly
      when `viewWidth * imageHeight < viewHeight * imageWidth`; the winning
      dimension is filled exactly and the other is a truncated quotient. */
  lemma FitSizeByCrossMultiplication(viewWidth: int, viewHeight: int, imageWidth: int, imageHeight: int)
    requires imageWidth > 0 && imageHeight > 0
    ensures FitSize(viewWidth, viewHeight, imageWidth, imageHeight) ==
      if viewWidth * imageHeight < viewHeight * imageWidth
      then Size(viewWidth, Quot(imageHeight * viewWidth, imageWidth))
      else Size(Quot(imageWidth * viewHeight, imageHeight), viewHeight)
  {
    CompareRatios(viewWidth, viewHeight, imageWidth, imageHeight);
    var ratio := FitRatio(viewWidth, viewHeight, imageWidth, imageHeight);
    if viewWidth * imageHeight < viewHeight * imageWidth {
      ScaleBy(viewWidth, imageWidth, imageHeight, imageWidth, ratio);
      QuotOfMultiple(viewWidth, imageWidth);
    } else {
      ScaleBy(viewHeight, imageWidth, imageHeight, imageHeight, ratio);
      QuotOfMultiple(viewHeight, imageHeight);
    }
  }

  /** Scaling by the ratio `v / d` gives truncated quotients over `d`. */
  lemma ScaleBy(v: int, imageWidth: int, imageHeight: int, d: int, ratio: real)
    requires d > 0 && ratio == v as real / d as real
    ensures Scale(imageWidth, imageHeight, ratio) == Size(Quot(imageWidth * v, d), Quot(imageHeight * v, d))
  {
    var w := ScaledQuotient(imageWidth, v, d, ratio);
    var h := ScaledQuotient(imageHeight, v, d, ratio);
  }

  /** Scaling `n` by the ratio `r == v / d` and truncating is `Quot(n * v, d)`. */
  lemma ScaledQuotient(n: int, v: int, d: int, r: real) returns (q: int)
    requires d > 0 && r == v as real / d as real
    ensures q == FloatToInt(n as real * r) == Quot(n * v, d)
  {
    assert n as real * r == (n * v) as real / d as real;
    FloatToIntOfQuotient(n * v, d);
    q := FloatToInt(n as real * r);
  }

  /** Comparing the two ratios is comparing the cross products. */
  lemma CompareRatios(viewWidth: int, viewHeight: int, imageWidth: int, imageHeight: int)
    requires imageWidth > 0 && imageHeight > 0
    ensures (viewWidth as real / imageWidth as real < viewHeight as real / imageHeight as real)
        <==> viewWidth * imageHeight < viewHeight * imageWidth
  {
    var iw, ih := imageWidth as real, imageHeight as real;
    var w, h := viewWidth as real / iw, viewHeight as real / ih;
    assert w * iw == viewWidth as real && h * ih == viewHeight as real;
    assert (viewWidth * imageHeight) as real == w * (iw * ih);
    assert (viewHeight * imageWidth) as real == h * (iw * ih);
    assert iw * ih > 0.0;
  }

  /** The fitted size never exceeds the padded view, and the limiting
      dimension fills it exactly. This holds for every view size, including
      one the padding has made negative. */
  lemma FitSizeWithinView(viewWidth: int, viewHeight: int, imageWidth: int, imageHeight: int)
    requires imageWidth > 0 && imageHeight > 0
    ensures var size := FitSize(viewWidth, viewHeight, imageWidth, imageHeight);
      size.width <= viewWidth && size.height <= viewHeight &&
      (size.width == viewWidth || size.height == viewHeight)
  {
    FitSizeByCrossMultiplication(viewWidth, viewHeight, imageWidth, imageHeight);
    if viewWidth * imageHeight < viewHeight * imageWidth {
      assert imageHeight * viewWidth <= viewHeight * imageWidth;
      QuotAtMost(imageHeight * viewWidth, imageWidth, viewHeight);
    } else {
      assert imageWidth * viewHeight <= viewWidth * imageHeight;
      QuotAtMost(imageWidth * viewHeight, imageHeight, viewWidth);
    }
  }

  /** `a <= v * d` bounds Java's `a / d` by `v`. */
  lemma QuotAtMost(a: int, d: int, v: int)
    requires d > 0 && a <= v * d
    ensures Quot(a, d) <= v
  {
    var q := Quot(a, d);
    if a >= 0 {
      MulCancel(q, v, d);
    } else {
      assert (q - 1) * d < v * d;
      MulCancel(q - 1, v, d);
    }
  }

  /** For a non-negative view the fitted size is non-negative and keeps the
      image's aspect ratio to within one pixel:
      `width / height` differs from `imageWidth / imageHeight` only by the
      truncation of the non-limiting dimension. */
  lemma FitSizeKeepsAspect(viewWidth: int, viewHeight: int, imageWidth: int, imageHeight: int)
    requires imageWidth > 0 && imageHeight > 0 && viewWidth >= 0 && viewHeight >= 0
    ensures var size := FitSize(viewWidth, viewHeight, imageWidth, imageHeight);
      size.width >= 0 && size.height >= 0 &&
      -imageHeight < size.width * imageHeight - size.height * imageWidth < imageWidth
  {
    FitSizeByCrossMultiplication(viewWidth, viewHeight, imageWidth, imageHeight);
    if viewWidth * imageHeight < viewHeight * imageWidth {
      var h := Quot(imageHeight * viewWidth, imageWidth);
      assert h * imageWidth <= imageHeight * viewWidth < h * imageWidth + imageWidth;
    } else {
      var w := Quot(imageWidth * viewHeight, imageHeight);
      assert w * imageHeight <= imageWidth * viewHeight < w * imageHeight + imageHeight;
    }
  }

  /** `a * b < c * b` and `a * b <= c * b` cancel a positive `b`. */
  lemma MulCancel(a: int, c: int, b: int)
    requires b > 0
    ensures a * b < c * b ==> a < c
    ensures a * b <= c * b ==> a <= c
  {
    if a > c {
      assert a * b - c * b == (a - c) * b;
    }
    if a >= c {
      assert a * b - c * b == (a - c) * b;
    }
  }

  /** The stored rectangle fits the padded view, fills it exactly along the
      limiting dimension, and for a non-negative view keeps the image's
      aspect ratio up to the one pixel the `(int)` cast truncates. */
  lemma FitRectFillsView(contentWidth: int, contentHeight: int, imageWidth: int, imageHeight: int, padding: int)
    requires imageWidth > 0 && imageHeight > 0
    ensures var viewWidth, viewHeight := contentWidth - padding * 2, contentHeight - padding * 2;
      var r := FitRect(contentWidth, contentHeight, imageWidth, imageHeight, padding);
      r.Width() <= viewWidth && r.Height() <= viewHeight &&
      (r.Width() == viewWidth || r.Height() == viewHeight) &&
      (viewWidth >= 0 && viewHeight >= 0 ==>
        -imageHeight < r.Width() * imageHeight - r.Height() * imageWidth < imageWidth)
  {
    var viewWidth, viewHeight := contentWidth - padding * 2, contentHeight - padding * 2;
    FitSizeWithinView(viewWidth, viewHeight, imageWidth, imageHeight);
    if viewWidth >= 0 && viewHeight >= 0 {
      FitSizeKeepsAspect(viewWidth, viewHeight, imageWidth, imageHeight);
    }
  }

  /** The stored rectangle has exactly the fitted size, and its left (top)
      edge is Java's `(contentWidth - width) / 2` (`(contentHeight - height) / 2`). */
  lemma FitRectOfSize(contentWidth: int, contentHeight: int, imageWidth: int, imageHeight: int, padding: int,
                      width: int, height: int)
    requires imageWidth > 0 && imageHeight > 0
    requires FitSize(contentWidth - padding * 2, contentHeight - padding * 2, imageWidth, imageHeight) == Size(width, height)
    ensures var left, top := Quot(contentWidth - width, 2), Quot(contentHeight - height, 2);
      FitRect(contentWidth, contentHeight, imageWidth, imageHeight, padding) == Rect(left, top, left + width, top + height)
  {
  }

  /** A wide image in a box of its own aspect ratio fills the box. */
  lemma FitExactBox()
    ensures FitRect(100, 50, 200, 100, 0) == Rect(0, 0, 100, 50)
  {
    assert FitSize(100, 50, 200, 100) == Size(100, 50) by {
      FitSizeByCrossMultiplication(100, 50, 200, 100);
    }
    assert FitRect(100, 50, 200, 100, 0) == Rect(Quot(0, 2), Quot(0, 2), Quot(0, 2) + 100, Quot(0, 2) + 50) by {
      FitRectOfSize(100, 50, 200, 100, 0, 100, 50);
    }
    assert Quot(0, 2) == 0;
  }

  /** A wide image in a square box fills the width and is centred vertically. */
  lemma FitSquareBox()
    ensures FitRect(100, 100, 200, 100, 0) == Rect(0, 25, 100, 75)
  {
    assert FitSize(100, 100, 200, 100) == Size(100, 50) by {
      FitSizeByCrossMultiplication(100, 100, 200, 100);
    }
    assert FitRect(100, 100, 200, 100, 0) == Rect(Quot(0, 2), Quot(50, 2), Quot(0, 2) + 100, Quot(50, 2) + 50) by {
      FitRectOfSize(100, 100, 200, 100, 0, 100, 50);
    }
    assert Quot(0, 2) == 0 && Quot(50, 2) == 25;
  }

  /** The same square box with a padding of 18 on every side. */
  lemma FitSquareBoxPadded()
    ensures FitRect(100, 100, 200, 100, 18) == Rect(18, 34, 82, 66)
  {
    assert FitSize(64, 64, 200, 100) == Size(64, 32) by {
      FitSizeByCrossMultiplication(64, 64, 200, 100);
    }
    assert FitRect(100, 100, 200, 100, 18) == Rect(Quot(36, 2), Quot(68, 2), Quot(36, 2) + 64, Quot(68, 2) + 32) by {
      FitRectOfSize(100, 100, 200, 100, 18, 64, 32);
    }
    assert Quot(36, 2) == 18 && Quot(68, 2) == 34;
  }
}
