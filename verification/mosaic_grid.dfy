/** The grid geometry of `MosaicView.getGridMosaic`: the image is cut into
    square cells of side `g` (the last column and row clipped to the image),
    and every pixel of the mosaic takes the colour of the source pixel at the
    top-left corner of its cell. */
module MosaicGrid {
  import opened Graphics

  /** `(int) Math.ceil(n / (float) g)` taken exactly: the number of `g`-wide
      cells that cover `n` pixels, with no cell to spare. */
  function CellCount(n: nat, g: nat): (count: nat)
    requires g > 0
    ensures count * g >= n
    ensures count > 0 ==> (count - 1) * g < n
  {
    (n + g - 1) / g
  }

  /** The cell at column `horIndex` and row `verIndex` of the grid over a
      `width` by `height` image, clipped at the right and bottom edges: it
      starts at `(g * horIndex, g * verIndex)`, is at most `g` wide and high,
      and is cut short only where it meets the image's edge. */
  function Cell(horIndex: nat, verIndex: nat, width: nat, height: nat, g: nat): (cell: Rect)
    requires g > 0
    ensures cell.left == g * horIndex && cell.top == g * verIndex
    ensures cell.right <= cell.left + g && cell.bottom <= cell.top + g
    ensures cell.right == cell.left + g || cell.right == width
    ensures cell.bottom == cell.top + g || cell.bottom == height
    ensures cell.left < width ==> cell.left < cell.right <= width
    ensures cell.top < height ==> cell.top < cell.bottom <= height
  {
    var l := g * horIndex;
    var t := g * verIndex;
    var r := if l + g > width then width else l + g;
    var b := if t + g > height then height else t + g;
    Rect(l, t, r, b)
  }

  /** The first column (row) of the cell that holds column (row) `x`: the
      largest multiple of `g` that is not above `x`. */
  function CellStart(x: nat, g: nat): (start: nat)
    requires g > 0
    ensures start <= x < start + g
  {
    g * (x / g)
  }

  /** `mosaic` is the grid mosaic of `source` for cell side `g`: the same size,
      and every pixel is the source pixel at the top-left corner of its cell. */
  ghost predicate IsGridMosaic(mosaic: array2<Color>, source: array2<Color>, g: nat)
    requires g > 0
    reads mosaic, source
  {
    mosaic.Length0 == source.Length0 && mosaic.Length1 == source.Length1 &&
    forall x, y :: 0 <= x < mosaic.Length0 && 0 <= y < mosaic.Length1 ==>
      mosaic[x, y] == source[CellStart(x, g), CellStart(y, g)]
  }

  /** Every cell of the grid is non-empty and lies inside the image; in
      particular the pixel it samples, its top-left corner, exists. */
  lemma CellInImage(horIndex: nat, verIndex: nat, width: nat, height: nat, g: nat)
    requires g > 0 && horIndex < CellCount(width, g) && verIndex < CellCount(height, g)
    ensures var cell := Cell(horIndex, verIndex, width, height, g);
      0 <= cell.left < cell.right <= width && 0 <= cell.top < cell.bottom <= height
  {
    LastCellStartsInside(horIndex, width, g);
    LastCellStartsInside(verIndex, height, g);
  }

  /** Every cell index below the count starts inside the image. */
  lemma LastCellStartsInside(index: nat, n: nat, g: nat)
    requires g > 0 && index < CellCount(n, g)
    ensures g * index < n
  {
    var count := CellCount(n, g);
    assert index <= count - 1;
    assert g * index <= g * (count - 1) by {
      MulMonotone(index, count - 1, g);
    }
  }

  /** Every pixel of the image lies in exactly one cell of the grid: the cell
      `(x / g, y / g)`, which is within the grid's count of columns and rows. */
  lemma CellOfPixel(x: nat, y: nat, horIndex: nat, verIndex: nat, width: nat, height: nat, g: nat)
    requires g > 0 && x < width && y < height
    ensures x / g < CellCount(width, g) && y / g < CellCount(height, g)
    ensures Cell(horIndex, verIndex, width, height, g).Contains(x, y)
        <==> horIndex == x / g && verIndex == y / g
  {
    IndexOfColumn(x, horIndex, g);
    IndexOfColumn(y, verIndex, g);
    CountCoversIndex(x, width, g);
    CountCoversIndex(y, height, g);
  }

  /** Column `x` lies in the `g`-wide band `index` exactly when `x / g == index`. */
  lemma IndexOfColumn(x: nat, index: nat, g: nat)
    requires g > 0
    ensures g * index <= x < g * index + g <==> x / g == index
  {
    var q := x / g;
    assert g * q <= x < g * q + g;
    if g * index <= x < g * index + g {
      if q < index {
        MulMonotone(q + 1, index, g);
      } else if q > index {
        MulMonotone(index + 1, q, g);
      }
    }
  }

  /** A pixel inside the image has a band index below the cell count. */
  lemma CountCoversIndex(x: nat, n: nat, g: nat)
    requires g > 0 && x < n
    ensures x / g < CellCount(n, g)
  {
    var q, count := x / g, CellCount(n, g);
    if q >= count {
      MulMonotone(count, q, g);
    }
  }

  lemma MulMonotone(a: int, b: int, g: nat)
    requires a <= b
    ensures g * a <= g * b
  {
  }

  /** Each cell of a grid mosaic is flat: all of its pixels have the colour of
      the source pixel at its top-left corner (a point sample, not an average). */
  lemma CellIsFlat(mosaic: array2<Color>, source: array2<Color>, g: nat, horIndex: nat, verIndex: nat)
    requires g > 0 && IsGridMosaic(mosaic, source, g)
    ensures var cell := Cell(horIndex, verIndex, source.Length0, source.Length1, g);
      forall x, y :: 0 <= x < source.Length0 && 0 <= y < source.Length1 && cell.Contains(x, y) ==>
        0 <= cell.left < source.Length0 && 0 <= cell.top < source.Length1 &&
        mosaic[x, y] == source[cell.left, cell.top]
  {
    var cell := Cell(horIndex, verIndex, source.Length0, source.Length1, g);
    forall x, y | 0 <= x < source.Length0 && 0 <= y < source.Length1 && cell.Contains(x, y)
      ensures cell.left == CellStart(x, g) && cell.top == CellStart(y, g)
    {
      CellOfPixel(x, y, horIndex, verIndex, source.Length0, source.Length1, g);
    }
  }

  /** An 8 by 8 source with cells of side 4 gives four flat quadrants sampled
      at (0,0), (4,0), (0,4) and (4,4). */
  lemma FourQuadrants(mosaic: array2<Color>, source: array2<Color>)
    requires source.Length0 == 8 && source.Length1 == 8 && IsGridMosaic(mosaic, source, 4)
    ensures forall x, y :: 0 <= x < 8 && 0 <= y < 8 ==>
      mosaic[x, y] == source[if x < 4 then 0 else 4, if y < 4 then 0 else 4]
  {
    forall x: nat, y: nat | x < 8 && y < 8
      ensures CellStart(x, 4) == (if x < 4 then 0 else 4) && CellStart(y, 4) == (if y < 4 then 0 else 4)
    {
      IndexOfColumn(x, if x < 4 then 0 else 1, 4);
      IndexOfColumn(y, if y < 4 then 0 else 1, 4);
    }
  }
}
