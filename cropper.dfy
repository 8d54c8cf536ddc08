/** The background test and the bounding-box crop of CardRecognizer.java (isCard and
    cropImage). A pixel is "card" when its colour is one of the two paper colours; the crop
    keeps the smallest box around the other pixels, with the source's handling of the
    bottom edge. */
module Cropper {
  import opened Wrappers
  import opened Raster

  /** java.awt.Color as its equals() compares it: the red, green and blue components. */
  datatype Color = Color(red: int, green: int, blue: int)

  /** new Color(rgb): the components of a packed pixel. They are bytes that recompose its
      low 24 bits; the alpha byte is ignored. */
  function ColorOf(rgb: int): (c: Color)
    ensures 0 <= c.red < 0x100 && 0 <= c.green < 0x100 && 0 <= c.blue < 0x100
    ensures c.red * 0x1_0000 + c.green * 0x100 + c.blue == rgb % 0x100_0000
  {
    var q := rgb % 0x100_0000;
    var k := rgb / 0x100_0000;
    assert rgb == k * 0x100_0000 + q;
    assert rgb / 0x1_0000 == k * 0x100 + q / 0x1_0000;
    assert rgb / 0x100 == k * 0x1_0000 + q / 0x100;
    assert q == (q / 0x1_0000) * 0x1_0000 + ((q / 0x100) % 0x100) * 0x100 + q % 0x100;
    Color((rgb / 0x1_0000) % 0x100, (rgb / 0x100) % 0x100, rgb % 0x100)
  }

  /** backgroundColors: the card's white and grey paper. */
  const BackgroundColors: seq<Color> := [Color(255, 255, 255), Color(120, 120, 120)]

  /** isCard: backgroundColors.contains(new Color(rgb)). A pixel is card-coloured iff its
      low 24 bits are 0xFFFFFF or 0x787878, whatever its alpha byte. */
  predicate IsCard(rgb: int)
    ensures IsCard(rgb) <==> rgb % 0x100_0000 == 0xFF_FFFF || rgb % 0x100_0000 == 0x78_7878
  {
    ColorOf(rgb) in BackgroundColors
  }

  // ---------------------------------------------------------------- the crop, specified

  /** Pixel (x, y) is not card-coloured: it is part of the glyph. */
  predicate IsContent(g: Grid, x: int, y: int)
    requires 0 <= x < |g| && 0 <= y < |g[x]|
  {
    !IsCard(g[x][y])
  }

  predicate RowBlank(g: Grid, height: nat, y: int)
    requires IsGrid(g, height) && 0 <= y < height
  {
    forall x :: 0 <= x < |g| ==> !IsContent(g, x, y)
  }

  predicate ColumnBlank(g: Grid, height: nat, x: int)
    requires IsGrid(g, height) && 0 <= x < |g|
  {
    forall y :: 0 <= y < height ==> !IsContent(g, x, y)
  }

  /** The first row at or after y holding content, or height if there is none. */
  function FirstContentRow(g: Grid, height: nat, y: nat): (r: nat)
    requires IsGrid(g, height) && y <= height
    ensures y <= r <= height && (r < height ==> !RowBlank(g, height, r))
    ensures forall y' :: y <= y' < r ==> RowBlank(g, height, y')
    decreases height - y
  {
    if y == height then height
    else if !RowBlank(g, height, y) then y
    else FirstContentRow(g, height, y + 1)
  }

  /** The last row before y holding content, or -1 if there is none. */
  function LastContentRow(g: Grid, height: nat, y: nat): (r: int)
    requires IsGrid(g, height) && y <= height
    ensures -1 <= r < y && (0 <= r ==> !RowBlank(g, height, r))
    ensures forall y' :: r < y' < y ==> RowBlank(g, height, y')
  {
    if y == 0 then -1
    else if !RowBlank(g, height, y - 1) then y - 1
    else LastContentRow(g, height, y - 1)
  }

  /** The first column at or after x holding content, or |g| if there is none. */
  function FirstContentColumn(g: Grid, height: nat, x: nat): (r: nat)
    requires IsGrid(g, height) && x <= |g|
    ensures x <= r <= |g| && (r < |g| ==> !ColumnBlank(g, height, r))
    ensures forall x' :: x <= x' < r ==> ColumnBlank(g, height, x')
    decreases |g| - x
  {
    if x == |g| then |g|
    else if !ColumnBlank(g, height, x) then x
    else FirstContentColumn(g, height, x + 1)
  }

  /** The last column before x holding content, or -1 if there is none. */
  function LastContentColumn(g: Grid, height: nat, x: nat): (r: int)
    requires IsGrid(g, height) && x <= |g|
    ensures -1 <= r < x && (0 <= r ==> !ColumnBlank(g, height, r))
    ensures forall x' :: r < x' < x ==> ColumnBlank(g, height, x')
  {
    if x == 0 then -1
    else if !ColumnBlank(g, height, x - 1) then x - 1
    else LastContentColumn(g, height, x - 1)
  }

  /** Why getSubimage rejects the box cropImage computes (RasterFormatException): the region
      has no content, so minX and minY keep the Integer.MAX_VALUE sentinel; or the box has a
      height of zero or less. */
  datatype CropError = EmptyContent | NonPositiveHeight(height: int)

  /** What cropImage computes for the pixels g of a region of the given height, as a box
      relative to the region. Columns span the leftmost to the rightmost content column.
      The top is the first content row. The bottom is the last content row only when it lies
      below the first: the source raises maxY only for content rows after the first, so with
      a single content row the bottom stays at row 0. */
  function Crop(g: Grid, height: nat): Result<Rect, CropError>
    requires IsGrid(g, height)
  {
    var top := FirstContentRow(g, height, 0);
    if top == height then Failure(EmptyContent)
    else
      var last := LastContentRow(g, height, height);
      var bottom := if last > top then last else 0;
      var left := FirstContentColumn(g, height, 0);
      var right := LastContentColumn(g, height, |g|);
      if bottom - top + 1 <= 0 then Failure(NonPositiveHeight(bottom - top + 1))
      else Success(Rect(left, top, right - left + 1, bottom - top + 1))
  }

  // ---------------------------------------------------------------- properties of the crop

  /** Content at (x, y) puts column x between the first and last content columns. */
  lemma ContentColumnBetween(g: Grid, height: nat, x: int, y: int)
    requires IsGrid(g, height) && 0 <= x < |g| && 0 <= y < height && IsContent(g, x, y)
    ensures FirstContentColumn(g, height, 0) <= x <= LastContentColumn(g, height, |g|)
  {
    assert !ColumnBlank(g, height, x);
  }

  /** Content at (x, y) puts row y between the first and last content rows. */
  lemma ContentRowBetween(g: Grid, height: nat, x: int, y: int)
    requires IsGrid(g, height) && 0 <= x < |g| && 0 <= y < height && IsContent(g, x, y)
    ensures FirstContentRow(g, height, 0) <= y <= LastContentRow(g, height, height)
  {
    assert !RowBlank(g, height, y);
  }

  /** The crop reports EmptyContent exactly when every pixel is card-coloured. */
  lemma CropEmptyIff(g: Grid, height: nat)
    requires IsGrid(g, height)
    ensures Crop(g, height) == Failure(EmptyContent) <==>
      forall x, y :: 0 <= x < |g| && 0 <= y < height ==> !IsContent(g, x, y)
  {
    var top := FirstContentRow(g, height, 0);
    if top < height {
      assert !RowBlank(g, height, top);
    } else {
      forall x, y | 0 <= x < |g| && 0 <= y < height ensures !IsContent(g, x, y) {
        assert RowBlank(g, height, y);
      }
    }
  }

  /** A successful crop is the smallest box holding all content: it lies in the region, every
      content pixel is inside it, and each of its four edges holds content. */
  lemma CropIsTight(g: Grid, height: nat, b: Rect)
    requires IsGrid(g, height) && Crop(g, height) == Success(b)
    ensures InImage(b, |g|, height) && 0 < b.width && 0 < b.height
    ensures forall x, y :: 0 <= x < |g| && 0 <= y < height && IsContent(g, x, y) ==>
      b.x <= x < b.x + b.width && b.y <= y < b.y + b.height
    ensures !ColumnBlank(g, height, b.x) && !ColumnBlank(g, height, b.x + b.width - 1)
    ensures !RowBlank(g, height, b.y) && !RowBlank(g, height, b.y + b.height - 1)
  {
    var top := FirstContentRow(g, height, 0);
    var last := LastContentRow(g, height, height);
    assert !RowBlank(g, height, top);
    var x0 :| 0 <= x0 < |g| && IsContent(g, x0, top);
    ContentColumnBetween(g, height, x0, top);
    ContentRowBetween(g, height, x0, top);
    forall x, y | 0 <= x < |g| && 0 <= y < height && IsContent(g, x, y)
      ensures b.x <= x < b.x + b.width && b.y <= y < b.y + b.height
    {
      ContentColumnBetween(g, height, x, y);
      ContentRowBetween(g, height, x, y);
    }
  }

  /** With content in two different rows the crop succeeds, spanning from the first to the
      last content row. */
  lemma CropTwoRows(g: Grid, height: nat, y1: int, y2: int)
    requires IsGrid(g, height) && 0 <= y1 < y2 < height
    requires !RowBlank(g, height, y1) && !RowBlank(g, height, y2)
    ensures Crop(g, height).Success?
    ensures Crop(g, height).value.y == FirstContentRow(g, height, 0)
    ensures Crop(g, height).value.y + Crop(g, height).value.height - 1 == LastContentRow(g, height, height)
  {
    var top := FirstContentRow(g, height, 0);
    var last := LastContentRow(g, height, height);
    assert top <= y1 && y2 <= last;
    var x0 :| 0 <= x0 < |g| && IsContent(g, x0, y1);
    ContentColumnBetween(g, height, x0, y1);
  }

  /** The source's bottom-edge quirk: with content in row y0 only, the crop is one row high
      when y0 is the top row, and is rejected with height 1 - y0 otherwise. */
  lemma CropSingleRow(g: Grid, height: nat, y0: int)
    requires IsGrid(g, height) && 0 <= y0 < height && !RowBlank(g, height, y0)
    requires forall y :: 0 <= y < height && y != y0 ==> RowBlank(g, height, y)
    ensures y0 == 0 ==>
      Crop(g, height).Success? && Crop(g, height).value.y == 0 && Crop(g, height).value.height == 1
    ensures y0 > 0 ==> Crop(g, height) == Failure(NonPositiveHeight(1 - y0))
  {
    var top := FirstContentRow(g, height, 0);
    var last := LastContentRow(g, height, height);
    assert top == y0 && last == y0;
    var x0 :| 0 <= x0 < |g| && IsContent(g, x0, y0);
    ContentColumnBetween(g, height, x0, y0);
  }

  /** A grid whose four edges all hold content crops to the whole grid. */
  lemma CropOfFramedGrid(s: Grid, height: nat)
    requires IsGrid(s, height) && 0 < |s| && 0 < height
    requires !RowBlank(s, height, 0) && !RowBlank(s, height, height - 1)
    requires !ColumnBlank(s, height, 0) && !ColumnBlank(s, height, |s| - 1)
    ensures Crop(s, height) == Success(Rect(0, 0, |s|, height))
  {
    assert FirstContentRow(s, height, 0) == 0;
    assert LastContentRow(s, height, height) == height - 1;
    assert FirstContentColumn(s, height, 0) == 0;
    assert LastContentColumn(s, height, |s|) == |s| - 1;
  }

  /** A row of g that holds content only inside the columns of b stays non-blank in the grid
      cut out by b. */
  lemma SubGridRowFramed(g: Grid, height: nat, b: Rect, row: int)
    requires IsGrid(g, height) && InImage(b, |g|, height) && b.y <= row < b.y + b.height
    requires !RowBlank(g, height, row)
    requires forall x :: 0 <= x < |g| && IsContent(g, x, row) ==> b.x <= x < b.x + b.width
    ensures !RowBlank(SubGrid(g, height, b), b.height, row - b.y)
  {
    var x :| 0 <= x < |g| && IsContent(g, x, row);
    SubGridContent(g, height, b, x - b.x, row - b.y);
  }

  /** A column of g that holds content only inside the rows of b stays non-blank in the grid
      cut out by b. */
  lemma SubGridColumnFramed(g: Grid, height: nat, b: Rect, column: int)
    requires IsGrid(g, height) && InImage(b, |g|, height) && b.x <= column < b.x + b.width
    requires !ColumnBlank(g, height, column)
    requires forall y :: 0 <= y < height && IsContent(g, column, y) ==> b.y <= y < b.y + b.height
    ensures !ColumnBlank(SubGrid(g, height, b), b.height, column - b.x)
  {
    var y :| 0 <= y < height && IsContent(g, column, y);
    SubGridContent(g, height, b, column - b.x, y - b.y);
  }

  /** A pixel of the grid cut out by b is content iff the pixel of g it came from is. */
  lemma SubGridContent(g: Grid, height: nat, b: Rect, x: int, y: int)
    requires IsGrid(g, height) && InImage(b, |g|, height) && 0 <= x < b.width && 0 <= y < b.height
    ensures IsContent(SubGrid(g, height, b), x, y) == IsContent(g, b.x + x, b.y + y)
  {
  }

  /** Cropping a crop gives all of it back: the crop is idempotent. */
  lemma CropIdempotent(g: Grid, height: nat, b: Rect)
    requires IsGrid(g, height) && Crop(g, height) == Success(b)
    ensures InImage(b, |g|, height)
    ensures Crop(SubGrid(g, height, b), b.height) == Success(Rect(0, 0, b.width, b.height))
  {
    CropIsTight(g, height, b);
    SubGridRowFramed(g, height, b, b.y);
    SubGridRowFramed(g, height, b, b.y + b.height - 1);
    SubGridColumnFramed(g, height, b, b.x);
    SubGridColumnFramed(g, height, b, b.x + b.width - 1);
    CropOfFramedGrid(SubGrid(g, height, b), b.height);
  }

  // ---------------------------------------------------------------- the crop, as the source runs it

  /** (x, y) has been visited once the scan reaches column col of row row. */
  predicate Scanned(x: int, y: int, row: int, col: int) {
    y < row || (y == row && x < col)
  }

  /** minX and maxX are the least and greatest column of the content visited so far, or keep
      their initial values MAX_VALUE and 0 while there is none. */
  ghost predicate ColumnBoundsSoFar(g: Grid, height: nat, row: int, col: int, minX: int, maxX: int)
    requires IsGrid(g, height)
  {
    (forall x, y :: 0 <= x < |g| && 0 <= y < height && Scanned(x, y, row, col) && IsContent(g, x, y) ==>
      minX <= x <= maxX) &&
    (minX == IntMax ==> maxX == 0) &&
    (minX != IntMax ==>
      0 <= minX <= maxX < |g| &&
      (exists y :: 0 <= y < height && Scanned(minX, y, row, col) && IsContent(g, minX, y)) &&
      (exists y :: 0 <= y < height && Scanned(maxX, y, row, col) && IsContent(g, maxX, y)))
  }

  /** minY is the first content row of the rows before `row` (MAX_VALUE while there is none);
      maxY is the last of them if it lies below minY, and 0 otherwise. */
  ghost predicate RowBoundsSoFar(g: Grid, height: nat, row: int, minY: int, maxY: int)
    requires IsGrid(g, height) && 0 <= row <= height
  {
    (minY == IntMax ==> maxY == 0 && forall y :: 0 <= y < row ==> RowBlank(g, height, y)) &&
    (minY != IntMax ==>
      0 <= minY < row && !RowBlank(g, height, minY) &&
      (forall y :: 0 <= y < minY ==> RowBlank(g, height, y)) &&
      ((maxY == 0 && forall y :: minY < y < row ==> RowBlank(g, height, y)) ||
       (minY < maxY < row && !RowBlank(g, height, maxY) &&
        forall y :: maxY < y < row ==> RowBlank(g, height, y))))
  }

  /** Visiting pixel (x, y) keeps the column bounds: they take in column x if it is content. */
  lemma ScanPixel(g: Grid, height: nat, y: int, x: int, bounds: (int, int))
    requires IsGrid(g, height) && |g| < IntMax && 0 <= x < |g| && 0 <= y < height
    requires ColumnBoundsSoFar(g, height, y, x, bounds.0, bounds.1)
    ensures var next := TakeColumn(bounds, x, IsContent(g, x, y));
      ColumnBoundsSoFar(g, height, y, x + 1, next.0, next.1)
  {
    var (minX, maxX) := bounds;
    var c := IsContent(g, x, y);
    var newMin := if c && x < minX then x else minX;
    var newMax := if c && x > maxX then x else maxX;
    forall x', y' | 0 <= x' < |g| && 0 <= y' < height && Scanned(x', y', y, x + 1) && IsContent(g, x', y')
      ensures newMin <= x' <= newMax
    {
      if x' != x || y' != y {
        assert Scanned(x', y', y, x);
      }
    }
    if newMin != IntMax {
      if c && (x < minX || minX == IntMax) {
        assert Scanned(x, y, y, x + 1);
      } else {
        var y1 :| 0 <= y1 < height && Scanned(minX, y1, y, x) && IsContent(g, minX, y1);
        assert Scanned(newMin, y1, y, x + 1);
      }
      if c && x >= maxX {
        assert Scanned(x, y, y, x + 1);
      } else {
        assert minX != IntMax;
        var y2 :| 0 <= y2 < height && Scanned(maxX, y2, y, x) && IsContent(g, maxX, y2);
        assert Scanned(newMax, y2, y, x + 1);
      }
    }
  }

  /** Finishing row y is starting row y + 1. */
  lemma ScanNextRow(g: Grid, height: nat, y: int, minX: int, maxX: int)
    requires IsGrid(g, height) && 0 <= y < height
    requires ColumnBoundsSoFar(g, height, y, |g|, minX, maxX)
    ensures ColumnBoundsSoFar(g, height, y + 1, 0, minX, maxX)
  {
    forall x', y' | 0 <= x' < |g| && 0 <= y' < height
      ensures Scanned(x', y', y + 1, 0) <==> Scanned(x', y', y, |g|)
    {
    }
    if minX != IntMax {
      var y1 :| 0 <= y1 < height && Scanned(minX, y1, y, |g|) && IsContent(g, minX, y1);
      assert Scanned(minX, y1, y + 1, 0);
      var y2 :| 0 <= y2 < height && Scanned(maxX, y2, y, |g|) && IsContent(g, maxX, y2);
      assert Scanned(maxX, y2, y + 1, 0);
    }
  }

  /** Finishing row y keeps the row bounds: the first content row sets minY, a later one
      raises maxY. */
  lemma ScanRow(g: Grid, height: nat, y: int, bounds: (int, int))
    requires IsGrid(g, height) && 0 <= y < height && height < IntMax
    requires RowBoundsSoFar(g, height, y, bounds.0, bounds.1)
    ensures var next := TakeRow(bounds, y, !RowBlank(g, height, y));
      RowBoundsSoFar(g, height, y + 1, next.0, next.1)
  {
  }

  /** At the end of the scan the running bounds are the ones Crop describes. */
  lemma BoundsAreCrop(g: Grid, height: nat, minX: int, maxX: int, minY: int, maxY: int)
    requires IsGrid(g, height) && |g| < IntMax
    requires ColumnBoundsSoFar(g, height, height, 0, minX, maxX)
    requires RowBoundsSoFar(g, height, height, minY, maxY)
    ensures Crop(g, height) ==
      if minY == IntMax then Failure(EmptyContent)
      else if maxY - minY + 1 <= 0 then Failure(NonPositiveHeight(maxY - minY + 1))
      else Success(Rect(minX, minY, maxX - minX + 1, maxY - minY + 1))
  {
    var top := FirstContentRow(g, height, 0);
    if minY == IntMax {
      assert top == height;
    } else {
      assert top == minY;
      var last := LastContentRow(g, height, height);
      assert (if last > top then last else 0) == maxY;
      var x0 :| 0 <= x0 < |g| && IsContent(g, x0, minY);
      assert minX != IntMax;
      var left := FirstContentColumn(g, height, 0);
      var right := LastContentColumn(g, height, |g|);
      var y1 :| 0 <= y1 < height && IsContent(g, minX, y1);
      var y2 :| 0 <= y2 < height && IsContent(g, maxX, y2);
      ContentColumnBetween(g, height, minX, y1);
      ContentColumnBetween(g, height, maxX, y2);
      assert !ColumnBlank(g, height, left) && !ColumnBlank(g, height, right);
      var y3 :| 0 <= y3 < height && IsContent(g, left, y3);
      var y4 :| 0 <= y4 < height && IsContent(g, right, y4);
      assert left == minX && right == maxX;
    }
  }

  /** The column bounds after visiting column x, which holds content or not. */
  function TakeColumn(bounds: (int, int), x: int, content: bool): (int, int) {
    (if content && x < bounds.0 then x else bounds.0, if content && x > bounds.1 then x else bounds.1)
  }

  /** minX and maxX as the scan holds them on reaching column x of row y. */
  function ColumnScan(g: Grid, height: nat, y: nat, x: nat): (bounds: (int, int))
    requires IsGrid(g, height) && y <= height && x <= |g| && (x > 0 ==> y < height)
    decreases y, x
  {
    if x == 0 then
      if y == 0 then (IntMax, 0) else ColumnScan(g, height, y - 1, |g|)
    else
      TakeColumn(ColumnScan(g, height, y, x - 1), x - 1, IsContent(g, x - 1, y))
  }

  /** The row bounds after visiting row y, which holds content or not: the first content row
      sets minY, a later one raises maxY. */
  function TakeRow(bounds: (int, int), y: int, content: bool): (int, int) {
    (if content && bounds.0 == IntMax then y else bounds.0,
     if content && bounds.0 != IntMax && y > bounds.1 then y else bounds.1)
  }

  /** minY and maxY as the scan holds them on reaching row y. */
  function RowScan(g: Grid, height: nat, y: nat): (bounds: (int, int))
    requires IsGrid(g, height) && y <= height
  {
    if y == 0 then (IntMax, 0)
    else TakeRow(RowScan(g, height, y - 1), y - 1, !RowBlank(g, height, y - 1))
  }

  /** isBlank as the scan holds it on reaching column x of row y. */
  predicate BlankBefore(g: Grid, height: nat, y: int, x: nat)
    requires IsGrid(g, height) && 0 <= y < height && x <= |g|
  {
    x == 0 || (BlankBefore(g, height, y, x - 1) && !IsContent(g, x - 1, y))
  }

  lemma {:induction false} BlankBeforeIff(g: Grid, height: nat, y: int, x: nat)
    requires IsGrid(g, height) && 0 <= y < height && x <= |g|
    ensures BlankBefore(g, height, y, x) <==> forall x' :: 0 <= x' < x ==> !IsContent(g, x', y)
  {
    if x > 0 {
      BlankBeforeIff(g, height, y, x - 1);
    }
  }

  /** The column bounds of the scan are those of the content it has visited. */
  lemma {:induction false} ColumnScanBounds(g: Grid, height: nat, y: nat, x: nat)
    requires IsGrid(g, height) && |g| < IntMax && y <= height && x <= |g| && (x > 0 ==> y < height)
    ensures ColumnBoundsSoFar(g, height, y, x, ColumnScan(g, height, y, x).0, ColumnScan(g, height, y, x).1)
    decreases y, x
  {
    if x == 0 {
      if y > 0 {
        ColumnScanBounds(g, height, y - 1, |g|);
        var bounds := ColumnScan(g, height, y - 1, |g|);
        ScanNextRow(g, height, y - 1, bounds.0, bounds.1);
      }
    } else {
      ColumnScanBounds(g, height, y, x - 1);
      ScanPixel(g, height, y, x - 1, ColumnScan(g, height, y, x - 1));
    }
  }

  /** The row bounds of the scan are those of the content rows it has visited. */
  lemma {:induction false} RowScanBounds(g: Grid, height: nat, y: nat)
    requires IsGrid(g, height) && height < IntMax && y <= height
    ensures RowBoundsSoFar(g, height, y, RowScan(g, height, y).0, RowScan(g, height, y).1)
  {
    if y > 0 {
      RowScanBounds(g, height, y - 1);
      ScanRow(g, height, y - 1, RowScan(g, height, y - 1));
    }
  }

  /** The scan as a whole computes Crop. */
  lemma ScanIsCrop(g: Grid, height: nat, minX: int, maxX: int, minY: int, maxY: int)
    requires IsGrid(g, height) && |g| < IntMax && height < IntMax
    requires (minX, maxX) == ColumnScan(g, height, height, 0) && (minY, maxY) == RowScan(g, height, height)
    ensures Crop(g, height) ==
      if minY == IntMax then Failure(EmptyContent)
      else if maxY - minY + 1 <= 0 then Failure(NonPositiveHeight(maxY - minY + 1))
      else Success(Rect(minX, minY, maxX - minX + 1, maxY - minY + 1))
  {
    ColumnScanBounds(g, height, height, 0);
    RowScanBounds(g, height, height);
    BoundsAreCrop(g, height, minX, maxX, minY, maxY);
  }

  /** cropImage on the region `area` of img: the row-by-row scan that tracks minX, maxX,
      minY and maxY, then the box getSubimage is asked for, relative to the region. */
  method CropImage(img: array2<int>, area: Rect) returns (res: Result<Rect, CropError>)
    requires InImage(area, img.Length0, img.Length1) && area.width < IntMax && area.height < IntMax
    ensures res == Crop(RegionGrid(img, area), area.height)
  {
    ghost var g := RegionGrid(img, area);
    var width, height := area.width, area.height;
    var minY, maxY, minX, maxX := IntMax, 0, IntMax, 0;
    var y := 0;
    while y < height
      invariant 0 <= y <= height
      invariant (minX, maxX) == ColumnScan(g, height, y, 0)
      invariant (minY, maxY) == RowScan(g, height, y)
    {
      var isBlank := true;
      var x := 0;
      while x < width
        invariant 0 <= x <= width
        invariant (minX, maxX) == ColumnScan(g, height, y, x)
        invariant isBlank == BlankBefore(g, height, y, x)
      {
        assert g[x][y] == img[area.x + x, area.y + y];
        if !IsCard(img[area.x + x, area.y + y]) {
          isBlank := false;
          if x < minX {
            minX := x;
          }
          if x > maxX {
            maxX := x;
          }
        }
        x := x + 1;
      }
      assert (minY, maxY) == RowScan(g, height, y);
      BlankBeforeIff(g, height, y, width);
      if !isBlank {
        if minY == IntMax {
          minY := y;
        } else if y > maxY {
          maxY := y;
        }
      }
      y := y + 1;
    }
    ScanIsCrop(g, height, minX, maxX, minY, maxY);
    if minY == IntMax {
      res := Failure(EmptyContent);
    } else if maxY - minY + 1 <= 0 {
      res := Failure(NonPositiveHeight(maxY - minY + 1));
    } else {
      res := Success(Rect(minX, minY, maxX - minX + 1, maxY - minY + 1));
    }
  }
}
