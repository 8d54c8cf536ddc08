/** Pixel grids shared by the hasher and the cropper. */
module Raster {

  /** Integer.MAX_VALUE, which the source uses as a sentinel. */
  const IntMax: int := 0x7FFF_FFFF

  /** Pixels of an image, indexed like the source's int[x][y]: g[x][y] is the pixel at
      column x and row y. The width is |g|; every column holds `height` pixels. */
  type Grid = seq<seq<int>>

  predicate IsGrid(g: Grid, height: nat) {
    forall x :: 0 <= x < |g| ==> |g[x]| == height
  }

  /** A rectangle (java.awt.Point plus java.awt.Dimension): origin and size. */
  datatype Rect = Rect(x: int, y: int, width: int, height: int)

  /** The rectangle lies inside an image of the given size, as BufferedImage.getSubimage
      requires of its arguments. */
  predicate InImage(r: Rect, width: int, height: int) {
    0 <= r.x && 0 <= r.y && 0 <= r.width && 0 <= r.height &&
    r.x + r.width <= width && r.y + r.height <= height
  }

  /** The pixels of `area` inside `img`, relative to the area's origin (getSubimage's view). */
  function RegionGrid(img: array2<int>, area: Rect): (g: Grid)
    requires InImage(area, img.Length0, img.Length1)
    reads img
    ensures |g| == area.width && IsGrid(g, area.height)
    ensures forall x, y :: 0 <= x < area.width && 0 <= y < area.height ==>
      g[x][y] == img[area.x + x, area.y + y]
  {
    seq(area.width, x requires 0 <= x < area.width reads img =>
      seq(area.height, y requires 0 <= y < area.height reads img => img[area.x + x, area.y + y]))
  }

  /** The cells of a two-dimensional array as a grid. */
  ghost function Cells(m: array2<int>): (g: Grid)
    reads m
    ensures |g| == m.Length0 && IsGrid(g, m.Length1)
    ensures forall x, y :: 0 <= x < m.Length0 && 0 <= y < m.Length1 ==> g[x][y] == m[x, y]
  {
    seq(m.Length0, x requires 0 <= x < m.Length0 reads m =>
      seq(m.Length1, y requires 0 <= y < m.Length1 reads m => m[x, y]))
  }

  /** The part of a grid covered by `r` (coordinates relative to the grid). */
  function SubGrid(g: Grid, height: nat, r: Rect): (s: Grid)
    requires IsGrid(g, height) && InImage(r, |g|, height)
    ensures |s| == r.width && IsGrid(s, r.height)
    ensures forall x, y :: 0 <= x < r.width && 0 <= y < r.height ==> s[x][y] == g[r.x + x][r.y + y]
  {
    seq(r.width, x requires 0 <= x < r.width => g[r.x + x][r.y .. r.y + r.height])
  }

  /** Two grids of the same shape that agree on every cell are equal. */
  lemma GridsEqual(g1: Grid, g2: Grid, height: nat)
    requires IsGrid(g1, height) && IsGrid(g2, height) && |g1| == |g2|
    requires forall x, y :: 0 <= x < |g1| && 0 <= y < height ==> g1[x][y] == g2[x][y]
    ensures g1 == g2
  {
    forall x | 0 <= x < |g1| ensures g1[x] == g2[x] {
      assert forall y :: 0 <= y < height ==> g1[x][y] == g2[x][y];
    }
  }

  /** The region of an array, read directly, is the same part of the array's cells as a grid. */
  lemma RegionIsSubGrid(img: array2<int>, area: Rect)
    requires InImage(area, img.Length0, img.Length1)
    ensures RegionGrid(img, area) == SubGrid(Cells(img), img.Length1, area)
  {
    var cells := Cells(img);
    GridsEqual(RegionGrid(img, area), SubGrid(cells, img.Length1, area), area.height);
  }
}
