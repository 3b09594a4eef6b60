/** The grid sampler of processMosaic: mosaic cell (x, y) reads the source
    pixel at floor(x*scaleX + scaleX/2), floor(y*scaleY + scaleY/2) of the
    decoded RGB buffer, scaleX = originalWidth/mosaicWidth and
    scaleY = originalHeight/mosaicHeight.  Scale factors are exact reals. */
module Sampler {

  import opened Rgb
  import Arith

  /** The source dimensions and the grid dimensions of one run. */
  datatype Geometry = Geometry(srcWidth: nat, srcHeight: nat, gridWidth: nat, gridHeight: nat) {
    predicate Valid() {
      srcWidth > 0 && srcHeight > 0 && gridWidth > 0 && gridHeight > 0
    }

    /** Bytes of the decoded buffer: three channels per source pixel. */
    function BufferLength(): nat {
      srcWidth * srcHeight * 3
    }

    function Cells(): nat {
      gridWidth * gridHeight
    }
  }

  function Scale(src: nat, grid: nat): real
    requires grid > 0
  {
    src as real / grid as real
  }

  /** Math.floor(i * scale + scale / 2). */
  function SampleCoord(i: int, grid: nat, src: nat): int
    requires grid > 0
  {
    var s := Scale(src, grid);
    (i as real * s + s / 2.0).Floor
  }

  /** The same coordinate in integers: the centre of cell i is
      (2i+1)*src / (2*grid) source pixels from the edge. */
  lemma SampleCoordIsQuotient(i: int, grid: nat, src: nat)
    requires grid > 0
    ensures SampleCoord(i, grid, src) == ((2 * i + 1) * src) / (2 * grid)
  {
    var s := Scale(src, grid);
    var n, d := (2 * i + 1) * src, 2 * grid;
    assert s * grid as real == src as real;
    assert i as real * s + s / 2.0 == n as real / d as real by {
      assert (i as real * s + s / 2.0) * d as real == (2 * i + 1) as real * (s * grid as real);
    }
    Arith.FloorOfQuotient(n, d);
  }

  /** Every sample coordinate of an in-grid cell lies inside the source. */
  lemma SampleCoordInBounds(i: int, grid: nat, src: nat)
    requires 0 <= i < grid && src > 0
    ensures 0 <= SampleCoord(i, grid, src) < src
  {
    SampleCoordIsQuotient(i, grid, src);
    CentreInBounds(i, grid, src);
  }

  /** The integer centre of cell i lies inside the source. */
  lemma CentreInBounds(i: int, grid: nat, src: nat)
    requires 0 <= i < grid && src > 0
    ensures 0 <= ((2 * i + 1) * src) / (2 * grid) < src
  {
    var n, d := (2 * i + 1) * src, 2 * grid;
    Arith.MulMonotone(2 * i + 1, 2 * grid - 1, src);
    assert (2 * grid - 1) * src < d * src;
    Arith.QuotientBelow(n, d, src);
    assert 0 <= n;
  }

  /** When the source is at least as large as the grid, different cells
      read different source columns (or rows). */
  lemma SampleCoordStrictlyIncreasing(i: int, j: int, grid: nat, src: nat)
    requires 0 <= i < j && grid > 0 && src >= grid
    ensures SampleCoord(i, grid, src) < SampleCoord(j, grid, src)
  {
    SampleCoordIsQuotient(i, grid, src);
    SampleCoordIsQuotient(j, grid, src);
    CentreIncreasing(i, j, grid, src);
  }

  /** The integer centres of later cells lie strictly further along. */
  lemma CentreIncreasing(i: int, j: int, grid: nat, src: nat)
    requires 0 <= i < j && grid > 0 && src >= grid
    ensures ((2 * i + 1) * src) / (2 * grid) < ((2 * j + 1) * src) / (2 * grid)
  {
    var d := 2 * grid;
    var ni, nj := (2 * i + 1) * src, (2 * j + 1) * src;
    assert nj - ni == 2 * ((j - i) * src);
    Arith.MulMonotone(1, j - i, src);
    Arith.QuotientGrows(ni, nj, d);
  }

  function CenterX(geo: Geometry, x: int): int
    requires geo.Valid()
  {
    SampleCoord(x, geo.gridWidth, geo.srcWidth)
  }

  function CenterY(geo: Geometry, y: int): int
    requires geo.Valid()
  {
    SampleCoord(y, geo.gridHeight, geo.srcHeight)
  }

  /** (centerY * originalWidth + centerX) * 3: the first byte of the sample
      pixel of cell (x, y); its three channels lie inside the buffer. */
  function SampleIndex(geo: Geometry, x: int, y: int): (index: nat)
    requires geo.Valid() && 0 <= x < geo.gridWidth && 0 <= y < geo.gridHeight
    ensures index % 3 == 0 && index + 2 < geo.BufferLength()
  {
    SampleCoordInBounds(x, geo.gridWidth, geo.srcWidth);
    SampleCoordInBounds(y, geo.gridHeight, geo.srcHeight);
    var cx, cy := CenterX(geo, x), CenterY(geo, y);
    Arith.RowMajorBound(cx, cy, geo.srcWidth, geo.srcHeight);
    var p := cy * geo.srcWidth + cx;
    assert p * 3 + 2 < geo.BufferLength();
    p * 3
  }

  /** Cells with different sample pixels have sample indices at least
      three apart, so their channel triples never overlap. */
  lemma SampleIndicesDisjoint(geo: Geometry, x1: int, y1: int, x2: int, y2: int)
    requires geo.Valid()
    requires 0 <= x1 < geo.gridWidth && 0 <= y1 < geo.gridHeight
    requires 0 <= x2 < geo.gridWidth && 0 <= y2 < geo.gridHeight
    requires geo.srcWidth >= geo.gridWidth && geo.srcHeight >= geo.gridHeight
    requires (x1, y1) != (x2, y2)
    ensures SampleIndex(geo, x1, y1) + 3 <= SampleIndex(geo, x2, y2)
         || SampleIndex(geo, x2, y2) + 3 <= SampleIndex(geo, x1, y1)
  {
    SampleCoordInBounds(x1, geo.gridWidth, geo.srcWidth);
    SampleCoordInBounds(y1, geo.gridHeight, geo.srcHeight);
    SampleCoordInBounds(x2, geo.gridWidth, geo.srcWidth);
    SampleCoordInBounds(y2, geo.gridHeight, geo.srcHeight);
    var cx1, cy1, cx2, cy2 := CenterX(geo, x1), CenterY(geo, y1), CenterX(geo, x2), CenterY(geo, y2);
    if x1 != x2 {
      if x1 < x2 { SampleCoordStrictlyIncreasing(x1, x2, geo.gridWidth, geo.srcWidth); }
      else { SampleCoordStrictlyIncreasing(x2, x1, geo.gridWidth, geo.srcWidth); }
    } else {
      if y1 < y2 { SampleCoordStrictlyIncreasing(y1, y2, geo.gridHeight, geo.srcHeight); }
      else { SampleCoordStrictlyIncreasing(y2, y1, geo.gridHeight, geo.srcHeight); }
    }
    var p1, p2 := cy1 * geo.srcWidth + cx1, cy2 * geo.srcWidth + cx2;
    Arith.RowMajor(p1, geo.srcWidth, cx1, cy1);
    Arith.RowMajor(p2, geo.srcWidth, cx2, cy2);
    assert p1 != p2;
  }

  /** The pixel { r, g, b } the scan reads for cell (x, y). */
  function SamplePixel(buf: seq<Byte>, geo: Geometry, x: int, y: int): Color
    requires geo.Valid() && |buf| == geo.BufferLength()
    requires 0 <= x < geo.gridWidth && 0 <= y < geo.gridHeight
  {
    var i := SampleIndex(geo, x, y);
    Color(buf[i], buf[i + 1], buf[i + 2])
  }

  /** The reference configuration: a 640x960 source on the 64x96 grid has
      scale factors 10 and 10, and cell (0,0) reads source pixel (5,5). */
  lemma ReferenceSample()
    ensures Scale(640, 64) == 10.0 && Scale(960, 96) == 10.0
    ensures SampleCoord(0, 64, 640) == 5 && SampleCoord(0, 96, 960) == 5
  {
    SampleCoordIsQuotient(0, 64, 640);
    SampleCoordIsQuotient(0, 96, 960);
  }
}
