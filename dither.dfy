/** floydSteinbergDither: the quantisation error of one mosaic cell is
    pushed onto the sample pixels of four later cells (right 7/16, lower
    left 3/16, below 5/16, lower right 1/16), each channel clamped to
    [0, 255] and stored into the Uint8 buffer, which truncates. */
module Dither {

  import opened Rgb
  import opened Sampler
  import Arith

  /** pixel - newPixel, channel by channel. */
  datatype ColorError = ColorError(r: int, g: int, b: int)

  function QuantError(pixel: Color, newPixel: Color): (e: ColorError)
    ensures e == ColorError(0, 0, 0) <==> pixel == newPixel
  {
    ColorError(pixel.r - newPixel.r, pixel.g - newPixel.g, pixel.b - newPixel.b)
  }

  /** Math.min(Math.max(v, 0), 255) assigned to a Uint8 element. */
  function StoreClamped(v: real): (r: Byte)
    ensures v < 0.0 ==> r == 0
    ensures v >= 255.0 ==> r == 255
    ensures 0.0 <= v < 256.0 ==> r as real <= v < r as real + 1.0
  {
    if v < 0.0 then 0 else if v > 255.0 then 255 else v.Floor
  }

  function ClampInt(n: int): Byte {
    if n < 0 then 0 else if n > 255 then 255 else n
  }

  /** One channel after receiving k/16 of the error e. */
  function Diffuse(v: Byte, e: int, k: nat): Byte {
    StoreClamped(v as real + e as real * (k as real / 16.0))
  }

  /** The same update in integers: floor((16v + e*k) / 16), clamped. */
  lemma DiffuseInIntegers(v: Byte, e: int, k: nat)
    ensures Diffuse(v, e, k) == ClampInt((16 * v + e * k) / 16)
  {
    var n := 16 * v + e * k;
    assert v as real + e as real * (k as real / 16.0) == n as real / 16.0;
    Arith.FloorOfQuotient(n, 16);
  }

  /** A channel with no error to absorb keeps its value. */
  lemma DiffuseNoError(v: Byte, k: nat)
    ensures Diffuse(v, 0, k) == v
  {
  }

  /** The error moves a channel towards its own sign and never past
      v + e*k/16. */
  lemma DiffuseDirection(v: Byte, e: int, k: nat)
    ensures e >= 0 ==> v <= Diffuse(v, e, k) <= v + (e * k) / 16
    ensures e <= 0 ==> Diffuse(v, e, k) <= v
    ensures e <= 0 ==> v + (e * k) / 16 <= Diffuse(v, e, k)
  {
    DiffuseInIntegers(v, e, k);
    if e >= 0 {
      Arith.MulMonotone(0, e, k);
      assert (16 * v + e * k) / 16 == v + (e * k) / 16 by {
        Arith.DivModUnique(16 * v + e * k, 16, v + (e * k) / 16, (e * k) % 16);
      }
    } else {
      Arith.MulMonotone(e, 0, k);
      assert (16 * v + e * k) / 16 == v + (e * k) / 16 by {
        Arith.DivModUnique(16 * v + e * k, 16, v + (e * k) / 16, (e * k) % 16);
      }
    }
  }

  predicate InGrid(geo: Geometry, x: int, y: int) {
    0 <= x < geo.gridWidth && 0 <= y < geo.gridHeight
  }

  /** (centerY * mosaicWidth * scaleX + centerX) * 3, the index the
      ditherer writes, computed in the reals. */
  function DitherIndex(geo: Geometry, x: int, y: int): real
    requires geo.Valid()
  {
    (CenterY(geo, y) as real * geo.gridWidth as real * Scale(geo.srcWidth, geo.gridWidth)
      + CenterX(geo, x) as real) * 3.0
  }

  /** mosaicWidth * scaleX is originalWidth, so the ditherer writes the very
      pixel the scan reads for that cell. */
  lemma DitherIndexIsSampleIndex(geo: Geometry, x: int, y: int)
    requires geo.Valid() && InGrid(geo, x, y)
    ensures DitherIndex(geo, x, y) == SampleIndex(geo, x, y) as real
  {
    assert geo.gridWidth as real * Scale(geo.srcWidth, geo.gridWidth) == geo.srcWidth as real;
  }

  /** Byte j belongs to the sample pixel of in-grid cell (x, y). */
  predicate Hits(geo: Geometry, x: int, y: int, j: int)
    requires geo.Valid()
  {
    InGrid(geo, x, y) && SampleIndex(geo, x, y) <= j < SampleIndex(geo, x, y) + 3
  }

  /** distributeError(dx, dy, k/16) at cell (x, y): the sample pixel of the
      neighbour, when it is inside the grid, absorbs k/16 of the error in
      each channel; no other byte changes. */
  function DistributeError(buf: seq<Byte>, geo: Geometry, x: int, y: int, err: ColorError, dx: int, dy: int, k: nat): (r: seq<Byte>)
    requires geo.Valid() && |buf| == geo.BufferLength()
    ensures |r| == |buf|
  {
    var nx, ny := x + dx, y + dy;
    if InGrid(geo, nx, ny) then
      var i := SampleIndex(geo, nx, ny);
      buf[i := Diffuse(buf[i], err.r, k)][i + 1 := Diffuse(buf[i + 1], err.g, k)][i + 2 := Diffuse(buf[i + 2], err.b, k)]
    else buf
  }

  /** What one distributeError call changes: the three channels of the
      neighbour's sample pixel, each by its share of the error, and no
      other byte. */
  lemma DistributeErrorEffect(buf: seq<Byte>, geo: Geometry, x: int, y: int, err: ColorError, dx: int, dy: int, k: nat)
    requires geo.Valid() && |buf| == geo.BufferLength()
    ensures var r := DistributeError(buf, geo, x, y, err, dx, dy, k);
      forall j :: 0 <= j < |buf| && !Hits(geo, x + dx, y + dy, j) ==> r[j] == buf[j]
    ensures InGrid(geo, x + dx, y + dy) ==>
      var r := DistributeError(buf, geo, x, y, err, dx, dy, k);
      var i := SampleIndex(geo, x + dx, y + dy);
      r[i] == Diffuse(buf[i], err.r, k) && r[i + 1] == Diffuse(buf[i + 1], err.g, k)
        && r[i + 2] == Diffuse(buf[i + 2], err.b, k)
  {
  }

  /** Byte j belongs to the sample pixel of one of the four neighbours. */
  predicate Touched(geo: Geometry, x: int, y: int, j: int)
    requires geo.Valid()
  {
    Hits(geo, x + 1, y, j) || Hits(geo, x - 1, y + 1, j) || Hits(geo, x, y + 1, j) || Hits(geo, x + 1, y + 1, j)
  }

  /** floydSteinbergDither(x, y, pixel, newPixel, ...): the four calls of
      distributeError in source order. */
  function FloydSteinberg(buf: seq<Byte>, geo: Geometry, x: int, y: int, pixel: Color, newPixel: Color): (r: seq<Byte>)
    requires geo.Valid() && |buf| == geo.BufferLength()
    ensures |r| == |buf|
  {
    var e := QuantError(pixel, newPixel);
    var b1 := DistributeError(buf, geo, x, y, e, 1, 0, 7);
    var b2 := DistributeError(b1, geo, x, y, e, -1, 1, 3);
    var b3 := DistributeError(b2, geo, x, y, e, 0, 1, 5);
    DistributeError(b3, geo, x, y, e, 1, 1, 1)
  }

  /** A dithering step writes only the sample pixels of the four
      neighbours. */
  lemma FloydSteinbergFrame(buf: seq<Byte>, geo: Geometry, x: int, y: int, pixel: Color, newPixel: Color)
    requires geo.Valid() && |buf| == geo.BufferLength()
    ensures var r := FloydSteinberg(buf, geo, x, y, pixel, newPixel);
      forall j :: 0 <= j < |buf| && !Touched(geo, x, y, j) ==> r[j] == buf[j]
  {
    var e := QuantError(pixel, newPixel);
    var b1 := DistributeError(buf, geo, x, y, e, 1, 0, 7);
    var b2 := DistributeError(b1, geo, x, y, e, -1, 1, 3);
    var b3 := DistributeError(b2, geo, x, y, e, 0, 1, 5);
    forall j | 0 <= j < |buf| && !Touched(geo, x, y, j)
      ensures DistributeError(b3, geo, x, y, e, 1, 1, 1)[j] == buf[j]
    {
      DistributeErrorKeeps(buf, geo, x, y, e, 1, 0, 7, j);
      DistributeErrorKeeps(b1, geo, x, y, e, -1, 1, 3, j);
      DistributeErrorKeeps(b2, geo, x, y, e, 0, 1, 5, j);
      DistributeErrorKeeps(b3, geo, x, y, e, 1, 1, 1, j);
    }
  }

  /** One distributeError call leaves byte j alone when j is outside the
      neighbour's sample pixel. */
  lemma DistributeErrorKeeps(buf: seq<Byte>, geo: Geometry, x: int, y: int, err: ColorError, dx: int, dy: int, k: nat, j: int)
    requires geo.Valid() && |buf| == geo.BufferLength()
    requires 0 <= j < |buf| && !Hits(geo, x + dx, y + dy, j)
    ensures DistributeError(buf, geo, x, y, err, dx, dy, k)[j] == buf[j]
  {
    DistributeErrorEffect(buf, geo, x, y, err, dx, dy, k);
  }

  /** A cell matched exactly leaves the buffer as it was. */
  lemma FloydSteinbergExact(buf: seq<Byte>, geo: Geometry, x: int, y: int, pixel: Color)
    requires geo.Valid() && |buf| == geo.BufferLength()
    ensures FloydSteinberg(buf, geo, x, y, pixel, pixel) == buf
  {
    var e := QuantError(pixel, pixel);
    DistributeNoError(buf, geo, x, y, 1, 0, 7);
    DistributeNoError(buf, geo, x, y, -1, 1, 3);
    DistributeNoError(buf, geo, x, y, 0, 1, 5);
    DistributeNoError(buf, geo, x, y, 1, 1, 1);
  }

  lemma DistributeNoError(buf: seq<Byte>, geo: Geometry, x: int, y: int, dx: int, dy: int, k: nat)
    requires geo.Valid() && |buf| == geo.BufferLength()
    ensures DistributeError(buf, geo, x, y, ColorError(0, 0, 0), dx, dy, k) == buf
  {
    var r := DistributeError(buf, geo, x, y, ColorError(0, 0, 0), dx, dy, k);
    DistributeErrorEffect(buf, geo, x, y, ColorError(0, 0, 0), dx, dy, k);
    if InGrid(geo, x + dx, y + dy) {
      var i := SampleIndex(geo, x + dx, y + dy);
      DiffuseNoError(buf[i], k);
      DiffuseNoError(buf[i + 1], k);
      DiffuseNoError(buf[i + 2], k);
    }
    assert forall j :: 0 <= j < |buf| ==> r[j] == buf[j];
  }

  /** Every neighbour that receives error comes later than (x, y) in the
      row-major order in which the scan visits the cells. */
  lemma NeighbourLater(geo: Geometry, x: int, y: int, dx: int, dy: int)
    requires geo.Valid() && InGrid(geo, x, y) && InGrid(geo, x + dx, y + dy)
    requires (dx, dy) == (1, 0) || (dx, dy) == (-1, 1) || (dx, dy) == (0, 1) || (dx, dy) == (1, 1)
    ensures (y + dy) * geo.gridWidth + (x + dx) > y * geo.gridWidth + x
  {
    if dy == 1 {
      assert (y + 1) * geo.gridWidth == y * geo.gridWidth + geo.gridWidth;
    }
  }

  /** The sample pixel of a cell at or before (x, y) is not one a
      neighbour's update writes, provided every cell has a sample pixel of
      its own (the source is at least as large as the grid). */
  lemma NotHitBefore(geo: Geometry, x: int, y: int, dx: int, dy: int, cx: int, cy: int, j: int)
    requires geo.Valid() && InGrid(geo, x, y) && InGrid(geo, cx, cy)
    requires geo.srcWidth >= geo.gridWidth && geo.srcHeight >= geo.gridHeight
    requires (dx, dy) == (1, 0) || (dx, dy) == (-1, 1) || (dx, dy) == (0, 1) || (dx, dy) == (1, 1)
    requires cy * geo.gridWidth + cx <= y * geo.gridWidth + x
    requires SampleIndex(geo, cx, cy) <= j < SampleIndex(geo, cx, cy) + 3
    ensures !Hits(geo, x + dx, y + dy, j)
  {
    if InGrid(geo, x + dx, y + dy) {
      NeighbourLater(geo, x, y, dx, dy);
      SampleIndicesDisjoint(geo, x + dx, y + dy, cx, cy);
    }
  }

  /** No neighbour update of cell (x, y) writes the sample pixel of a cell
      at or before it. */
  lemma VisitedNotTouched(geo: Geometry, x: int, y: int, cx: int, cy: int)
    requires geo.Valid() && InGrid(geo, x, y) && InGrid(geo, cx, cy)
    requires geo.srcWidth >= geo.gridWidth && geo.srcHeight >= geo.gridHeight
    requires cy * geo.gridWidth + cx <= y * geo.gridWidth + x
    ensures forall j :: SampleIndex(geo, cx, cy) <= j < SampleIndex(geo, cx, cy) + 3 ==> !Touched(geo, x, y, j)
  {
    var i := SampleIndex(geo, cx, cy);
    forall j | i <= j < i + 3 ensures !Touched(geo, x, y, j) {
      NotHitBefore(geo, x, y, 1, 0, cx, cy, j);
      NotHitBefore(geo, x, y, -1, 1, cx, cy, j);
      NotHitBefore(geo, x, y, 0, 1, cx, cy, j);
      NotHitBefore(geo, x, y, 1, 1, cx, cy, j);
    }
  }

  /** A step that touches none of the three channels of a sample pixel
      leaves that pixel as it was. */
  lemma UntouchedSample(buf: seq<Byte>, geo: Geometry, x: int, y: int, pixel: Color, newPixel: Color, cx: int, cy: int)
    requires geo.Valid() && |buf| == geo.BufferLength() && InGrid(geo, cx, cy)
    requires forall j :: SampleIndex(geo, cx, cy) <= j < SampleIndex(geo, cx, cy) + 3 ==> !Touched(geo, x, y, j)
    ensures SamplePixel(FloydSteinberg(buf, geo, x, y, pixel, newPixel), geo, cx, cy) == SamplePixel(buf, geo, cx, cy)
  {
    var i := SampleIndex(geo, cx, cy);
    FloydSteinbergFrame(buf, geo, x, y, pixel, newPixel);
    assert !Touched(geo, x, y, i) && !Touched(geo, x, y, i + 1) && !Touched(geo, x, y, i + 2);
  }

  /** One dithering step never changes the sample pixel of the current cell
      or of a cell visited before it. */
  lemma VisitedSamplesUnchanged(buf: seq<Byte>, geo: Geometry, x: int, y: int, pixel: Color, newPixel: Color, cx: int, cy: int)
    requires geo.Valid() && |buf| == geo.BufferLength()
    requires InGrid(geo, x, y) && InGrid(geo, cx, cy)
    requires geo.srcWidth >= geo.gridWidth && geo.srcHeight >= geo.gridHeight
    requires cy * geo.gridWidth + cx <= y * geo.gridWidth + x
    ensures SamplePixel(FloydSteinberg(buf, geo, x, y, pixel, newPixel), geo, cx, cy) == SamplePixel(buf, geo, cx, cy)
  {
    VisitedNotTouched(geo, x, y, cx, cy);
    UntouchedSample(buf, geo, x, y, pixel, newPixel, cx, cy);
  }

  /** A sample pixel after receiving k/16 of the error. */
  function Share(before: Color, err: ColorError, k: nat): Color {
    Color(Diffuse(before.r, err.r, k), Diffuse(before.g, err.g, k), Diffuse(before.b, err.b, k))
  }

  /** The call whose neighbour is (cx, cy) gives its sample the share. */
  lemma ShareHere(buf: seq<Byte>, geo: Geometry, x: int, y: int, err: ColorError, dx: int, dy: int, k: nat, cx: int, cy: int)
    requires geo.Valid() && |buf| == geo.BufferLength() && InGrid(geo, cx, cy)
    requires (x + dx, y + dy) == (cx, cy)
    ensures SamplePixel(DistributeError(buf, geo, x, y, err, dx, dy, k), geo, cx, cy)
         == Share(SamplePixel(buf, geo, cx, cy), err, k)
  {
    DistributeErrorEffect(buf, geo, x, y, err, dx, dy, k);
  }

  /** A call for another neighbour leaves the sample of (cx, cy) alone, when
      distinct cells have distinct samples. */
  lemma ShareElsewhere(buf: seq<Byte>, geo: Geometry, x: int, y: int, err: ColorError, dx: int, dy: int, k: nat, cx: int, cy: int)
    requires geo.Valid() && |buf| == geo.BufferLength() && InGrid(geo, cx, cy)
    requires geo.srcWidth >= geo.gridWidth && geo.srcHeight >= geo.gridHeight
    requires (x + dx, y + dy) != (cx, cy)
    ensures SamplePixel(DistributeError(buf, geo, x, y, err, dx, dy, k), geo, cx, cy) == SamplePixel(buf, geo, cx, cy)
  {
    DistributeErrorEffect(buf, geo, x, y, err, dx, dy, k);
    if InGrid(geo, x + dx, y + dy) {
      SampleIndicesDisjoint(geo, x + dx, y + dy, cx, cy);
    }
  }

  /** The shares of one dithering step: the sample of each in-grid
      neighbour receives its own weight of the error (7/16 right, 3/16
      lower left, 5/16 below, 1/16 lower right) and no other, when every
      cell has a sample pixel of its own. */
  lemma FloydSteinbergShares(buf: seq<Byte>, geo: Geometry, x: int, y: int, pixel: Color, newPixel: Color, cx: int, cy: int, k: nat)
    requires geo.Valid() && |buf| == geo.BufferLength()
    requires geo.srcWidth >= geo.gridWidth && geo.srcHeight >= geo.gridHeight
    requires (cx == x + 1 && cy == y && k == 7) || (cx == x - 1 && cy == y + 1 && k == 3)
          || (cx == x && cy == y + 1 && k == 5) || (cx == x + 1 && cy == y + 1 && k == 1)
    requires InGrid(geo, cx, cy)
    ensures SamplePixel(FloydSteinberg(buf, geo, x, y, pixel, newPixel), geo, cx, cy)
         == Share(SamplePixel(buf, geo, cx, cy), QuantError(pixel, newPixel), k)
  {
    if cx == x + 1 && cy == y {
      ShareRight(buf, geo, x, y, pixel, newPixel, cx, cy, k);
    } else if cx == x - 1 && cy == y + 1 {
      ShareLowerLeft(buf, geo, x, y, pixel, newPixel, cx, cy, k);
    } else if cx == x && cy == y + 1 {
      ShareBelow(buf, geo, x, y, pixel, newPixel, cx, cy, k);
    } else {
      ShareLowerRight(buf, geo, x, y, pixel, newPixel, cx, cy, k);
    }
  }




  /** The right neighbour (cx, cy) receives 7/16 of the error. */
  lemma ShareRight(buf: seq<Byte>, geo: Geometry, x: int, y: int, pixel: Color, newPixel: Color, cx: int, cy: int, k: nat)
    requires geo.Valid() && |buf| == geo.BufferLength()
    requires geo.srcWidth >= geo.gridWidth && geo.srcHeight >= geo.gridHeight
    requires cx == x + 1 && cy == y && k == 7 && InGrid(geo, cx, cy)
    ensures SamplePixel(FloydSteinberg(buf, geo, x, y, pixel, newPixel), geo, cx, cy)
         == Share(SamplePixel(buf, geo, cx, cy), QuantError(pixel, newPixel), k)
  {
    var e := QuantError(pixel, newPixel);
    var b1 := DistributeError(buf, geo, x, y, e, 1, 0, 7);
    var b2 := DistributeError(b1, geo, x, y, e, -1, 1, 3);
    var b3 := DistributeError(b2, geo, x, y, e, 0, 1, 5);
    calc {
      SamplePixel(FloydSteinberg(buf, geo, x, y, pixel, newPixel), geo, cx, cy);
      SamplePixel(DistributeError(b3, geo, x, y, e, 1, 1, 1), geo, cx, cy);
    == { ShareElsewhere(b3, geo, x, y, e, 1, 1, 1, cx, cy); }
      SamplePixel(b3, geo, cx, cy);
    == { ShareElsewhere(b2, geo, x, y, e, 0, 1, 5, cx, cy); }
      SamplePixel(b2, geo, cx, cy);
    == { ShareElsewhere(b1, geo, x, y, e, -1, 1, 3, cx, cy); }
      SamplePixel(b1, geo, cx, cy);
    == { ShareHere(buf, geo, x, y, e, 1, 0, 7, cx, cy); }
      Share(SamplePixel(buf, geo, cx, cy), e, 7);
    }
  }

  /** The lower left neighbour (cx, cy) receives 3/16 of the error. */
  lemma ShareLowerLeft(buf: seq<Byte>, geo: Geometry, x: int, y: int, pixel: Color, newPixel: Color, cx: int, cy: int, k: nat)
    requires geo.Valid() && |buf| == geo.BufferLength()
    requires geo.srcWidth >= geo.gridWidth && geo.srcHeight >= geo.gridHeight
    requires cx == x - 1 && cy == y + 1 && k == 3 && InGrid(geo, cx, cy)
    ensures SamplePixel(FloydSteinberg(buf, geo, x, y, pixel, newPixel), geo, cx, cy)
         == Share(SamplePixel(buf, geo, cx, cy), QuantError(pixel, newPixel), k)
  {
    var e := QuantError(pixel, newPixel);
    var b1 := DistributeError(buf, geo, x, y, e, 1, 0, 7);
    var b2 := DistributeError(b1, geo, x, y, e, -1, 1, 3);
    var b3 := DistributeError(b2, geo, x, y, e, 0, 1, 5);
    calc {
      SamplePixel(FloydSteinberg(buf, geo, x, y, pixel, newPixel), geo, cx, cy);
      SamplePixel(DistributeError(b3, geo, x, y, e, 1, 1, 1), geo, cx, cy);
    == { ShareElsewhere(b3, geo, x, y, e, 1, 1, 1, cx, cy); }
      SamplePixel(b3, geo, cx, cy);
    == { ShareElsewhere(b2, geo, x, y, e, 0, 1, 5, cx, cy); }
      SamplePixel(b2, geo, cx, cy);
    == { ShareHere(b1, geo, x, y, e, -1, 1, 3, cx, cy); }
      Share(SamplePixel(b1, geo, cx, cy), e, 3);
    == { ShareElsewhere(buf, geo, x, y, e, 1, 0, 7, cx, cy); }
      Share(SamplePixel(buf, geo, cx, cy), e, 3);
    }
  }

  /** The below neighbour (cx, cy) receives 5/16 of the error. */
  lemma ShareBelow(buf: seq<Byte>, geo: Geometry, x: int, y: int, pixel: Color, newPixel: Color, cx: int, cy: int, k: nat)
    requires geo.Valid() && |buf| == geo.BufferLength()
    requires geo.srcWidth >= geo.gridWidth && geo.srcHeight >= geo.gridHeight
    requires cx == x && cy == y + 1 && k == 5 && InGrid(geo, cx, cy)
    ensures SamplePixel(FloydSteinberg(buf, geo, x, y, pixel, newPixel), geo, cx, cy)
         == Share(SamplePixel(buf, geo, cx, cy), QuantError(pixel, newPixel), k)
  {
    var e := QuantError(pixel, newPixel);
    var b1 := DistributeError(buf, geo, x, y, e, 1, 0, 7);
    var b2 := DistributeError(b1, geo, x, y, e, -1, 1, 3);
    var b3 := DistributeError(b2, geo, x, y, e, 0, 1, 5);
    calc {
      SamplePixel(FloydSteinberg(buf, geo, x, y, pixel, newPixel), geo, cx, cy);
      SamplePixel(DistributeError(b3, geo, x, y, e, 1, 1, 1), geo, cx, cy);
    == { ShareElsewhere(b3, geo, x, y, e, 1, 1, 1, cx, cy); }
      SamplePixel(b3, geo, cx, cy);
    == { ShareHere(b2, geo, x, y, e, 0, 1, 5, cx, cy); }
      Share(SamplePixel(b2, geo, cx, cy), e, 5);
    == { ShareElsewhere(b1, geo, x, y, e, -1, 1, 3, cx, cy); }
      Share(SamplePixel(b1, geo, cx, cy), e, 5);
    == { ShareElsewhere(buf, geo, x, y, e, 1, 0, 7, cx, cy); }
      Share(SamplePixel(buf, geo, cx, cy), e, 5);
    }
  }

  /** The lower right neighbour (cx, cy) receives 1/16 of the error. */
  lemma ShareLowerRight(buf: seq<Byte>, geo: Geometry, x: int, y: int, pixel: Color, newPixel: Color, cx: int, cy: int, k: nat)
    requires geo.Valid() && |buf| == geo.BufferLength()
    requires geo.srcWidth >= geo.gridWidth && geo.srcHeight >= geo.gridHeight
    requires cx == x + 1 && cy == y + 1 && k == 1 && InGrid(geo, cx, cy)
    ensures SamplePixel(FloydSteinberg(buf, geo, x, y, pixel, newPixel), geo, cx, cy)
         == Share(SamplePixel(buf, geo, cx, cy), QuantError(pixel, newPixel), k)
  {
    var e := QuantError(pixel, newPixel);
    var b1 := DistributeError(buf, geo, x, y, e, 1, 0, 7);
    var b2 := DistributeError(b1, geo, x, y, e, -1, 1, 3);
    var b3 := DistributeError(b2, geo, x, y, e, 0, 1, 5);
    calc {
      SamplePixel(FloydSteinberg(buf, geo, x, y, pixel, newPixel), geo, cx, cy);
      SamplePixel(DistributeError(b3, geo, x, y, e, 1, 1, 1), geo, cx, cy);
    == { ShareHere(b3, geo, x, y, e, 1, 1, 1, cx, cy); }
      Share(SamplePixel(b3, geo, cx, cy), e, 1);
    == { ShareElsewhere(b2, geo, x, y, e, 0, 1, 5, cx, cy); }
      Share(SamplePixel(b2, geo, cx, cy), e, 1);
    == { ShareElsewhere(b1, geo, x, y, e, -1, 1, 3, cx, cy); }
      Share(SamplePixel(b1, geo, cx, cy), e, 1);
    == { ShareElsewhere(buf, geo, x, y, e, 1, 0, 7, cx, cy); }
      Share(SamplePixel(buf, geo, cx, cy), e, 1);
    }
  }

  /** A source smaller than the grid gives two cells one sample pixel, and
      then a step does reach a visited sample: on a 1 x 1 image with a 2 x 1
      grid, the share for the right neighbour of cell (0, 0) lands on the
      sample of cell (0, 0) itself and raises it from 100 to 143. */
  lemma SmallImageSharedSample(geo: Geometry, buf: seq<Byte>)
    requires geo == Geometry(1, 1, 2, 1) && buf == [100, 100, 100]
    ensures geo.Valid() && |buf| == geo.BufferLength() && InGrid(geo, 1, 0)
    ensures SampleIndex(geo, 1, 0) == SampleIndex(geo, 0, 0)
    ensures SamplePixel(FloydSteinberg(buf, geo, 0, 0, Color(100, 100, 100), Color(0, 0, 0)), geo, 0, 0)
         == Color(143, 143, 143)
  {
    SmallImageIndices();
    var before, after := Color(100, 100, 100), Color(0, 0, 0);
    calc {
      SamplePixel(FloydSteinberg(buf, geo, 0, 0, before, after), geo, 0, 0);
    == { SmallImageStep(geo, buf, before, after); }
      SamplePixel(DistributeError(buf, geo, 0, 0, QuantError(before, after), 1, 0, 7), geo, 0, 0);
    == { assert QuantError(before, after) == ColorError(100, 100, 100); }
      SamplePixel(DistributeError(buf, geo, 0, 0, ColorError(100, 100, 100), 1, 0, 7), geo, 0, 0);
    == { SmallImageRightShare(); }
      Color(143, 143, 143);
    }
  }

  /** On a one-row grid of width two only the right neighbour of cell
      (0, 0) is inside, so the step is that one share. */
  lemma SmallImageStep(geo: Geometry, buf: seq<Byte>, pixel: Color, newPixel: Color)
    requires geo == Geometry(1, 1, 2, 1) && |buf| == 3
    ensures FloydSteinberg(buf, geo, 0, 0, pixel, newPixel)
         == DistributeError(buf, geo, 0, 0, QuantError(pixel, newPixel), 1, 0, 7)
  {
    OnlyRightNeighbour(buf, geo, 0, 0, pixel, newPixel);
  }

  /** A cell whose right neighbour is the only one inside the grid passes
      its error on in that one share. */
  lemma OnlyRightNeighbour(buf: seq<Byte>, geo: Geometry, x: int, y: int, pixel: Color, newPixel: Color)
    requires geo.Valid() && |buf| == geo.BufferLength()
    requires !InGrid(geo, x - 1, y + 1) && !InGrid(geo, x, y + 1) && !InGrid(geo, x + 1, y + 1)
    ensures FloydSteinberg(buf, geo, x, y, pixel, newPixel)
         == DistributeError(buf, geo, x, y, QuantError(pixel, newPixel), 1, 0, 7)
  {
  }

  /** Both cells of the 2 x 1 grid over a 1 x 1 image sample pixel 0. */
  lemma SmallImageIndices()
    ensures SampleIndex(Geometry(1, 1, 2, 1), 0, 0) == 0 && SampleIndex(Geometry(1, 1, 2, 1), 1, 0) == 0
  {
    SampleCoordIsQuotient(0, 2, 1);
    SampleCoordIsQuotient(1, 2, 1);
    SampleCoordIsQuotient(0, 1, 1);
  }

  /** The right neighbour's 7/16 of an error of 100 turns 100 into 143. */
  lemma SmallImageRightShare()
    ensures SamplePixel(DistributeError([100, 100, 100], Geometry(1, 1, 2, 1), 0, 0, ColorError(100, 100, 100), 1, 0, 7),
                        Geometry(1, 1, 2, 1), 0, 0) == Color(143, 143, 143)
  {
    var geo := Geometry(1, 1, 2, 1);
    SmallImageIndices();
    DiffuseInIntegers(100, 100, 7);
    DistributeErrorEffect([100, 100, 100], geo, 0, 0, ColorError(100, 100, 100), 1, 0, 7);
  }

  /** distributeError on the buffer itself. */
  method DistributeErrorAt(data: array<Byte>, geo: Geometry, x: int, y: int, err: ColorError, dx: int, dy: int, k: nat)
    requires geo.Valid() && data.Length == geo.BufferLength()
    modifies data
    ensures data[..] == DistributeError(old(data[..]), geo, x, y, err, dx, dy, k)
  {
    var nx, ny := x + dx, y + dy;
    if nx >= 0 && nx < geo.gridWidth && ny >= 0 && ny < geo.gridHeight {
      var centerX := SampleCoord(nx, geo.gridWidth, geo.srcWidth);
      var centerY := SampleCoord(ny, geo.gridHeight, geo.srcHeight);
      var index := (centerY * geo.srcWidth + centerX) * 3;
      assert index == SampleIndex(geo, nx, ny);
      DitherIndexIsSampleIndex(geo, nx, ny);
      assert index as real == DitherIndex(geo, nx, ny);
      data[index] := Diffuse(data[index], err.r, k);
      data[index + 1] := Diffuse(data[index + 1], err.g, k);
      data[index + 2] := Diffuse(data[index + 2], err.b, k);
    }
  }

  /** floydSteinbergDither on the buffer itself. */
  method FloydSteinbergDither(x: int, y: int, pixel: Color, newPixel: Color, geo: Geometry, data: array<Byte>)
    requires geo.Valid() && data.Length == geo.BufferLength()
    modifies data
    ensures data[..] == FloydSteinberg(old(data[..]), geo, x, y, pixel, newPixel)
  {
    var error := ColorError(pixel.r - newPixel.r, pixel.g - newPixel.g, pixel.b - newPixel.b);
    DistributeErrorAt(data, geo, x, y, error, 1, 0, 7);
    DistributeErrorAt(data, geo, x, y, error, -1, 1, 3);
    DistributeErrorAt(data, geo, x, y, error, 0, 1, 5);
    DistributeErrorAt(data, geo, x, y, error, 1, 1, 1);
  }
}
