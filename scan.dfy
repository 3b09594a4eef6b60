/** The two scans of processMosaic.  Cells are visited row by row; the
    plain scan matches the sample pixel of each cell in the decoded image,
    the dithering scan matches it in a private copy of the image and then
    diffuses the matching error onto that copy. */
module Scan {

  import opened Rgb
  import opened Sampler
  import opened Matcher
  import opened Dither
  import opened Palettes
  import Arith

  /** The mosaic grid of the processing module. */
  const MosaicWidth: nat := 64
  const MosaicHeight: nat := 96

  /** Cell number k of the row-major visiting order is cell (k % W, k / W). */
  lemma CellCoords(geo: Geometry, k: int)
    requires geo.Valid() && 0 <= k < geo.Cells()
    ensures InGrid(geo, k % geo.gridWidth, k / geo.gridWidth)
    ensures k == (k / geo.gridWidth) * geo.gridWidth + k % geo.gridWidth
  {
    Arith.QuotientBelow(k, geo.gridWidth, geo.gridHeight);
  }

  /** The pixel the scan reads for cell number k of buf. */
  function CellPixel(buf: seq<Byte>, geo: Geometry, k: int): Color
    requires geo.Valid() && |buf| == geo.BufferLength() && 0 <= k < geo.Cells()
  {
    CellCoords(geo, k);
    SamplePixel(buf, geo, k % geo.gridWidth, k / geo.gridWidth)
  }

  /** The list the plain scan has pushed after n cells (null, here None,
      when the pool is empty). */
  function QuantizedRun(buf: seq<Byte>, geo: Geometry, pool: seq<Color>, dist: Metric, n: nat): (cells: seq<Option<Color>>)
    requires geo.Valid() && |buf| == geo.BufferLength() && n <= geo.Cells()
    ensures |cells| == n
  {
    if n == 0 then []
    else QuantizedRun(buf, geo, pool, dist, n - 1) + [Closest(CellPixel(buf, geo, n - 1), pool, dist)]
  }

  /** With a non-empty pool the plain scan never pushes null, and every
      colour it pushes is a pool colour. */
  lemma {:induction false} QuantizedRunInPool(buf: seq<Byte>, geo: Geometry, pool: seq<Color>, dist: Metric, n: nat)
    requires geo.Valid() && |buf| == geo.BufferLength() && n <= geo.Cells() && |pool| > 0
    ensures forall k :: 0 <= k < n ==> QuantizedRun(buf, geo, pool, dist, n)[k].Some?
    ensures forall k :: 0 <= k < n ==> QuantizedRun(buf, geo, pool, dist, n)[k].value in pool
    decreases n
  {
    if n > 0 {
      QuantizedRunInPool(buf, geo, pool, dist, n - 1);
      var prev, cells := QuantizedRun(buf, geo, pool, dist, n - 1), QuantizedRun(buf, geo, pool, dist, n);
      assert forall k :: 0 <= k < n - 1 ==> cells[k] == prev[k];
    }
  }

  /** The whole plain scan. */
  function Quantized(buf: seq<Byte>, geo: Geometry, pool: seq<Color>, dist: Metric): (cells: seq<Option<Color>>)
    requires geo.Valid() && |buf| == geo.BufferLength()
    ensures |cells| == geo.Cells()
  {
    QuantizedRun(buf, geo, pool, dist, geo.Cells())
  }

  /** Entry k of the plain scan is the pool colour closest to the sample
      pixel of cell k. */
  lemma {:induction false} QuantizedRunCell(buf: seq<Byte>, geo: Geometry, pool: seq<Color>, dist: Metric, n: nat, k: nat)
    requires geo.Valid() && |buf| == geo.BufferLength() && k < n <= geo.Cells()
    ensures QuantizedRun(buf, geo, pool, dist, n)[k] == Closest(CellPixel(buf, geo, k), pool, dist)
    decreases n
  {
    if k < n - 1 {
      QuantizedRunCell(buf, geo, pool, dist, n - 1, k);
    }
  }

  /** Entry y*W + x of the plain scan is the nearest colour of the sample
      of cell (x, y); with a non-empty pool every entry is a pool colour. */
  lemma QuantizedCell(buf: seq<Byte>, geo: Geometry, pool: seq<Color>, dist: Metric, x: int, y: int)
    requires geo.Valid() && |buf| == geo.BufferLength() && InGrid(geo, x, y)
    ensures 0 <= y * geo.gridWidth + x < geo.Cells()
    ensures Quantized(buf, geo, pool, dist)[y * geo.gridWidth + x] == Closest(SamplePixel(buf, geo, x, y), pool, dist)
    ensures |pool| > 0 ==> Quantized(buf, geo, pool, dist)[y * geo.gridWidth + x].Some?
    ensures |pool| > 0 ==> Quantized(buf, geo, pool, dist)[y * geo.gridWidth + x].value in pool
  {
    var k := y * geo.gridWidth + x;
    if |pool| > 0 {
      QuantizedRunInPool(buf, geo, pool, dist, geo.Cells());
    }
    Arith.RowMajorBound(x, y, geo.gridWidth, geo.gridHeight);
    Arith.RowMajor(k, geo.gridWidth, x, y);
    QuantizedRunCell(buf, geo, pool, dist, geo.Cells(), k);
  }

  /** What the dithering scan carries along: its working buffer and the
      colours pushed so far. */
  datatype ScanState = ScanState(buf: seq<Byte>, cells: seq<Color>)

  /** One cell (x, y) of the dithering scan: match the sample in the
      working buffer, push the match and diffuse its error. */
  function CellStep(s: ScanState, geo: Geometry, pool: seq<Color>, dist: Metric, x: int, y: int): (r: ScanState)
    requires geo.Valid() && |s.buf| == geo.BufferLength() && |pool| > 0 && InGrid(geo, x, y)
    ensures |r.buf| == |s.buf|
    ensures r.cells == s.cells + [Closest(SamplePixel(s.buf, geo, x, y), pool, dist).value]
  {
    var pixel := SamplePixel(s.buf, geo, x, y);
    var c := Closest(pixel, pool, dist).value;
    ScanState(FloydSteinberg(s.buf, geo, x, y, pixel, c), s.cells + [c])
  }

  /** The same step addressed by cell number k. */
  function DitherStep(s: ScanState, geo: Geometry, pool: seq<Color>, dist: Metric, k: nat): (r: ScanState)
    requires geo.Valid() && |s.buf| == geo.BufferLength() && |pool| > 0 && k < geo.Cells()
    ensures |r.buf| == |s.buf|
    ensures r.cells == s.cells + [Closest(CellPixel(s.buf, geo, k), pool, dist).value]
  {
    CellCoords(geo, k);
    CellStep(s, geo, pool, dist, k % geo.gridWidth, k / geo.gridWidth)
  }

  /** The dithering scan after n cells.  An empty pool is excluded: the
      source would read newPixel.r of null and throw. */
  function DitherRun(buf: seq<Byte>, geo: Geometry, pool: seq<Color>, dist: Metric, n: nat): (s: ScanState)
    requires geo.Valid() && |buf| == geo.BufferLength() && |pool| > 0 && n <= geo.Cells()
    ensures |s.buf| == |buf| && |s.cells| == n
    decreases n
  {
    if n == 0 then ScanState(buf, [])
    else DitherStep(DitherRun(buf, geo, pool, dist, n - 1), geo, pool, dist, n - 1)
  }

  /** Every colour the dithering scan pushes is a pool colour. */
  lemma {:induction false} DitherRunInPool(buf: seq<Byte>, geo: Geometry, pool: seq<Color>, dist: Metric, n: nat)
    requires geo.Valid() && |buf| == geo.BufferLength() && |pool| > 0 && n <= geo.Cells()
    ensures forall k :: 0 <= k < n ==> DitherRun(buf, geo, pool, dist, n).cells[k] in pool
    decreases n
  {
    if n > 0 {
      DitherRunInPool(buf, geo, pool, dist, n - 1);
      var prev, cells := DitherRun(buf, geo, pool, dist, n - 1).cells, DitherRun(buf, geo, pool, dist, n).cells;
      assert forall k :: 0 <= k < n - 1 ==> cells[k] == prev[k];
    }
  }

  /** The whole dithering scan. */
  function Dithered(buf: seq<Byte>, geo: Geometry, pool: seq<Color>, dist: Metric): (cells: seq<Color>)
    requires geo.Valid() && |buf| == geo.BufferLength() && |pool| > 0
    ensures |cells| == geo.Cells()
  {
    DitherRun(buf, geo, pool, dist, geo.Cells()).cells
  }

  /** Later steps never change colours already pushed. */
  lemma {:induction false} DitherRunPrefix(buf: seq<Byte>, geo: Geometry, pool: seq<Color>, dist: Metric, m: nat, n: nat)
    requires geo.Valid() && |buf| == geo.BufferLength() && |pool| > 0 && m <= n <= geo.Cells()
    ensures DitherRun(buf, geo, pool, dist, n).cells[..m] == DitherRun(buf, geo, pool, dist, m).cells
    decreases n, 1
  {
    if m < n {
      DitherRunPrefixStep(buf, geo, pool, dist, m, n);
    } else {
      TakeAll(DitherRun(buf, geo, pool, dist, n).cells);
    }
  }

  lemma {:induction false} DitherRunPrefixStep(buf: seq<Byte>, geo: Geometry, pool: seq<Color>, dist: Metric, m: nat, n: nat)
    requires geo.Valid() && |buf| == geo.BufferLength() && |pool| > 0 && m < n <= geo.Cells()
    ensures DitherRun(buf, geo, pool, dist, n).cells[..m] == DitherRun(buf, geo, pool, dist, m).cells
    decreases n, 0
  {
    DitherRunPrefix(buf, geo, pool, dist, m, n - 1);
    DitherRunExtends(buf, geo, pool, dist, n);
    TakeChain(DitherRun(buf, geo, pool, dist, n).cells, DitherRun(buf, geo, pool, dist, n - 1).cells,
              DitherRun(buf, geo, pool, dist, m).cells, m);
  }

  /** Each step appends exactly one colour. */
  lemma DitherRunExtends(buf: seq<Byte>, geo: Geometry, pool: seq<Color>, dist: Metric, n: nat)
    requires geo.Valid() && |buf| == geo.BufferLength() && |pool| > 0 && 0 < n <= geo.Cells()
    ensures DitherRun(buf, geo, pool, dist, n).cells[..n - 1] == DitherRun(buf, geo, pool, dist, n - 1).cells
  {
    var prev := DitherRun(buf, geo, pool, dist, n - 1);
    TakeAppend(prev.cells, Closest(CellPixel(prev.buf, geo, n - 1), pool, dist).value);
  }

  lemma TakeAppend<T>(a: seq<T>, x: T)
    ensures (a + [x])[..|a|] == a
  {
  }

  lemma TakeOfTake<T>(a: seq<T>, b: seq<T>, m: nat)
    requires |b| <= |a| && a[..|b|] == b && m <= |b|
    ensures a[..m] == b[..m]
  {
    assert a[..m] == a[..|b|][..m];
  }

  lemma TakeChain<T>(a: seq<T>, b: seq<T>, c: seq<T>, m: nat)
    requires m <= |b| <= |a| && a[..|b|] == b && b[..m] == c
    ensures a[..m] == c
  {
    TakeOfTake(a, b, m);
  }

  lemma TakeAll<T>(a: seq<T>)
    ensures a[..|a|] == a
  {
  }

  /** Colour k of the dithering scan is the nearest colour of cell k's
      sample as the error diffused by cells 0..k-1 left it. */
  lemma DitheredCell(buf: seq<Byte>, geo: Geometry, pool: seq<Color>, dist: Metric, k: nat)
    requires geo.Valid() && |buf| == geo.BufferLength() && |pool| > 0 && k < geo.Cells()
    ensures Some(Dithered(buf, geo, pool, dist)[k])
         == Closest(CellPixel(DitherRun(buf, geo, pool, dist, k).buf, geo, k), pool, dist)
  {
    DitherRunPrefix(buf, geo, pool, dist, k + 1, geo.Cells());
    assert Dithered(buf, geo, pool, dist)[k] == DitherRun(buf, geo, pool, dist, k + 1).cells[k];
  }

  /** Nothing has been diffused before the first cell, so both scans start
      with the same colour. */
  lemma FirstCellsAgree(buf: seq<Byte>, geo: Geometry, pool: seq<Color>, dist: Metric)
    requires geo.Valid() && |buf| == geo.BufferLength() && |pool| > 0
    ensures Some(Dithered(buf, geo, pool, dist)[0]) == Quantized(buf, geo, pool, dist)[0]
  {
    DitheredCell(buf, geo, pool, dist, 0);
    QuantizedRunCell(buf, geo, pool, dist, geo.Cells(), 0);
  }

  /** When every cell has a sample pixel of its own, the final working
      buffer still holds, for every visited cell, the pixel it was matched
      from: the colours pushed are exactly the nearest colours of the final
      buffer's samples. */
  lemma {:induction false} DitherRunFreezesVisited(buf: seq<Byte>, geo: Geometry, pool: seq<Color>, dist: Metric, n: nat, k: nat)
    requires geo.Valid() && |buf| == geo.BufferLength() && |pool| > 0 && k < n <= geo.Cells()
    requires geo.srcWidth >= geo.gridWidth && geo.srcHeight >= geo.gridHeight
    ensures CellPixel(DitherRun(buf, geo, pool, dist, n).buf, geo, k) == CellPixel(DitherRun(buf, geo, pool, dist, k).buf, geo, k)
    decreases n, 1
  {
    if k < n - 1 {
      DitherRunFreezesVisitedStep(buf, geo, pool, dist, n, k);
    } else {
      assert n == k + 1;
      DitherRunUnfold(buf, geo, pool, dist, k + 1);
      DitherStepKeepsVisited(DitherRun(buf, geo, pool, dist, k), geo, pool, dist, k, k);
    }
  }

  /** The inductive step: cell n - 1 is not the frozen cell k. */
  lemma {:induction false} DitherRunFreezesVisitedStep(buf: seq<Byte>, geo: Geometry, pool: seq<Color>, dist: Metric, n: nat, k: nat)
    requires geo.Valid() && |buf| == geo.BufferLength() && |pool| > 0 && k < n - 1 && n <= geo.Cells()
    requires geo.srcWidth >= geo.gridWidth && geo.srcHeight >= geo.gridHeight
    ensures CellPixel(DitherRun(buf, geo, pool, dist, n).buf, geo, k) == CellPixel(DitherRun(buf, geo, pool, dist, k).buf, geo, k)
    decreases n, 0
  {
    DitherRunFreezesVisited(buf, geo, pool, dist, n - 1, k);
    DitherRunUnfold(buf, geo, pool, dist, n);
    DitherStepKeepsVisited(DitherRun(buf, geo, pool, dist, n - 1), geo, pool, dist, n - 1, k);
  }

  /** So every dithered colour is the match of its cell's sample in the
      final working buffer. */
  lemma DitheredMatchesFinalBuffer(buf: seq<Byte>, geo: Geometry, pool: seq<Color>, dist: Metric, k: nat)
    requires geo.Valid() && |buf| == geo.BufferLength() && |pool| > 0 && k < geo.Cells()
    requires geo.srcWidth >= geo.gridWidth && geo.srcHeight >= geo.gridHeight
    ensures Some(Dithered(buf, geo, pool, dist)[k])
         == Closest(CellPixel(DitherRun(buf, geo, pool, dist, geo.Cells()).buf, geo, k), pool, dist)
  {
    DitheredCell(buf, geo, pool, dist, k);
    DitherRunFreezesVisited(buf, geo, pool, dist, geo.Cells(), k);
  }

  lemma DitherRunUnfold(buf: seq<Byte>, geo: Geometry, pool: seq<Color>, dist: Metric, n: nat)
    requires geo.Valid() && |buf| == geo.BufferLength() && |pool| > 0 && 0 < n <= geo.Cells()
    ensures DitherRun(buf, geo, pool, dist, n) == DitherStep(DitherRun(buf, geo, pool, dist, n - 1), geo, pool, dist, n - 1)
  {
  }

  /** One step of the scan leaves the samples of cells 0..j alone. */
  lemma DitherStepKeepsVisited(s: ScanState, geo: Geometry, pool: seq<Color>, dist: Metric, j: nat, k: nat)
    requires geo.Valid() && |s.buf| == geo.BufferLength() && |pool| > 0 && k <= j < geo.Cells()
    requires geo.srcWidth >= geo.gridWidth && geo.srcHeight >= geo.gridHeight
    ensures CellPixel(DitherStep(s, geo, pool, dist, j).buf, geo, k) == CellPixel(s.buf, geo, k)
  {
    CellCoords(geo, j);
    CellCoords(geo, k);
    var x, y := j % geo.gridWidth, j / geo.gridWidth;
    var pixel := SamplePixel(s.buf, geo, x, y);
    var c := Closest(pixel, pool, dist).value;
    assert DitherStep(s, geo, pool, dist, j).buf == FloydSteinberg(s.buf, geo, x, y, pixel, c);
    VisitedSamplesUnchanged(s.buf, geo, x, y, pixel, c, k % geo.gridWidth, k / geo.gridWidth);
  }


  /** Every sample pixel of buf is already a pool colour. */
  predicate SamplesInPool(buf: seq<Byte>, geo: Geometry, pool: seq<Color>)
    requires geo.Valid() && |buf| == geo.BufferLength()
  {
    forall k :: 0 <= k < geo.Cells() ==> CellPixel(buf, geo, k) in pool
  }

  /** The sample pixels of the first n cells, in visiting order. */
  function Samples(buf: seq<Byte>, geo: Geometry, n: nat): seq<Color>
    requires geo.Valid() && |buf| == geo.BufferLength() && n <= geo.Cells()
  {
    seq(n, k requires 0 <= k < n => CellPixel(buf, geo, k))
  }

  lemma SamplesSnoc(buf: seq<Byte>, geo: Geometry, n: nat)
    requires geo.Valid() && |buf| == geo.BufferLength() && 0 < n <= geo.Cells()
    ensures Samples(buf, geo, n) == Samples(buf, geo, n - 1) + [CellPixel(buf, geo, n - 1)]
  {
  }

  /** With a distance that is zero only on equal colours, an image whose
      samples are all palette colours has no error to diffuse: dithering
      leaves the buffer alone and pushes the samples themselves. */
  lemma {:induction false} DitherRunExact(buf: seq<Byte>, geo: Geometry, pool: seq<Color>, dist: Metric, n: nat)
    requires geo.Valid() && |buf| == geo.BufferLength() && |pool| > 0 && n <= geo.Cells()
    requires Separates(dist) && SamplesInPool(buf, geo, pool)
    ensures DitherRun(buf, geo, pool, dist, n) == ScanState(buf, Samples(buf, geo, n))
    decreases n
  {
    if n > 0 {
      DitherRunExact(buf, geo, pool, dist, n - 1);
      DitherRunExactStep(buf, geo, pool, dist, n - 1);
    } else {
      assert Samples(buf, geo, 0) == [];
    }
  }

  /** The inductive step of DitherRunExact: one more exact cell. */
  lemma DitherRunExactStep(buf: seq<Byte>, geo: Geometry, pool: seq<Color>, dist: Metric, k: nat)
    requires geo.Valid() && |buf| == geo.BufferLength() && |pool| > 0 && k < geo.Cells()
    requires Separates(dist) && CellPixel(buf, geo, k) in pool
    requires DitherRun(buf, geo, pool, dist, k) == ScanState(buf, Samples(buf, geo, k))
    ensures DitherRun(buf, geo, pool, dist, k + 1) == ScanState(buf, Samples(buf, geo, k + 1))
  {
    DitherStepExact(DitherRun(buf, geo, pool, dist, k), geo, pool, dist, k);
    SamplesSnoc(buf, geo, k + 1);
  }

  /** A step on a cell whose sample is a pool colour pushes that colour
      and leaves the buffer as it was. */
  lemma DitherStepExact(s: ScanState, geo: Geometry, pool: seq<Color>, dist: Metric, k: nat)
    requires geo.Valid() && |s.buf| == geo.BufferLength() && |pool| > 0 && k < geo.Cells()
    requires Separates(dist) && CellPixel(s.buf, geo, k) in pool
    ensures DitherStep(s, geo, pool, dist, k) == ScanState(s.buf, s.cells + [CellPixel(s.buf, geo, k)])
  {
    CellCoords(geo, k);
    var x, y := k % geo.gridWidth, k / geo.gridWidth;
    var pixel := SamplePixel(s.buf, geo, x, y);
    ClosestOfPoolColor(pixel, pool, dist);
    FloydSteinbergExact(s.buf, geo, x, y, pixel);
  }

  /** For such an image the two scans give the same mosaic. */
  lemma DitherAgreesOnPaletteImages(buf: seq<Byte>, geo: Geometry, pool: seq<Color>, dist: Metric)
    requires geo.Valid() && |buf| == geo.BufferLength() && |pool| > 0
    requires Separates(dist) && SamplesInPool(buf, geo, pool)
    ensures forall k :: 0 <= k < geo.Cells() ==> Some(Dithered(buf, geo, pool, dist)[k]) == Quantized(buf, geo, pool, dist)[k]
  {
    DitherRunExact(buf, geo, pool, dist, geo.Cells());
    forall k | 0 <= k < geo.Cells()
      ensures Some(Dithered(buf, geo, pool, dist)[k]) == Quantized(buf, geo, pool, dist)[k]
    {
      QuantizedRunCell(buf, geo, pool, dist, geo.Cells(), k);
      ClosestOfPoolColor(CellPixel(buf, geo, k), pool, dist);
    }
  }

  /** The Euclidean instance of the above. */
  lemma EuclideanDitherAgreesOnPaletteImages(buf: seq<Byte>, geo: Geometry, pool: seq<Color>)
    requires geo.Valid() && |buf| == geo.BufferLength() && |pool| > 0
    requires SamplesInPool(buf, geo, pool)
    ensures Quantized(buf, geo, pool, SquaredEuclidean) == Present(Dithered(buf, geo, pool, SquaredEuclidean))
  {
    SquaredEuclideanSeparates();
    DitherAgreesOnPaletteImages(buf, geo, pool, SquaredEuclidean);
  }

  /** euclideanDistance in the plain scan: a non-negative metric whose
      square is SquaredEuclidean pushes the same list as SquaredEuclidean. */
  lemma {:induction false} QuantizedRunRoot(buf: seq<Byte>, geo: Geometry, pool: seq<Color>, d: Metric, n: nat)
    requires geo.Valid() && |buf| == geo.BufferLength() && n <= geo.Cells()
    requires forall p, q :: d(p, q) >= 0.0 && d(p, q) * d(p, q) == SquaredEuclidean(p, q)
    ensures QuantizedRun(buf, geo, pool, d, n) == QuantizedRun(buf, geo, pool, SquaredEuclidean, n)
    decreases n
  {
    if n > 0 {
      QuantizedRunRoot(buf, geo, pool, d, n - 1);
      RootMetricMatches(CellPixel(buf, geo, n - 1), pool, d);
    }
  }

  lemma QuantizedRoot(buf: seq<Byte>, geo: Geometry, pool: seq<Color>, d: Metric)
    requires geo.Valid() && |buf| == geo.BufferLength()
    requires forall p, q :: d(p, q) >= 0.0 && d(p, q) * d(p, q) == SquaredEuclidean(p, q)
    ensures Quantized(buf, geo, pool, d) == Quantized(buf, geo, pool, SquaredEuclidean)
  {
    QuantizedRunRoot(buf, geo, pool, d, geo.Cells());
  }

  /** One dithering step under such a metric matches, and so diffuses,
      exactly as under SquaredEuclidean. */
  lemma DitherStepRoot(s: ScanState, geo: Geometry, pool: seq<Color>, d: Metric, k: nat)
    requires geo.Valid() && |s.buf| == geo.BufferLength() && |pool| > 0 && k < geo.Cells()
    requires forall p, q :: d(p, q) >= 0.0 && d(p, q) * d(p, q) == SquaredEuclidean(p, q)
    ensures DitherStep(s, geo, pool, d, k) == DitherStep(s, geo, pool, SquaredEuclidean, k)
  {
    CellCoords(geo, k);
    RootMetricMatches(SamplePixel(s.buf, geo, k % geo.gridWidth, k / geo.gridWidth), pool, d);
  }

  lemma {:induction false} DitherRunRoot(buf: seq<Byte>, geo: Geometry, pool: seq<Color>, d: Metric, n: nat)
    requires geo.Valid() && |buf| == geo.BufferLength() && |pool| > 0 && n <= geo.Cells()
    requires forall p, q :: d(p, q) >= 0.0 && d(p, q) * d(p, q) == SquaredEuclidean(p, q)
    ensures DitherRun(buf, geo, pool, d, n) == DitherRun(buf, geo, pool, SquaredEuclidean, n)
    decreases n
  {
    if n > 0 {
      DitherRunRoot(buf, geo, pool, d, n - 1);
      DitherRunRootStep(buf, geo, pool, d, n - 1);
    }
  }

  lemma DitherRunRootStep(buf: seq<Byte>, geo: Geometry, pool: seq<Color>, d: Metric, k: nat)
    requires geo.Valid() && |buf| == geo.BufferLength() && |pool| > 0 && k < geo.Cells()
    requires forall p, q :: d(p, q) >= 0.0 && d(p, q) * d(p, q) == SquaredEuclidean(p, q)
    requires DitherRun(buf, geo, pool, d, k) == DitherRun(buf, geo, pool, SquaredEuclidean, k)
    ensures DitherRun(buf, geo, pool, d, k + 1) == DitherRun(buf, geo, pool, SquaredEuclidean, k + 1)
  {
    DitherStepRoot(DitherRun(buf, geo, pool, d, k), geo, pool, d, k);
  }

  /** euclideanDistance in the dithering scan gives the same colours as
      SquaredEuclidean. */
  lemma DitheredRoot(buf: seq<Byte>, geo: Geometry, pool: seq<Color>, d: Metric)
    requires geo.Valid() && |buf| == geo.BufferLength() && |pool| > 0
    requires forall p, q :: d(p, q) >= 0.0 && d(p, q) * d(p, q) == SquaredEuclidean(p, q)
    ensures Dithered(buf, geo, pool, d) == Dithered(buf, geo, pool, SquaredEuclidean)
  {
    DitherRunRoot(buf, geo, pool, d, geo.Cells());
  }

  /** A list of colours as a list in which nulls could have stood. */
  function Present(cells: seq<Color>): seq<Option<Color>>
  {
    seq(|cells|, k requires 0 <= k < |cells| => Some(cells[k]))
  }

  /** Cell (x, y) is cell number y*W + x of the visiting order. */
  lemma CellNumber(buf: seq<Byte>, geo: Geometry, x: int, y: int)
    requires geo.Valid() && |buf| == geo.BufferLength() && InGrid(geo, x, y)
    ensures 0 <= y * geo.gridWidth + x < geo.Cells()
    ensures (y * geo.gridWidth + x) % geo.gridWidth == x && (y * geo.gridWidth + x) / geo.gridWidth == y
  {
    Arith.RowMajorBound(x, y, geo.gridWidth, geo.gridHeight);
    Arith.RowMajor(y * geo.gridWidth + x, geo.gridWidth, x, y);
  }


  /** A position of the two nested loops: y rows done and x cells of row
      y, or the end of the grid. */
  predicate ScanPoint(geo: Geometry, y: nat, x: nat) {
    y <= geo.gridHeight && x <= geo.gridWidth && (y == geo.gridHeight ==> x == 0)
  }

  /** The plain scan in the coordinates of its loops: the list after rows
      0..y-1 and the first x cells of row y. */
  function PlainScan(buf: seq<Byte>, geo: Geometry, pool: seq<Color>, dist: Metric, y: nat, x: nat): (r: seq<Option<Color>>)
    requires geo.Valid() && |buf| == geo.BufferLength() && ScanPoint(geo, y, x)
    ensures |r| == y * geo.gridWidth + x
    decreases y, x
  {
    if x == 0 then
      if y == 0 then [] else RowStart(geo, y); PlainScan(buf, geo, pool, dist, y - 1, geo.gridWidth)
    else
      PlainScan(buf, geo, pool, dist, y, x - 1) + [Closest(SamplePixel(buf, geo, x - 1, y), pool, dist)]
  }

  /** The start of row y is cell number y*W, and the end of the grid is
      cell number W*H. */
  lemma RowStart(geo: Geometry, y: nat)
    requires geo.Valid() && 0 < y <= geo.gridHeight
    ensures (y - 1) * geo.gridWidth + geo.gridWidth == y * geo.gridWidth <= geo.Cells()
  {
    Arith.MulMonotone(y, geo.gridHeight, geo.gridWidth);
  }

  /** The loop form and the cell-number form of the plain scan agree:
      position (y, x) of the loops is cell number n = y*W + x. */
  lemma {:induction false} PlainScanIsQuantizedRun(buf: seq<Byte>, geo: Geometry, pool: seq<Color>, dist: Metric, y: nat, x: nat, n: nat)
    requires geo.Valid() && |buf| == geo.BufferLength() && ScanPoint(geo, y, x)
    requires n == y * geo.gridWidth + x && n <= geo.Cells()
    ensures PlainScan(buf, geo, pool, dist, y, x) == QuantizedRun(buf, geo, pool, dist, n)
    decreases y, x, 1
  {
    if x == 0 {
      if y > 0 {
        RowStart(geo, y);
        PlainScanIsQuantizedRun(buf, geo, pool, dist, y - 1, geo.gridWidth, n);
      }
    } else {
      PlainScanStep(buf, geo, pool, dist, y, x, n);
    }
  }

  /** The inductive step within a row: cell x - 1 of row y is cell number
      n - 1. */
  lemma {:induction false} PlainScanStep(buf: seq<Byte>, geo: Geometry, pool: seq<Color>, dist: Metric, y: nat, x: nat, n: nat)
    requires geo.Valid() && |buf| == geo.BufferLength() && ScanPoint(geo, y, x) && x > 0
    requires n == y * geo.gridWidth + x && n <= geo.Cells()
    ensures PlainScan(buf, geo, pool, dist, y, x) == QuantizedRun(buf, geo, pool, dist, n)
    decreases y, x, 0
  {
    PlainScanIsQuantizedRun(buf, geo, pool, dist, y, x - 1, n - 1);
    CellNumber(buf, geo, x - 1, y);
    CellPixelOf(buf, geo, x - 1, y, n - 1);
    QuantizedRunSnoc(buf, geo, pool, dist, n - 1);
  }

  /** After the last row the loops have produced the whole plain scan. */
  lemma PlainScanComplete(buf: seq<Byte>, geo: Geometry, pool: seq<Color>, dist: Metric)
    requires geo.Valid() && |buf| == geo.BufferLength()
    ensures PlainScan(buf, geo, pool, dist, geo.gridHeight, 0) == Quantized(buf, geo, pool, dist)
  {
    PlainScanIsQuantizedRun(buf, geo, pool, dist, geo.gridHeight, 0, geo.Cells());
  }

  /** Position (y, x) of the two nested loops is cell number y*W + x,
      and it is at most the number of cells. */
  lemma ScanPointCell(geo: Geometry, y: nat, x: nat)
    requires geo.Valid() && ScanPoint(geo, y, x)
    ensures 0 <= y * geo.gridWidth + x <= geo.Cells()
  {
    if y < geo.gridHeight {
      Arith.MulMonotone(y + 1, geo.gridHeight, geo.gridWidth);
      assert (y + 1) * geo.gridWidth == y * geo.gridWidth + geo.gridWidth;
    }
  }

  /** The dithering scan in the coordinates of its loops: the state after
      the cells before position (y, x). */
  function DitherScan(buf: seq<Byte>, geo: Geometry, pool: seq<Color>, dist: Metric, y: nat, x: nat): (s: ScanState)
    requires geo.Valid() && |buf| == geo.BufferLength() && |pool| > 0 && ScanPoint(geo, y, x)
    ensures |s.buf| == |buf|
  {
    ScanPointCell(geo, y, x);
    DitherRun(buf, geo, pool, dist, y * geo.gridWidth + x)
  }

  /** Step from cell number k = y*W + x to the next: the scan works on
      cell (x, y). */
  lemma DitherRunAt(buf: seq<Byte>, geo: Geometry, pool: seq<Color>, dist: Metric, x: int, y: int, k: nat)
    requires geo.Valid() && |buf| == geo.BufferLength() && |pool| > 0 && InGrid(geo, x, y)
    requires k == y * geo.gridWidth + x && k < geo.Cells()
    ensures DitherRun(buf, geo, pool, dist, k + 1) == CellStep(DitherRun(buf, geo, pool, dist, k), geo, pool, dist, x, y)
  {
    Arith.RowMajor(k, geo.gridWidth, x, y);
    DitherStepOf(DitherRun(buf, geo, pool, dist, k), geo, pool, dist, x, y, k);
  }

  /** One step of the inner loop: the state after cell (x, y) is CellStep
      of the state before it. */
  lemma DitherScanNext(buf: seq<Byte>, geo: Geometry, pool: seq<Color>, dist: Metric, y: nat, x: nat)
    requires geo.Valid() && |buf| == geo.BufferLength() && |pool| > 0 && InGrid(geo, x, y)
    ensures DitherScan(buf, geo, pool, dist, y, x + 1) == CellStep(DitherScan(buf, geo, pool, dist, y, x), geo, pool, dist, x, y)
  {
    Arith.RowMajorBound(x, y, geo.gridWidth, geo.gridHeight);
    DitherRunAt(buf, geo, pool, dist, x, y, y * geo.gridWidth + x);
  }

  /** The end of row y is the start of row y + 1. */
  lemma DitherScanNextRow(buf: seq<Byte>, geo: Geometry, pool: seq<Color>, dist: Metric, y: nat)
    requires geo.Valid() && |buf| == geo.BufferLength() && |pool| > 0 && y < geo.gridHeight
    ensures DitherScan(buf, geo, pool, dist, y + 1, 0) == DitherScan(buf, geo, pool, dist, y, geo.gridWidth)
  {
    assert (y + 1) * geo.gridWidth == y * geo.gridWidth + geo.gridWidth;
  }

  /** After the last row the loops have produced the whole dithering scan. */
  lemma DitherScanComplete(buf: seq<Byte>, geo: Geometry, pool: seq<Color>, dist: Metric)
    requires geo.Valid() && |buf| == geo.BufferLength() && |pool| > 0
    ensures DitherScan(buf, geo, pool, dist, geo.gridHeight, 0).cells == Dithered(buf, geo, pool, dist)
  {
  }

  /** The dithering scan, stopped at loop position (y, x), is in state st.
      DitherReachedIff shows this is just st == DitherScan(..., y, x).  The
      position is named through the bound variables row and col instead of
      y and x themselves: a term DitherScan(..., y, x) in a loop invariant
      would be unfolded by the verifier at every invariant check, through
      every dithering step, whereas under the quantifier it is only looked
      at when a lemma instantiates it. */
  ghost predicate DitherReached(buf: seq<Byte>, geo: Geometry, pool: seq<Color>, dist: Metric, y: nat, x: nat, st: ScanState)
  {
    forall row: nat, col: nat | row == y && col == x ::
      && geo.Valid() && |buf| == geo.BufferLength() && |pool| > 0 && ScanPoint(geo, row, col)
      && st == DitherScan(buf, geo, pool, dist, row, col)
  }

  /** DitherReached says exactly that st is the scan state at (y, x). */
  lemma DitherReachedIff(buf: seq<Byte>, geo: Geometry, pool: seq<Color>, dist: Metric, y: nat, x: nat, st: ScanState)
    requires geo.Valid() && |buf| == geo.BufferLength() && |pool| > 0 && ScanPoint(geo, y, x)
    ensures DitherReached(buf, geo, pool, dist, y, x, st) <==> st == DitherScan(buf, geo, pool, dist, y, x)
  {
  }

  /** The scan starts on the decoded buffer with no cells. */
  lemma DitherReachedStart(buf: seq<Byte>, geo: Geometry, pool: seq<Color>, dist: Metric)
    requires geo.Valid() && |buf| == geo.BufferLength() && |pool| > 0
    ensures DitherReached(buf, geo, pool, dist, 0, 0, ScanState(buf, []))
  {
  }

  /** The end of row y and the start of row y + 1 are the same state. */
  lemma DitherReachedNextRow(buf: seq<Byte>, geo: Geometry, pool: seq<Color>, dist: Metric, y: nat, st: ScanState)
    requires geo.Valid() && |buf| == geo.BufferLength() && |pool| > 0 && y < geo.gridHeight
    requires DitherReached(buf, geo, pool, dist, y, geo.gridWidth, st)
    ensures DitherReached(buf, geo, pool, dist, y + 1, 0, st)
  {
    assert st == DitherScan(buf, geo, pool, dist, y, geo.gridWidth);
    DitherScanNextRow(buf, geo, pool, dist, y);
  }

  /** At the end of the grid the scan has produced the dithered mosaic. */
  lemma DitherReachedComplete(buf: seq<Byte>, geo: Geometry, pool: seq<Color>, dist: Metric, st: ScanState)
    requires geo.Valid() && |buf| == geo.BufferLength() && |pool| > 0
    requires DitherReached(buf, geo, pool, dist, geo.gridHeight, 0, st)
    ensures st.cells == Dithered(buf, geo, pool, dist)
  {
    assert st == DitherScan(buf, geo, pool, dist, geo.gridHeight, 0);
    DitherScanComplete(buf, geo, pool, dist);
  }

  /** The eight mosaics of processMosaic, each named after its array.  The
      plain lists hold null (None) where the pool is empty. */
  datatype Variants = Variants(
    euclidean: seq<Option<Color>>, ciede: seq<Option<Color>>,
    euclideanFloyd: seq<Color>, ciedeFloyd: seq<Color>,
    euclideanGrayscales: seq<Option<Color>>, ciedeGrayscales: seq<Option<Color>>,
    euclideanFloydGrayscales: seq<Color>, ciedeFloydGrayscales: seq<Color>)

  lemma QuantizedRunSnoc(buf: seq<Byte>, geo: Geometry, pool: seq<Color>, dist: Metric, n: nat)
    requires geo.Valid() && |buf| == geo.BufferLength() && n < geo.Cells()
    ensures QuantizedRun(buf, geo, pool, dist, n + 1) == QuantizedRun(buf, geo, pool, dist, n) + [Closest(CellPixel(buf, geo, n), pool, dist)]
  {
  }

  lemma CellPixelOf(buf: seq<Byte>, geo: Geometry, x: int, y: int, n: int)
    requires geo.Valid() && |buf| == geo.BufferLength() && InGrid(geo, x, y)
    requires 0 <= n < geo.Cells() && n % geo.gridWidth == x && n / geo.gridWidth == y
    ensures CellPixel(buf, geo, n) == SamplePixel(buf, geo, x, y)
  {
  }

  /** DitherStep at cell number k = y*W + x works on cell (x, y). */
  lemma DitherStepOf(s: ScanState, geo: Geometry, pool: seq<Color>, dist: Metric, x: int, y: int, k: nat)
    requires geo.Valid() && |s.buf| == geo.BufferLength() && |pool| > 0 && InGrid(geo, x, y)
    requires k < geo.Cells() && k % geo.gridWidth == x && k / geo.gridWidth == y
    ensures DitherStep(s, geo, pool, dist, k) == CellStep(s, geo, pool, dist, x, y)
  {
  }

  /** What the dithering scan needs of a palette: keys that all decode,
      and at least one of them. */
  predicate Palette(keys: seq<string>) {
    |keys| > 0 && forall k :: k in keys ==> ParsesAsRgb(k)
  }

  /** The eight mosaics of a run over the given palettes. */
  function Expected(buf: seq<Byte>, geo: Geometry, colors: seq<string>, grayscales: seq<string>, ciede: Metric): Variants
    requires geo.Valid() && |buf| == geo.BufferLength() && Palette(colors) && Palette(grayscales)
  {
    Variants(
      Quantized(buf, geo, Decode(colors), SquaredEuclidean),
      Quantized(buf, geo, Decode(colors), ciede),
      Dithered(buf, geo, Decode(colors), SquaredEuclidean),
      Dithered(buf, geo, Decode(colors), ciede),
      Quantized(buf, geo, Decode(grayscales), SquaredEuclidean),
      Quantized(buf, geo, Decode(grayscales), ciede),
      Dithered(buf, geo, Decode(grayscales), SquaredEuclidean),
      Dithered(buf, geo, Decode(grayscales), ciede))
  }

}
