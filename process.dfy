/** processMosaic as the program runs it: the two nested loops of the
    plain scan over the decoded buffer, and the two nested loops of the
    dithering scan, each variant on its own copy of the buffer, proved to
    produce the mosaics the Scan module defines. */
module Process {

  import opened Rgb
  import opened Sampler
  import opened Matcher
  import opened Dither
  import opened Palettes
  import opened Scan

  /** Buffer.from(imageData): a private copy. */
  method CopyBuffer(src: array<Byte>) returns (dst: array<Byte>)
    ensures fresh(dst) && dst[..] == src[..]
  {
    dst := new Byte[src.Length];
    var i := 0;
    while i < src.Length
      invariant 0 <= i <= src.Length
      invariant dst[..i] == src[..i]
    {
      dst[i] := src[i];
      i := i + 1;
    }
  }

  /** The { r, g, b } of the sample pixel of cell (x, y). */
  method ReadSample(data: seq<Byte>, geo: Geometry, x: int, y: int) returns (pixel: Color)
    requires geo.Valid() && |data| == geo.BufferLength() && InGrid(geo, x, y)
    ensures pixel == SamplePixel(data, geo, x, y)
  {
    var centerX := SampleCoord(x, geo.gridWidth, geo.srcWidth);
    var centerY := SampleCoord(y, geo.gridHeight, geo.srcHeight);
    var index := (centerY * geo.srcWidth + centerX) * 3;
    assert index == SampleIndex(geo, x, y);
    pixel := Color(data[index], data[index + 1], data[index + 2]);
  }


  /** One push of the plain scan, at cell (x, y). */
  method PlainCell(pixel: Color, keys: seq<string>, dist: Metric, cells: seq<Option<Color>>,
                   ghost buf: seq<Byte>, geo: Geometry, ghost pool: seq<Color>, x: nat, y: nat) returns (next: seq<Option<Color>>)
    requires geo.Valid() && |buf| == geo.BufferLength() && InGrid(geo, x, y)
    requires forall key :: key in keys ==> ParsesAsRgb(key)
    requires pool == Decode(keys) && pixel == SamplePixel(buf, geo, x, y)
    requires cells == PlainScan(buf, geo, pool, dist, y, x)
    ensures next == PlainScan(buf, geo, pool, dist, y, x + 1)
  {
    var closest := FindClosestColor(pixel, keys, dist);
    next := cells + [closest];
  }

  /** One step of a dithering scan on its own working buffer. */
  method DitherCell(work: array<Byte>, keys: seq<string>, dist: Metric, cells: seq<Color>,
                    ghost buf: seq<Byte>, geo: Geometry, ghost pool: seq<Color>, x: nat, y: nat) returns (next: seq<Color>)
    requires geo.Valid() && |buf| == geo.BufferLength() && work.Length == geo.BufferLength() && InGrid(geo, x, y)
    requires Palette(keys) && pool == Decode(keys)
    requires DitherReached(buf, geo, pool, dist, y, x, ScanState(work[..], cells))
    modifies work
    ensures DitherReached(buf, geo, pool, dist, y, x + 1, ScanState(work[..], next))
  {
    var pixel := ReadSample(work[..], geo, x, y);
    var closest := FindClosestColor(pixel, keys, dist);
    FloydSteinbergDither(x, y, pixel, closest.value, geo, work);
    next := cells + [closest.value];
    DitherScanNext(buf, geo, pool, dist, y, x);
  }

  /** The four plain lists at loop position (y, x). */
  ghost predicate PlainAt(img: seq<Byte>, geo: Geometry, cp: seq<Color>, gp: seq<Color>, ciede: Metric, y: nat, x: nat,
                          euclidean: seq<Option<Color>>, ciedeCells: seq<Option<Color>>,
                          euclideanGrayscales: seq<Option<Color>>, ciedeGrayscales: seq<Option<Color>>)
  {
    && geo.Valid() && |img| == geo.BufferLength() && ScanPoint(geo, y, x)
    && euclidean == PlainScan(img, geo, cp, SquaredEuclidean, y, x)
    && ciedeCells == PlainScan(img, geo, cp, ciede, y, x)
    && euclideanGrayscales == PlainScan(img, geo, gp, SquaredEuclidean, y, x)
    && ciedeGrayscales == PlainScan(img, geo, gp, ciede, y, x)
  }

  /** The body of the plain loop: the four matches of cell (x, y). */
  method PlainCells(imageData: seq<Byte>, colors: seq<string>, grayscales: seq<string>, ciede: Metric,
                    geo: Geometry, ghost cp: seq<Color>, ghost gp: seq<Color>, x: nat, y: nat,
                    e0: seq<Option<Color>>, c0: seq<Option<Color>>, eg0: seq<Option<Color>>, cg0: seq<Option<Color>>)
    returns (euclidean: seq<Option<Color>>, ciedeCells: seq<Option<Color>>,
             euclideanGrayscales: seq<Option<Color>>, ciedeGrayscales: seq<Option<Color>>)
    requires InGrid(geo, x, y)
    requires Palette(colors) && Palette(grayscales) && cp == Decode(colors) && gp == Decode(grayscales)
    requires PlainAt(imageData, geo, cp, gp, ciede, y, x, e0, c0, eg0, cg0)
    ensures PlainAt(imageData, geo, cp, gp, ciede, y, x + 1, euclidean, ciedeCells, euclideanGrayscales, ciedeGrayscales)
  {
    var pixel := ReadSample(imageData, geo, x, y);
    euclidean := PlainCell(pixel, colors, SquaredEuclidean, e0, imageData, geo, cp, x, y);
    ciedeCells := PlainCell(pixel, colors, ciede, c0, imageData, geo, cp, x, y);
    euclideanGrayscales := PlainCell(pixel, grayscales, SquaredEuclidean, eg0, imageData, geo, gp, x, y);
    ciedeGrayscales := PlainCell(pixel, grayscales, ciede, cg0, imageData, geo, gp, x, y);
  }

  /** One row of the plain scan. */
  method PlainRow(imageData: seq<Byte>, colors: seq<string>, grayscales: seq<string>, ciede: Metric,
                  geo: Geometry, ghost cp: seq<Color>, ghost gp: seq<Color>, y: nat,
                  e0: seq<Option<Color>>, c0: seq<Option<Color>>, eg0: seq<Option<Color>>, cg0: seq<Option<Color>>)
    returns (euclidean: seq<Option<Color>>, ciedeCells: seq<Option<Color>>,
             euclideanGrayscales: seq<Option<Color>>, ciedeGrayscales: seq<Option<Color>>)
    requires y < geo.gridHeight
    requires Palette(colors) && Palette(grayscales) && cp == Decode(colors) && gp == Decode(grayscales)
    requires PlainAt(imageData, geo, cp, gp, ciede, y, 0, e0, c0, eg0, cg0)
    ensures PlainAt(imageData, geo, cp, gp, ciede, y, geo.gridWidth, euclidean, ciedeCells, euclideanGrayscales, ciedeGrayscales)
  {
    euclidean, ciedeCells, euclideanGrayscales, ciedeGrayscales := e0, c0, eg0, cg0;
    var x := 0;
    while x < geo.gridWidth
      invariant 0 <= x <= geo.gridWidth
      invariant PlainAt(imageData, geo, cp, gp, ciede, y, x, euclidean, ciedeCells, euclideanGrayscales, ciedeGrayscales)
    {
      euclidean, ciedeCells, euclideanGrayscales, ciedeGrayscales :=
        PlainCells(imageData, colors, grayscales, ciede, geo, cp, gp, x, y, euclidean, ciedeCells, euclideanGrayscales, ciedeGrayscales);
      x := x + 1;
    }
  }

  /** The end of row y is the start of row y + 1. */
  lemma PlainNextRow(img: seq<Byte>, geo: Geometry, cp: seq<Color>, gp: seq<Color>, ciede: Metric, y: nat,
                     euclidean: seq<Option<Color>>, ciedeCells: seq<Option<Color>>,
                     euclideanGrayscales: seq<Option<Color>>, ciedeGrayscales: seq<Option<Color>>)
    requires y < geo.gridHeight
    requires PlainAt(img, geo, cp, gp, ciede, y, geo.gridWidth, euclidean, ciedeCells, euclideanGrayscales, ciedeGrayscales)
    ensures PlainAt(img, geo, cp, gp, ciede, y + 1, 0, euclidean, ciedeCells, euclideanGrayscales, ciedeGrayscales)
  {
  }

  /** The four dithering scans at loop position (y, x), each with its own
      working buffer. */
  ghost predicate DitherAt(img: seq<Byte>, geo: Geometry, cp: seq<Color>, gp: seq<Color>, ciede: Metric, y: nat, x: nat,
                           b1: seq<Byte>, b2: seq<Byte>, b3: seq<Byte>, b4: seq<Byte>,
                           euclideanFloyd: seq<Color>, ciedeFloyd: seq<Color>,
                           euclideanFloydGrayscales: seq<Color>, ciedeFloydGrayscales: seq<Color>)
  {
    && geo.Valid() && |img| == geo.BufferLength() && ScanPoint(geo, y, x) && |cp| > 0 && |gp| > 0
    && DitherReached(img, geo, cp, SquaredEuclidean, y, x, ScanState(b1, euclideanFloyd))
    && DitherReached(img, geo, cp, ciede, y, x, ScanState(b2, ciedeFloyd))
    && DitherReached(img, geo, gp, SquaredEuclidean, y, x, ScanState(b3, euclideanFloydGrayscales))
    && DitherReached(img, geo, gp, ciede, y, x, ScanState(b4, ciedeFloydGrayscales))
  }

  /** The body of the dithering loop: the four variants take their step
      at cell (x, y) in turn, each on its own buffer. */
  method DitherCells(d1: array<Byte>, d2: array<Byte>, d3: array<Byte>, d4: array<Byte>,
                     colors: seq<string>, grayscales: seq<string>, ciede: Metric,
                     ghost img: seq<Byte>, geo: Geometry, ghost cp: seq<Color>, ghost gp: seq<Color>, x: nat, y: nat,
                     e0: seq<Color>, c0: seq<Color>, eg0: seq<Color>, cg0: seq<Color>)
    returns (euclideanFloyd: seq<Color>, ciedeFloyd: seq<Color>, euclideanFloydGrayscales: seq<Color>, ciedeFloydGrayscales: seq<Color>)
    requires InGrid(geo, x, y)
    requires Palette(colors) && Palette(grayscales) && cp == Decode(colors) && gp == Decode(grayscales)
    requires d1.Length == d2.Length == d3.Length == d4.Length == geo.BufferLength()
    requires d1 != d2 && d1 != d3 && d1 != d4 && d2 != d3 && d2 != d4 && d3 != d4
    requires DitherAt(img, geo, cp, gp, ciede, y, x, d1[..], d2[..], d3[..], d4[..], e0, c0, eg0, cg0)
    modifies d1, d2, d3, d4
    ensures DitherAt(img, geo, cp, gp, ciede, y, x + 1, d1[..], d2[..], d3[..], d4[..],
                     euclideanFloyd, ciedeFloyd, euclideanFloydGrayscales, ciedeFloydGrayscales)
  {
    euclideanFloyd := DitherCell(d1, colors, SquaredEuclidean, e0, img, geo, cp, x, y);
    ciedeFloyd := DitherCell(d2, colors, ciede, c0, img, geo, cp, x, y);
    euclideanFloydGrayscales := DitherCell(d3, grayscales, SquaredEuclidean, eg0, img, geo, gp, x, y);
    ciedeFloydGrayscales := DitherCell(d4, grayscales, ciede, cg0, img, geo, gp, x, y);
  }

  /** One row of the dithering scan. */
  method DitherRow(d1: array<Byte>, d2: array<Byte>, d3: array<Byte>, d4: array<Byte>,
                   colors: seq<string>, grayscales: seq<string>, ciede: Metric,
                   ghost img: seq<Byte>, geo: Geometry, ghost cp: seq<Color>, ghost gp: seq<Color>, y: nat,
                   e0: seq<Color>, c0: seq<Color>, eg0: seq<Color>, cg0: seq<Color>)
    returns (euclideanFloyd: seq<Color>, ciedeFloyd: seq<Color>, euclideanFloydGrayscales: seq<Color>, ciedeFloydGrayscales: seq<Color>)
    requires y < geo.gridHeight
    requires Palette(colors) && Palette(grayscales) && cp == Decode(colors) && gp == Decode(grayscales)
    requires d1.Length == d2.Length == d3.Length == d4.Length == geo.BufferLength()
    requires d1 != d2 && d1 != d3 && d1 != d4 && d2 != d3 && d2 != d4 && d3 != d4
    requires DitherAt(img, geo, cp, gp, ciede, y, 0, d1[..], d2[..], d3[..], d4[..], e0, c0, eg0, cg0)
    modifies d1, d2, d3, d4
    ensures DitherAt(img, geo, cp, gp, ciede, y, geo.gridWidth, d1[..], d2[..], d3[..], d4[..],
                     euclideanFloyd, ciedeFloyd, euclideanFloydGrayscales, ciedeFloydGrayscales)
  {
    euclideanFloyd, ciedeFloyd, euclideanFloydGrayscales, ciedeFloydGrayscales := e0, c0, eg0, cg0;
    var x := 0;
    while x < geo.gridWidth
      invariant 0 <= x <= geo.gridWidth
      invariant DitherAt(img, geo, cp, gp, ciede, y, x, d1[..], d2[..], d3[..], d4[..],
                         euclideanFloyd, ciedeFloyd, euclideanFloydGrayscales, ciedeFloydGrayscales)
    {
      euclideanFloyd, ciedeFloyd, euclideanFloydGrayscales, ciedeFloydGrayscales :=
        DitherCells(d1, d2, d3, d4, colors, grayscales, ciede, img, geo, cp, gp, x, y,
                    euclideanFloyd, ciedeFloyd, euclideanFloydGrayscales, ciedeFloydGrayscales);
      x := x + 1;
    }
  }

  /** The end of row y is the start of row y + 1. */
  lemma DitherNextRow(img: seq<Byte>, geo: Geometry, cp: seq<Color>, gp: seq<Color>, ciede: Metric, y: nat,
                      b1: seq<Byte>, b2: seq<Byte>, b3: seq<Byte>, b4: seq<Byte>,
                      euclideanFloyd: seq<Color>, ciedeFloyd: seq<Color>,
                      euclideanFloydGrayscales: seq<Color>, ciedeFloydGrayscales: seq<Color>)
    requires y < geo.gridHeight
    requires DitherAt(img, geo, cp, gp, ciede, y, geo.gridWidth, b1, b2, b3, b4,
                      euclideanFloyd, ciedeFloyd, euclideanFloydGrayscales, ciedeFloydGrayscales)
    ensures DitherAt(img, geo, cp, gp, ciede, y + 1, 0, b1, b2, b3, b4,
                     euclideanFloyd, ciedeFloyd, euclideanFloydGrayscales, ciedeFloydGrayscales)
  {
    DitherReachedNextRow(img, geo, cp, SquaredEuclidean, y, ScanState(b1, euclideanFloyd));
    DitherReachedNextRow(img, geo, cp, ciede, y, ScanState(b2, ciedeFloyd));
    DitherReachedNextRow(img, geo, gp, SquaredEuclidean, y, ScanState(b3, euclideanFloydGrayscales));
    DitherReachedNextRow(img, geo, gp, ciede, y, ScanState(b4, ciedeFloydGrayscales));
  }

  /** At the end of the grid the loops have produced every mosaic. */
  lemma ScansComplete(img: seq<Byte>, geo: Geometry, colors: seq<string>, grayscales: seq<string>, ciede: Metric,
                      cp: seq<Color>, gp: seq<Color>, v: Variants, b1: seq<Byte>, b2: seq<Byte>, b3: seq<Byte>, b4: seq<Byte>)
    requires Palette(colors) && Palette(grayscales) && cp == Decode(colors) && gp == Decode(grayscales)
    requires PlainAt(img, geo, cp, gp, ciede, geo.gridHeight, 0, v.euclidean, v.ciede, v.euclideanGrayscales, v.ciedeGrayscales)
    requires DitherAt(img, geo, cp, gp, ciede, geo.gridHeight, 0, b1, b2, b3, b4,
                      v.euclideanFloyd, v.ciedeFloyd, v.euclideanFloydGrayscales, v.ciedeFloydGrayscales)
    ensures geo.Valid() && |img| == geo.BufferLength()
    ensures v == Expected(img, geo, colors, grayscales, ciede)
  {
    PlainScanComplete(img, geo, cp, SquaredEuclidean);
    PlainScanComplete(img, geo, cp, ciede);
    PlainScanComplete(img, geo, gp, SquaredEuclidean);
    PlainScanComplete(img, geo, gp, ciede);
    DitherReachedComplete(img, geo, cp, SquaredEuclidean, ScanState(b1, v.euclideanFloyd));
    DitherReachedComplete(img, geo, cp, ciede, ScanState(b2, v.ciedeFloyd));
    DitherReachedComplete(img, geo, gp, SquaredEuclidean, ScanState(b3, v.euclideanFloydGrayscales));
    DitherReachedComplete(img, geo, gp, ciede, ScanState(b4, v.ciedeFloydGrayscales));
  }

  /** The plain loops over the whole grid. */
  method PlainScans(imageData: seq<Byte>, geo: Geometry, colors: seq<string>, grayscales: seq<string>, ciede: Metric,
                    ghost cp: seq<Color>, ghost gp: seq<Color>)
    returns (euclidean: seq<Option<Color>>, ciedeCells: seq<Option<Color>>,
             euclideanGrayscales: seq<Option<Color>>, ciedeGrayscales: seq<Option<Color>>)
    requires geo.Valid() && |imageData| == geo.BufferLength()
    requires Palette(colors) && Palette(grayscales) && cp == Decode(colors) && gp == Decode(grayscales)
    ensures PlainAt(imageData, geo, cp, gp, ciede, geo.gridHeight, 0, euclidean, ciedeCells, euclideanGrayscales, ciedeGrayscales)
  {
    euclidean, ciedeCells, euclideanGrayscales, ciedeGrayscales := [], [], [], [];
    var y := 0;
    while y < geo.gridHeight
      invariant 0 <= y <= geo.gridHeight
      invariant PlainAt(imageData, geo, cp, gp, ciede, y, 0, euclidean, ciedeCells, euclideanGrayscales, ciedeGrayscales)
    {
      euclidean, ciedeCells, euclideanGrayscales, ciedeGrayscales :=
        PlainRow(imageData, colors, grayscales, ciede, geo, cp, gp, y, euclidean, ciedeCells, euclideanGrayscales, ciedeGrayscales);
      PlainNextRow(imageData, geo, cp, gp, ciede, y, euclidean, ciedeCells, euclideanGrayscales, ciedeGrayscales);
      y := y + 1;
    }
  }

  /** The dithering loops over the whole grid, each variant on its own
      copy of the buffer. */
  method DitherScans(d1: array<Byte>, d2: array<Byte>, d3: array<Byte>, d4: array<Byte>,
                     colors: seq<string>, grayscales: seq<string>, ciede: Metric,
                     ghost img: seq<Byte>, geo: Geometry, ghost cp: seq<Color>, ghost gp: seq<Color>)
    returns (euclideanFloyd: seq<Color>, ciedeFloyd: seq<Color>, euclideanFloydGrayscales: seq<Color>, ciedeFloydGrayscales: seq<Color>)
    requires geo.Valid() && |img| == geo.BufferLength()
    requires Palette(colors) && Palette(grayscales) && cp == Decode(colors) && gp == Decode(grayscales)
    requires d1[..] == img && d2[..] == img && d3[..] == img && d4[..] == img
    requires d1 != d2 && d1 != d3 && d1 != d4 && d2 != d3 && d2 != d4 && d3 != d4
    modifies d1, d2, d3, d4
    ensures DitherAt(img, geo, cp, gp, ciede, geo.gridHeight, 0, d1[..], d2[..], d3[..], d4[..],
                     euclideanFloyd, ciedeFloyd, euclideanFloydGrayscales, ciedeFloydGrayscales)
  {
    euclideanFloyd, ciedeFloyd, euclideanFloydGrayscales, ciedeFloydGrayscales := [], [], [], [];
    DitherReachedStart(img, geo, cp, SquaredEuclidean);
    DitherReachedStart(img, geo, cp, ciede);
    DitherReachedStart(img, geo, gp, SquaredEuclidean);
    DitherReachedStart(img, geo, gp, ciede);
    var y := 0;
    while y < geo.gridHeight
      invariant 0 <= y <= geo.gridHeight
      invariant d1.Length == d2.Length == d3.Length == d4.Length == geo.BufferLength()
      invariant DitherAt(img, geo, cp, gp, ciede, y, 0, d1[..], d2[..], d3[..], d4[..],
                         euclideanFloyd, ciedeFloyd, euclideanFloydGrayscales, ciedeFloydGrayscales)
    {
      euclideanFloyd, ciedeFloyd, euclideanFloydGrayscales, ciedeFloydGrayscales :=
        DitherRow(d1, d2, d3, d4, colors, grayscales, ciede, img, geo, cp, gp, y,
                  euclideanFloyd, ciedeFloyd, euclideanFloydGrayscales, ciedeFloydGrayscales);
      DitherNextRow(img, geo, cp, gp, ciede, y, d1[..], d2[..], d3[..], d4[..],
                    euclideanFloyd, ciedeFloyd, euclideanFloydGrayscales, ciedeFloydGrayscales);
      y := y + 1;
    }
  }

  /** Both scans over the whole grid, for any two palettes. */
  method Scans(imageData: array<Byte>, geo: Geometry, colors: seq<string>, grayscales: seq<string>, ciede: Metric) returns (v: Variants)
    requires geo.Valid() && imageData.Length == geo.BufferLength()
    requires Palette(colors) && Palette(grayscales)
    ensures v == Expected(imageData[..], geo, colors, grayscales, ciede)
  {
    ghost var img := imageData[..];
    ghost var cp, gp := Decode(colors), Decode(grayscales);
    var euclidean, ciedeCells, euclideanGrayscales, ciedeGrayscales := PlainScans(imageData[..], geo, colors, grayscales, ciede, cp, gp);
    var dataEuclideanFloyd := CopyBuffer(imageData);
    var dataCiedeFloyd := CopyBuffer(imageData);
    var dataEuclideanFloydGrayscales := CopyBuffer(imageData);
    var dataCiedeFloydGrayscales := CopyBuffer(imageData);
    var euclideanFloyd, ciedeFloyd, euclideanFloydGrayscales, ciedeFloydGrayscales :=
      DitherScans(dataEuclideanFloyd, dataCiedeFloyd, dataEuclideanFloydGrayscales, dataCiedeFloydGrayscales,
                  colors, grayscales, ciede, img, geo, cp, gp);
    v := Variants(euclidean, ciedeCells, euclideanFloyd, ciedeFloyd,
                  euclideanGrayscales, ciedeGrayscales, euclideanFloydGrayscales, ciedeFloydGrayscales);
    ScansComplete(img, geo, colors, grayscales, ciede, cp, gp, v,
                  dataEuclideanFloyd[..], dataCiedeFloyd[..], dataEuclideanFloydGrayscales[..], dataCiedeFloydGrayscales[..]);
  }

  /** processMosaic after decoding: both scans with the two palettes of
      colors.js on the 64x96 grid. */
  method ProcessMosaic(imageData: array<Byte>, originalWidth: nat, originalHeight: nat, ciede: Metric) returns (v: Variants)
    requires originalWidth > 0 && originalHeight > 0
    requires imageData.Length == originalWidth * originalHeight * 3
    ensures Palette(ColorKeys()) && Palette(GrayscaleKeys())
    ensures v == Expected(imageData[..], Geometry(originalWidth, originalHeight, MosaicWidth, MosaicHeight),
                          ColorKeys(), GrayscaleKeys(), ciede)
  {
    PaletteKeysWellFormed();
    v := Scans(imageData, Geometry(originalWidth, originalHeight, MosaicWidth, MosaicHeight), ColorKeys(), GrayscaleKeys(), ciede);
  }
}
