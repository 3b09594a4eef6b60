/** createMosaicImage: every colour of the mosaic list becomes a tile of
    blockSize x blockSize pixels holding a disc of that colour on opaque
    black, written into an RGBA buffer of (W*b) x (H*b) pixels; that
    buffer is then copied into the middle of a larger one that carries a
    black frame borderWidth pixels wide.  Both buffers are Node Buffers:
    zero-filled when allocated, and a write outside them is dropped. */
module Render {

  import opened Rgb
  import Arith
  import Scan

  /** The constants of createMosaicImage: the grid, blockSize and
      borderWidth. */
  datatype Layout = Layout(gridWidth: nat, gridHeight: nat, blockSize: nat, borderWidth: nat) {
    predicate Valid() {
      gridWidth > 0 && gridHeight > 0 && blockSize > 0
    }

    /** mosaicWidth * blockSize: the width of the tile image. */
    function ImageWidth(): nat {
      gridWidth * blockSize
    }

    function ImageHeight(): nat {
      gridHeight * blockSize
    }

    /** Buffer.alloc(mosaicWidth * mosaicHeight * blockSize * blockSize * 4). */
    function ImageLength(): nat {
      gridWidth * gridHeight * blockSize * blockSize * 4
    }

    /** mosaicWidthWithBorder. */
    function FramedWidth(): nat {
      ImageWidth() + 2 * borderWidth
    }

    /** mosaicHeightWithBorder. */
    function FramedHeight(): nat {
      ImageHeight() + 2 * borderWidth
    }

    function FramedLength(): nat {
      FramedWidth() * FramedHeight() * 4
    }
  }

  /** blockSize = 32 and borderWidth = blockSize on the 64x96 grid. */
  const Reference: Layout := Layout(Scan.MosaicWidth, Scan.MosaicHeight, 32, 32)

  /** The tile image holds four bytes for each of its pixels. */
  lemma ImageLengthIsArea(lay: Layout)
    ensures lay.ImageLength() == lay.ImageWidth() * lay.ImageHeight() * 4
  {
    var w, h, b := lay.gridWidth, lay.gridHeight, lay.blockSize;
    assert w * h * b * b == (w * b) * (h * b);
  }

  /** The reference output is 2112 x 3136 pixels. */
  lemma ReferenceDimensions()
    ensures Reference.Valid()
    ensures Reference.ImageWidth() == 2048 && Reference.ImageHeight() == 3072
    ensures Reference.FramedWidth() == 2112 && Reference.FramedHeight() == 3136
    ensures Reference.FramedLength() == 2112 * 3136 * 4
  {
  }

  /** One RGBA pixel of a buffer. */
  datatype Rgba = Rgba(r: Byte, g: Byte, b: Byte, a: Byte)

  /** Opaque black, the background of a tile and the colour of the frame. */
  const Black: Rgba := Rgba(0, 0, 0, 255)

  /** The zero fill of Buffer.alloc. */
  const Clear: Rgba := Rgba(0, 0, 0, 0)

  /** Byte ch of an RGBA pixel. */
  function Channel(p: Rgba, ch: int): Byte
    requires 0 <= ch < 4
  {
    if ch == 0 then p.r else if ch == 1 then p.g else if ch == 2 then p.b else p.a
  }

  /** The square of createMosaicImage's distance from local position
      (tx, ty) to the tile centre (b/2, b/2). */
  function CentreDistanceSquared(tx: int, ty: int, b: nat): real {
    var h := b as real / 2.0;
    (tx as real - h) * (tx as real - h) + (ty as real - h) * (ty as real - h)
  }

  /** distance < blockSize / 2, compared through the squares: both sides
      are non-negative. */
  predicate InDiscReal(tx: int, ty: int, b: nat) {
    CentreDistanceSquared(tx, ty, b) < (b as real / 2.0) * (b as real / 2.0)
  }

  /** The same test, scaled by four, in integers. */
  predicate InDisc(tx: int, ty: int, b: nat) {
    (2 * tx - b) * (2 * tx - b) + (2 * ty - b) * (2 * ty - b) < b * b
  }

  lemma InDiscExact(tx: int, ty: int, b: nat)
    ensures InDisc(tx, ty, b) <==> InDiscReal(tx, ty, b)
  {
    var h := b as real / 2.0;
    var dx, dy := tx as real - h, ty as real - h;
    assert (2 * tx - b) as real == 2.0 * dx && (2 * ty - b) as real == 2.0 * dy;
    assert ((2 * tx - b) * (2 * tx - b) + (2 * ty - b) * (2 * ty - b)) as real == 4.0 * (dx * dx + dy * dy);
    assert (b * b) as real == 4.0 * (h * h);
  }

  /** The test as written: a distance r = Math.sqrt of the squared centre
      distance lies below blockSize / 2 exactly when the integer test
      holds. */
  lemma RootDisc(tx: int, ty: int, b: nat, r: real)
    requires r >= 0.0 && r * r == CentreDistanceSquared(tx, ty, b)
    ensures r < b as real / 2.0 <==> InDisc(tx, ty, b)
  {
    Arith.SquareMonotone(r, b as real / 2.0);
    InDiscExact(tx, ty, b);
  }

  /** The colour the forEach draws at local position (tx, ty) of a tile of
      colour c. */
  function TileColor(c: Color, tx: int, ty: int, b: nat): Rgba {
    if InDiscReal(tx, ty, b) then Rgba(c.r, c.g, c.b, 255) else Black
  }

  /** Every tile pixel is opaque: the cell colour strictly inside the disc
      of diameter b, black elsewhere. */
  lemma TileColorIsDisc(c: Color, tx: int, ty: int, b: nat)
    ensures TileColor(c, tx, ty, b).a == 255
    ensures InDisc(tx, ty, b) ==> TileColor(c, tx, ty, b) == Rgba(c.r, c.g, c.b, 255)
    ensures !InDisc(tx, ty, b) ==> TileColor(c, tx, ty, b) == Black
  {
    InDiscExact(tx, ty, b);
  }

  /** With b = 32 the tile centre is coloured and the corners are black;
      the disc is strict, so the midpoints of the edges are black too. */
  lemma DiscExamples(c: Color)
    ensures TileColor(c, 16, 16, 32) == Rgba(c.r, c.g, c.b, 255) && TileColor(c, 1, 16, 32) == Rgba(c.r, c.g, c.b, 255)
    ensures TileColor(c, 0, 0, 32) == Black && TileColor(c, 31, 31, 32) == Black
    ensures TileColor(c, 0, 16, 32) == Black && TileColor(c, 16, 0, 32) == Black
  {
    TileColorIsDisc(c, 16, 16, 32);
    TileColorIsDisc(c, 1, 16, 32);
    TileColorIsDisc(c, 0, 0, 32);
    TileColorIsDisc(c, 31, 31, 32);
    TileColorIsDisc(c, 0, 16, 32);
    TileColorIsDisc(c, 16, 0, 32);
  }

  /** The cell whose tile covers pixel (px, py) of the tile image. */
  function CellOf(lay: Layout, px: nat, py: nat): nat
    requires lay.Valid()
  {
    (py / lay.blockSize) * lay.gridWidth + px / lay.blockSize
  }

  /** blockX + tx: the column of local position tx of tile i, with
      blockX = (i % W) * b. */
  function TileX(lay: Layout, i: nat, tx: nat): nat
    requires lay.Valid()
  {
    (i % lay.gridWidth) * lay.blockSize + tx
  }

  /** blockY + ty: the row of local position ty of tile i, with
      blockY = floor(i / W) * b. */
  function TileY(lay: Layout, i: nat, ty: nat): nat
    requires lay.Valid()
  {
    (i / lay.gridWidth) * lay.blockSize + ty
  }

  /** The pixel number (offset / 4) that tile i writes for local position
      (tx, ty). */
  function TilePixel(lay: Layout, i: nat, tx: nat, ty: nat): nat
    requires lay.Valid()
  {
    TileY(lay, i, ty) * lay.ImageWidth() + TileX(lay, i, tx)
  }

  /** The offset expression of createMosaicImage is that pixel, times four. */
  lemma SourceOffset(lay: Layout, i: nat, tx: nat, ty: nat)
    requires lay.Valid()
    ensures (TileY(lay, i, ty) * lay.gridWidth * lay.blockSize + TileX(lay, i, tx)) * 4 == TilePixel(lay, i, tx, ty) * 4
  {
    var y := TileY(lay, i, ty);
    assert y * lay.gridWidth * lay.blockSize == y * (lay.gridWidth * lay.blockSize);
  }

  /** The cell of a pixel whose block coordinates are those of cell i. */
  lemma CellOfSplit(lay: Layout, px: nat, py: nat, i: nat)
    requires lay.Valid()
    requires px / lay.blockSize == i % lay.gridWidth && py / lay.blockSize == i / lay.gridWidth
    ensures CellOf(lay, px, py) == i
  {
    var W := lay.gridWidth;
    assert (i / W) * W + i % W == i;
  }

  lemma TileXSplit(lay: Layout, i: nat, tx: nat)
    requires lay.Valid() && tx < lay.blockSize
    ensures TileX(lay, i, tx) < lay.ImageWidth()
    ensures TileX(lay, i, tx) % lay.blockSize == tx && TileX(lay, i, tx) / lay.blockSize == i % lay.gridWidth
  {
    var cx := i % lay.gridWidth;
    Arith.RowMajorBound(tx, cx, lay.blockSize, lay.gridWidth);
    Arith.RowMajor(TileX(lay, i, tx), lay.blockSize, tx, cx);
  }

  lemma TileYSplit(lay: Layout, i: nat, ty: nat)
    requires lay.Valid() && ty < lay.blockSize
    ensures TileY(lay, i, ty) < lay.ImageHeight() <==> i < lay.gridWidth * lay.gridHeight
    ensures TileY(lay, i, ty) % lay.blockSize == ty && TileY(lay, i, ty) / lay.blockSize == i / lay.gridWidth
  {
    var W, H, b := lay.gridWidth, lay.gridHeight, lay.blockSize;
    var cy := i / W;
    Arith.RowMajor(TileY(lay, i, ty), b, ty, cy);
    if i < W * H {
      Arith.QuotientBelow(i, W, H);
      Arith.RowMajorBound(ty, cy, b, H);
    } else {
      if cy < H {
        Arith.RowMajorBound(i % W, cy, W, H);
      }
      Arith.RowMajorBeyond(ty, cy, b, H);
    }
  }

  /** Tile i has its origin at ((i % W) * b, floor(i / W) * b).  Its pixels
      lie inside the image exactly when i is a cell of the grid, and the
      pixel written for (tx, ty) is covered by cell i at local position
      (tx, ty). */
  lemma TilePixelLands(lay: Layout, i: nat, tx: nat, ty: nat)
    requires lay.Valid() && tx < lay.blockSize && ty < lay.blockSize
    ensures var q, w := TilePixel(lay, i, tx, ty), lay.ImageWidth();
      && q % w == TileX(lay, i, tx) && q / w == TileY(lay, i, ty)
      && (q < w * lay.ImageHeight() <==> i < lay.gridWidth * lay.gridHeight)
      && CellOf(lay, q % w, q / w) == i
      && (q % w) % lay.blockSize == tx && (q / w) % lay.blockSize == ty
  {
    var W, b := lay.gridWidth, lay.blockSize;
    var w, h := lay.ImageWidth(), lay.ImageHeight();
    var px, py := TileX(lay, i, tx), TileY(lay, i, ty);
    var q := TilePixel(lay, i, tx, ty);
    TileXSplit(lay, i, tx);
    TileYSplit(lay, i, ty);
    Arith.RowMajor(q, w, px, py);
    CellOfSplit(lay, px, py, i);
    if py < h {
      Arith.RowMajorBound(px, py, w, h);
    } else {
      Arith.RowMajorBeyond(px, py, w, h);
    }
  }

  /** Every pixel of the tile image is the write of its own cell at its own
      local position. */
  lemma PixelOfOwnTile(lay: Layout, q: nat)
    requires lay.Valid() && q < lay.ImageWidth() * lay.ImageHeight()
    ensures var w := lay.ImageWidth();
      && CellOf(lay, q % w, q / w) < lay.gridWidth * lay.gridHeight
      && q == TilePixel(lay, CellOf(lay, q % w, q / w), (q % w) % lay.blockSize, (q / w) % lay.blockSize)
  {
    var W, H, b := lay.gridWidth, lay.gridHeight, lay.blockSize;
    var w, h := lay.ImageWidth(), lay.ImageHeight();
    Arith.MulAtLeast(W, b);
    Arith.RowMajorSplit(q, w, h);
    var px, py := q % w, q / w;
    Arith.RowMajorSplit(px, b, W);
    Arith.RowMajorSplit(py, b, H);
    var cx, tx, cy, ty := px / b, px % b, py / b, py % b;
    var c := cy * W + cx;
    Arith.RowMajorBound(cx, cy, W, H);
    Arith.RowMajor(c, W, cx, cy);
    assert CellOf(lay, px, py) == c;
    assert TileX(lay, c, tx) == px && TileY(lay, c, ty) == py;
  }

  /** Tiles never overlap: different (cell, tx, ty) of the grid write
      different pixels. */
  lemma TilesDisjoint(lay: Layout, i1: nat, tx1: nat, ty1: nat, i2: nat, tx2: nat, ty2: nat)
    requires lay.Valid()
    requires tx1 < lay.blockSize && ty1 < lay.blockSize && tx2 < lay.blockSize && ty2 < lay.blockSize
    requires (i1, tx1, ty1) != (i2, tx2, ty2)
    ensures TilePixel(lay, i1, tx1, ty1) != TilePixel(lay, i2, tx2, ty2)
  {
    TilePixelLands(lay, i1, tx1, ty1);
    TilePixelLands(lay, i2, tx2, ty2);
  }

  /** Pixel q of the tile image once every tile is drawn: the tile colour
      of its cell, or the zero fill where the list has no colour for it. */
  function MosaicPixel(pixels: seq<Color>, lay: Layout, q: nat): Rgba
    requires lay.Valid()
  {
    var px, py := q % lay.ImageWidth(), q / lay.ImageWidth();
    var c := CellOf(lay, px, py);
    if c < |pixels| then TileColor(pixels[c], px % lay.blockSize, py % lay.blockSize, lay.blockSize) else Clear
  }

  function MosaicByte(pixels: seq<Color>, lay: Layout, j: nat): Byte
    requires lay.Valid()
  {
    Channel(MosaicPixel(pixels, lay, j / 4), j % 4)
  }

  /** mosaicImageBuffer after the forEach. */
  function MosaicImage(pixels: seq<Color>, lay: Layout): (img: seq<Byte>)
    requires lay.Valid()
    ensures |img| == lay.ImageLength()
  {
    seq(lay.ImageLength(), j requires 0 <= j => MosaicByte(pixels, lay, j))
  }

  /** The tile image holds, at the pixel (tx, ty) of tile i, the disc
      colour of mosaic colour i (for i a cell of the grid). */
  lemma MosaicImageTile(pixels: seq<Color>, lay: Layout, i: nat, tx: nat, ty: nat)
    requires lay.Valid() && tx < lay.blockSize && ty < lay.blockSize
    requires i < |pixels| && i < lay.gridWidth * lay.gridHeight
    ensures MosaicPixel(pixels, lay, TilePixel(lay, i, tx, ty)) == TileColor(pixels[i], tx, ty, lay.blockSize)
  {
    TilePixelLands(lay, i, tx, ty);
  }

  /** Typed-array assignment: a write outside the buffer is dropped. */
  function Stored(s: seq<Byte>, i: int, v: Byte): (r: seq<Byte>)
    ensures |r| == |s|
  {
    if 0 <= i < |s| then s[i := v] else s
  }

  /** The four channel assignments at offset, offset + 1, offset + 2 and
      offset + 3. */
  function PutPixel(s: seq<Byte>, offset: int, p: Rgba): (r: seq<Byte>)
    ensures |r| == |s|
  {
    Stored(Stored(Stored(Stored(s, offset, p.r), offset + 1, p.g), offset + 2, p.b), offset + 3, p.a)
  }

  /** A pixel inside the buffer gets exactly its four bytes replaced. */
  lemma PutPixelInside(s: seq<Byte>, q: nat, p: Rgba)
    requires 4 * q + 4 <= |s|
    ensures forall j :: 0 <= j < |s| ==> PutPixel(s, 4 * q, p)[j] == if j / 4 == q then Channel(p, j % 4) else s[j]
  {
  }

  /** A pixel past the end of the buffer changes nothing. */
  lemma PutPixelOutside(s: seq<Byte>, q: nat, p: Rgba)
    requires |s| % 4 == 0 && 4 * q >= |s|
    ensures PutPixel(s, 4 * q, p) == s
  {
  }

  method Store(a: array<Byte>, i: int, v: Byte)
    modifies a
    ensures a[..] == Stored(old(a[..]), i, v)
  {
    if 0 <= i < a.Length {
      a[i] := v;
    }
  }

  method StorePixel(a: array<Byte>, offset: int, p: Rgba)
    modifies a
    ensures a[..] == PutPixel(old(a[..]), offset, p)
  {
    Store(a, offset, p.r);
    Store(a, offset + 1, p.g);
    Store(a, offset + 2, p.b);
    Store(a, offset + 3, p.a);
  }

  /** The forEach has drawn pixel q once it has passed cell i, row ty and
      column tx of q's tile. */
  predicate Written(lay: Layout, q: nat, i: nat, ty: nat, tx: nat)
    requires lay.Valid()
  {
    var px, py := q % lay.ImageWidth(), q / lay.ImageWidth();
    var c := CellOf(lay, px, py);
    c < i || (c == i && (py % lay.blockSize < ty || (py % lay.blockSize == ty && px % lay.blockSize < tx)))
  }

  /** The tile image at that point: drawn pixels as in MosaicImage, the
      rest still zero. */
  ghost predicate Painted(s: seq<Byte>, pixels: seq<Color>, lay: Layout, i: nat, ty: nat, tx: nat)
    requires lay.Valid()
  {
    && |s| == lay.ImageLength()
    && forall j :: 0 <= j < |s| ==> s[j] == if Written(lay, j / 4, i, ty, tx) then MosaicByte(pixels, lay, j) else 0
  }

  lemma PaintedStart(s: seq<Byte>, pixels: seq<Color>, lay: Layout)
    requires lay.Valid() && |s| == lay.ImageLength()
    requires forall j :: 0 <= j < |s| ==> s[j] == 0
    ensures Painted(s, pixels, lay, 0, 0, 0)
  {
  }

  /** Passing local position (tx, ty) of tile i adds exactly the pixel
      that tile writes there to the drawn region. */
  lemma WrittenStep(lay: Layout, p: nat, i: nat, ty: nat, tx: nat)
    requires lay.Valid() && tx < lay.blockSize && ty < lay.blockSize
    requires p < lay.ImageWidth() * lay.ImageHeight()
    ensures Written(lay, p, i, ty, tx + 1) <==> Written(lay, p, i, ty, tx) || p == TilePixel(lay, i, tx, ty)
  {
    PixelOfOwnTile(lay, p);
    TilePixelLands(lay, i, tx, ty);
  }

  /** Drawing local position (tx, ty) of tile i advances the drawn region
      by exactly that pixel. */
  lemma PaintedStep(s: seq<Byte>, pixels: seq<Color>, lay: Layout, i: nat, ty: nat, tx: nat)
    requires lay.Valid() && i < |pixels| && tx < lay.blockSize && ty < lay.blockSize
    requires Painted(s, pixels, lay, i, ty, tx)
    ensures Painted(PutPixel(s, TilePixel(lay, i, tx, ty) * 4, TileColor(pixels[i], tx, ty, lay.blockSize)),
                    pixels, lay, i, ty, tx + 1)
  {
    TilePixelLands(lay, i, tx, ty);
    if i < lay.gridWidth * lay.gridHeight {
      PaintedStepInside(s, pixels, lay, i, ty, tx);
    } else {
      PaintedStepOutside(s, pixels, lay, i, ty, tx);
    }
  }

  /** A pixel of a cell of the grid: its four bytes become the tile colour. */
  lemma PaintedStepInside(s: seq<Byte>, pixels: seq<Color>, lay: Layout, i: nat, ty: nat, tx: nat)
    requires lay.Valid() && i < |pixels| && tx < lay.blockSize && ty < lay.blockSize
    requires i < lay.gridWidth * lay.gridHeight
    requires TilePixel(lay, i, tx, ty) < lay.ImageWidth() * lay.ImageHeight()
    requires Painted(s, pixels, lay, i, ty, tx)
    ensures Painted(PutPixel(s, TilePixel(lay, i, tx, ty) * 4, TileColor(pixels[i], tx, ty, lay.blockSize)),
                    pixels, lay, i, ty, tx + 1)
  {
    var q := TilePixel(lay, i, tx, ty);
    var color := TileColor(pixels[i], tx, ty, lay.blockSize);
    var s' := PutPixel(s, q * 4, color);
    ImageLengthIsArea(lay);
    assert q * 4 == 4 * q;
    PutPixelInside(s, q, color);
    MosaicImageTile(pixels, lay, i, tx, ty);
    forall j | 0 <= j < |s'|
      ensures s'[j] == if Written(lay, j / 4, i, ty, tx + 1) then MosaicByte(pixels, lay, j) else 0
    {
      Arith.QuotientBelow(j, 4, lay.ImageWidth() * lay.ImageHeight());
      WrittenStep(lay, j / 4, i, ty, tx);
    }
  }

  /** A colour past the grid: its pixel lies beyond the buffer and the
      write is dropped. */
  lemma PaintedStepOutside(s: seq<Byte>, pixels: seq<Color>, lay: Layout, i: nat, ty: nat, tx: nat)
    requires lay.Valid() && i < |pixels| && tx < lay.blockSize && ty < lay.blockSize
    requires TilePixel(lay, i, tx, ty) >= lay.ImageWidth() * lay.ImageHeight()
    requires Painted(s, pixels, lay, i, ty, tx)
    ensures Painted(PutPixel(s, TilePixel(lay, i, tx, ty) * 4, TileColor(pixels[i], tx, ty, lay.blockSize)),
                    pixels, lay, i, ty, tx + 1)
  {
    var q := TilePixel(lay, i, tx, ty);
    var color := TileColor(pixels[i], tx, ty, lay.blockSize);
    ImageLengthIsArea(lay);
    assert |s| == lay.ImageWidth() * lay.ImageHeight() * 4;
    assert q * 4 == 4 * q;
    PutPixelOutside(s, q, color);
    PaintedSkip(s, pixels, lay, i, ty, tx);
  }

  /** Passing over a position beyond the buffer leaves the painted state
      as it was. */
  lemma PaintedSkip(s: seq<Byte>, pixels: seq<Color>, lay: Layout, i: nat, ty: nat, tx: nat)
    requires lay.Valid() && tx < lay.blockSize && ty < lay.blockSize
    requires TilePixel(lay, i, tx, ty) >= lay.ImageWidth() * lay.ImageHeight()
    requires Painted(s, pixels, lay, i, ty, tx)
    ensures Painted(s, pixels, lay, i, ty, tx + 1)
  {
    ImageLengthIsArea(lay);
    forall j | 0 <= j < |s|
      ensures Written(lay, j / 4, i, ty, tx + 1) == Written(lay, j / 4, i, ty, tx)
    {
      Arith.QuotientBelow(j, 4, lay.ImageWidth() * lay.ImageHeight());
      WrittenStep(lay, j / 4, i, ty, tx);
    }
  }

  /** The end of row ty of a tile is the start of row ty + 1. */
  lemma PaintedNextRow(s: seq<Byte>, pixels: seq<Color>, lay: Layout, i: nat, ty: nat)
    requires lay.Valid() && Painted(s, pixels, lay, i, ty, lay.blockSize)
    ensures Painted(s, pixels, lay, i, ty + 1, 0)
  {
    forall j | 0 <= j < |s|
      ensures Written(lay, j / 4, i, ty, lay.blockSize) == Written(lay, j / 4, i, ty + 1, 0)
    {
    }
  }

  /** The end of a tile is the start of the next one. */
  lemma PaintedNextTile(s: seq<Byte>, pixels: seq<Color>, lay: Layout, i: nat)
    requires lay.Valid() && Painted(s, pixels, lay, i, lay.blockSize, 0)
    ensures Painted(s, pixels, lay, i + 1, 0, 0)
  {
    forall j | 0 <= j < |s|
      ensures Written(lay, j / 4, i, lay.blockSize, 0) == Written(lay, j / 4, i + 1, 0, 0)
    {
    }
  }

  /** After the last colour the buffer is the tile image. */
  lemma PaintedComplete(s: seq<Byte>, pixels: seq<Color>, lay: Layout)
    requires lay.Valid() && Painted(s, pixels, lay, |pixels|, 0, 0)
    ensures s == MosaicImage(pixels, lay)
  {
    var m := MosaicImage(pixels, lay);
    forall j | 0 <= j < |s|
      ensures s[j] == m[j]
    {
      if !Written(lay, j / 4, |pixels|, 0, 0) {
        assert MosaicPixel(pixels, lay, j / 4) == Clear;
      }
    }
  }

  /** The body of the two inner loops: draw local position (tx, ty) of
      tile index. */
  method PaintPixel(img: array<Byte>, pixels: seq<Color>, lay: Layout, index: nat, blockX: int, blockY: int, tx: nat, ty: nat)
    requires lay.Valid() && index < |pixels| && tx < lay.blockSize && ty < lay.blockSize
    requires blockX == (index % lay.gridWidth) * lay.blockSize && blockY == (index / lay.gridWidth) * lay.blockSize
    requires Painted(img[..], pixels, lay, index, ty, tx)
    modifies img
    ensures Painted(img[..], pixels, lay, index, ty, tx + 1)
  {
    ghost var before := img[..];
    var color := DiscColor(pixels[index], tx, ty, lay.blockSize);
    var offset := TileOffset(lay, index, blockX, blockY, tx, ty);
    StorePixel(img, offset, color);
    PaintedStep(before, pixels, lay, index, ty, tx);
  }

  /** ((blockY + ty) * mosaicWidth * blockSize + (blockX + tx)) * 4: the
      first byte of pixel TilePixel of the tile image. */
  method TileOffset(lay: Layout, index: nat, blockX: int, blockY: int, tx: nat, ty: nat) returns (offset: int)
    requires lay.Valid()
    requires blockX == (index % lay.gridWidth) * lay.blockSize && blockY == (index / lay.gridWidth) * lay.blockSize
    ensures offset == TilePixel(lay, index, tx, ty) * 4
  {
    offset := ((blockY + ty) * lay.gridWidth * lay.blockSize + (blockX + tx)) * 4;
    SourceOffset(lay, index, tx, ty);
  }

  /** The colour drawn at local position (tx, ty): the cell colour when
      distance < blockSize / 2, opaque black otherwise. */
  method DiscColor(pixel: Color, tx: nat, ty: nat, b: nat) returns (color: Rgba)
    ensures color == TileColor(pixel, tx, ty, b)
  {
    var half := b as real / 2.0;
    var distance2 := CentreDistanceSquared(tx, ty, b);
    if distance2 < half * half {
      color := Rgba(pixel.r, pixel.g, pixel.b, 255);
    } else {
      color := Black;
    }
  }

  /** The forEach callback for mosaic colour index: its tile, row by row. */
  method PaintTile(img: array<Byte>, pixels: seq<Color>, lay: Layout, index: nat)
    requires lay.Valid() && index < |pixels|
    requires Painted(img[..], pixels, lay, index, 0, 0)
    modifies img
    ensures Painted(img[..], pixels, lay, index + 1, 0, 0)
  {
    var blockX := (index % lay.gridWidth) * lay.blockSize;
    var blockY := (index / lay.gridWidth) * lay.blockSize;
    var ty := 0;
    while ty < lay.blockSize
      invariant 0 <= ty <= lay.blockSize
      invariant Painted(img[..], pixels, lay, index, ty, 0)
    {
      var tx := 0;
      while tx < lay.blockSize
        invariant 0 <= tx <= lay.blockSize
        invariant Painted(img[..], pixels, lay, index, ty, tx)
      {
        PaintPixel(img, pixels, lay, index, blockX, blockY, tx, ty);
        tx := tx + 1;
      }
      PaintedNextRow(img[..], pixels, lay, index, ty);
      ty := ty + 1;
    }
    PaintedNextTile(img[..], pixels, lay, index);
  }

  /** The forEach over the mosaic colours. */
  method PaintTiles(pixels: seq<Color>, lay: Layout) returns (img: array<Byte>)
    requires lay.Valid()
    ensures fresh(img) && img[..] == MosaicImage(pixels, lay)
  {
    img := new Byte[lay.gridWidth * lay.gridHeight * lay.blockSize * lay.blockSize * 4](_ => 0);
    PaintedStart(img[..], pixels, lay);
    var index := 0;
    while index < |pixels|
      invariant 0 <= index <= |pixels|
      invariant Painted(img[..], pixels, lay, index, 0, 0)
    {
      PaintTile(img, pixels, lay, index);
      index := index + 1;
    }
    PaintedComplete(img[..], pixels, lay);
  }

  /** Pixel q of an RGBA buffer. */
  function PixelAt(m: seq<Byte>, q: nat): Rgba
    requires 4 * q + 4 <= |m|
  {
    Rgba(m[4 * q], m[4 * q + 1], m[4 * q + 2], m[4 * q + 3])
  }

  /** The frame test of the copy loop. */
  predicate OnBorder(lay: Layout, x: int, y: int) {
    || x < lay.borderWidth || x >= lay.FramedWidth() - lay.borderWidth
    || y < lay.borderWidth || y >= lay.FramedHeight() - lay.borderWidth
  }

  /** Pixel (x, y) of finalImageBuffer: black on the frame, and otherwise
      pixel ((x - bw) % (W*b), (y - bw) % (H*b)) of the tile image. */
  function FramedPixel(m: seq<Byte>, lay: Layout, x: nat, y: nat): Rgba
    requires lay.Valid() && |m| == lay.ImageLength()
  {
    if OnBorder(lay, x, y) then Black
    else
      var w, h := lay.ImageWidth(), lay.ImageHeight();
      var mx, my := (x - lay.borderWidth) % w, (y - lay.borderWidth) % h;
      ImageLengthIsArea(lay);
      Arith.RowMajorBound(mx, my, w, h);
      PixelAt(m, my * w + mx)
  }

  function FramedByte(m: seq<Byte>, lay: Layout, j: nat): Byte
    requires lay.Valid() && |m| == lay.ImageLength()
  {
    var p := j / 4;
    Channel(FramedPixel(m, lay, p % lay.FramedWidth(), p / lay.FramedWidth()), j % 4)
  }

  /** finalImageBuffer after the copy loops. */
  function FramedImage(m: seq<Byte>, lay: Layout): (img: seq<Byte>)
    requires lay.Valid() && |m| == lay.ImageLength()
    ensures |img| == lay.FramedLength()
  {
    seq(lay.FramedLength(), j requires 0 <= j => FramedByte(m, lay, j))
  }

  /** Every pixel within borderWidth of an edge is opaque black. */
  lemma FrameIsBlack(m: seq<Byte>, lay: Layout, x: nat, y: nat)
    requires lay.Valid() && |m| == lay.ImageLength()
    requires x < lay.FramedWidth() && y < lay.FramedHeight()
    requires x < lay.borderWidth || y < lay.borderWidth
          || x >= lay.ImageWidth() + lay.borderWidth || y >= lay.ImageHeight() + lay.borderWidth
    ensures FramedPixel(m, lay, x, y) == Black
  {
  }

  /** Every interior pixel (x, y) is pixel (x - bw, y - bw) of the tile
      image: the % of the copy never wraps, so the copy is not shifted. */
  lemma InteriorIsCopy(m: seq<Byte>, lay: Layout, x: nat, y: nat)
    requires lay.Valid() && |m| == lay.ImageLength()
    requires lay.borderWidth <= x < lay.ImageWidth() + lay.borderWidth
    requires lay.borderWidth <= y < lay.ImageHeight() + lay.borderWidth
    ensures (x - lay.borderWidth) % lay.ImageWidth() == x - lay.borderWidth
    ensures (y - lay.borderWidth) % lay.ImageHeight() == y - lay.borderWidth
    ensures var q := (y - lay.borderWidth) * lay.ImageWidth() + (x - lay.borderWidth);
      4 * q + 4 <= |m| && FramedPixel(m, lay, x, y) == PixelAt(m, q)
  {
    var w, h := lay.ImageWidth(), lay.ImageHeight();
    ImageLengthIsArea(lay);
    Arith.RowMajorBound(x - lay.borderWidth, y - lay.borderWidth, w, h);
    Arith.DivModUnique(x - lay.borderWidth, w, 0, x - lay.borderWidth);
    Arith.DivModUnique(y - lay.borderWidth, h, 0, y - lay.borderWidth);
  }

  /** Pixel q of the drawn tile image, read back from its bytes. */
  lemma MosaicImagePixel(pixels: seq<Color>, lay: Layout, q: nat)
    requires lay.Valid() && 4 * q + 4 <= lay.ImageLength()
    ensures PixelAt(MosaicImage(pixels, lay), q) == MosaicPixel(pixels, lay, q)
  {
    var m := MosaicImage(pixels, lay);
    var p := MosaicPixel(pixels, lay, q);
    MosaicByteOfPixel(pixels, lay, q, 0);
    MosaicByteOfPixel(pixels, lay, q, 1);
    MosaicByteOfPixel(pixels, lay, q, 2);
    MosaicByteOfPixel(pixels, lay, q, 3);
    assert m[4 * q] == Channel(p, 0) && m[4 * q + 1] == Channel(p, 1);
    assert m[4 * q + 2] == Channel(p, 2) && m[4 * q + 3] == Channel(p, 3);
    PixelOfChannels(m, q, p);
  }

  /** Four bytes holding the channels of p read back as p. */
  lemma PixelOfChannels(m: seq<Byte>, q: nat, p: Rgba)
    requires 4 * q + 4 <= |m|
    requires m[4 * q] == Channel(p, 0) && m[4 * q + 1] == Channel(p, 1)
    requires m[4 * q + 2] == Channel(p, 2) && m[4 * q + 3] == Channel(p, 3)
    ensures PixelAt(m, q) == p
  {
  }

  /** Byte 4q + c of the tile image is channel c of pixel q. */
  lemma MosaicByteOfPixel(pixels: seq<Color>, lay: Layout, q: nat, c: nat)
    requires lay.Valid() && c < 4
    ensures MosaicByte(pixels, lay, 4 * q + c) == Channel(MosaicPixel(pixels, lay, q), c)
  {
    Arith.DivModUnique(4 * q + c, 4, q, c);
  }

  /** The copy loops have written the first n pixels of the final image. */
  ghost predicate Framed(s: seq<Byte>, m: seq<Byte>, lay: Layout, n: int)
    requires lay.Valid() && |m| == lay.ImageLength()
  {
    && |s| == lay.FramedLength()
    && forall j :: 0 <= j < |s| && j / 4 < n ==> s[j] == FramedByte(m, lay, j)
  }

  lemma FramedStart(s: seq<Byte>, m: seq<Byte>, lay: Layout)
    requires lay.Valid() && |m| == lay.ImageLength() && |s| == lay.FramedLength()
    ensures Framed(s, m, lay, 0)
  {
  }

  /** Writing pixel (x, y) extends the written prefix by one pixel. */
  lemma FramedStep(s: seq<Byte>, m: seq<Byte>, lay: Layout, x: nat, y: nat)
    requires lay.Valid() && |m| == lay.ImageLength()
    requires x < lay.FramedWidth() && y < lay.FramedHeight()
    requires Framed(s, m, lay, y * lay.FramedWidth() + x)
    ensures Framed(PutPixel(s, (y * lay.FramedWidth() + x) * 4, FramedPixel(m, lay, x, y)), m, lay, y * lay.FramedWidth() + x + 1)
  {
    var fw := lay.FramedWidth();
    var p := y * fw + x;
    Arith.RowMajorBound(x, y, fw, lay.FramedHeight());
    Arith.RowMajor(p, fw, x, y);
    PutPixelInside(s, p, FramedPixel(m, lay, x, y));
  }

  /** The body of the copy loops at pixel (x, y). */
  method FramePixel(final: array<Byte>, mosaic: seq<Byte>, lay: Layout, x: nat, y: nat)
    requires lay.Valid() && |mosaic| == lay.ImageLength()
    requires x < lay.FramedWidth() && y < lay.FramedHeight()
    requires Framed(final[..], mosaic, lay, y * lay.FramedWidth() + x)
    modifies final
    ensures Framed(final[..], mosaic, lay, y * lay.FramedWidth() + x + 1)
  {
    ghost var before := final[..];
    var value := ReadFramedPixel(mosaic, lay, x, y);
    StorePixel(final, (y * lay.FramedWidth() + x) * 4, value);
    FramedStep(before, mosaic, lay, x, y);
  }

  /** The value the copy loops write at (x, y): black on the border, else
      the RGBA bytes of the wrapped tile-image pixel. */
  method ReadFramedPixel(mosaic: seq<Byte>, lay: Layout, x: nat, y: nat) returns (value: Rgba)
    requires lay.Valid() && |mosaic| == lay.ImageLength()
    requires x < lay.FramedWidth() && y < lay.FramedHeight()
    ensures value == FramedPixel(mosaic, lay, x, y)
  {
    var w, h := lay.ImageWidth(), lay.ImageHeight();
    var fw, fh := lay.FramedWidth(), lay.FramedHeight();
    if x < lay.borderWidth || x >= fw - lay.borderWidth || y < lay.borderWidth || y >= fh - lay.borderWidth {
      value := Black;
    } else {
      var mosaicX := (x - lay.borderWidth) % w;
      var mosaicY := (y - lay.borderWidth) % h;
      var mosaicOffset := (mosaicY * w + mosaicX) * 4;
      ImageLengthIsArea(lay);
      Arith.RowMajorBound(mosaicX, mosaicY, w, h);
      value := Rgba(mosaic[mosaicOffset], mosaic[mosaicOffset + 1], mosaic[mosaicOffset + 2], mosaic[mosaicOffset + 3]);
      assert value == PixelAt(mosaic, mosaicY * w + mosaicX);
    }
  }

  /** The inner copy loop: row y of the final image. */
  method FrameRow(final: array<Byte>, mosaic: seq<Byte>, lay: Layout, y: nat)
    requires lay.Valid() && |mosaic| == lay.ImageLength()
    requires y < lay.FramedHeight()
    requires Framed(final[..], mosaic, lay, y * lay.FramedWidth())
    modifies final
    ensures Framed(final[..], mosaic, lay, (y + 1) * lay.FramedWidth())
  {
    var fw := lay.FramedWidth();
    var x := 0;
    while x < fw
      invariant 0 <= x <= fw
      invariant Framed(final[..], mosaic, lay, y * fw + x)
    {
      FramePixel(final, mosaic, lay, x, y);
      x := x + 1;
    }
    assert y * fw + fw == (y + 1) * fw;
  }

  /** The copy loops over mosaicHeightWithBorder x mosaicWidthWithBorder
      pixels. */
  method AddBorder(mosaic: seq<Byte>, lay: Layout) returns (final: array<Byte>)
    requires lay.Valid() && |mosaic| == lay.ImageLength()
    ensures fresh(final) && final[..] == FramedImage(mosaic, lay)
  {
    final := new Byte[lay.FramedWidth() * lay.FramedHeight() * 4];
    FramedStart(final[..], mosaic, lay);
    FrameRows(final, mosaic, lay);
    FramedComplete(final[..], mosaic, lay);
  }

  /** The outer loop over the rows of the framed image. */
  method FrameRows(final: array<Byte>, mosaic: seq<Byte>, lay: Layout)
    requires lay.Valid() && |mosaic| == lay.ImageLength()
    requires Framed(final[..], mosaic, lay, 0)
    modifies final
    ensures Framed(final[..], mosaic, lay, lay.FramedHeight() * lay.FramedWidth())
  {
    var fw, fh := lay.FramedWidth(), lay.FramedHeight();
    var y := 0;
    ghost var n := 0;
    while y < fh
      invariant 0 <= y <= fh && n == y * fw
      invariant Framed(final[..], mosaic, lay, n)
    {
      FrameRow(final, mosaic, lay, y);
      assert (y + 1) * fw == n + fw;
      y, n := y + 1, n + fw;
    }
  }

  lemma FramedComplete(s: seq<Byte>, m: seq<Byte>, lay: Layout)
    requires lay.Valid() && |m| == lay.ImageLength()
    requires Framed(s, m, lay, lay.FramedHeight() * lay.FramedWidth())
    ensures s == FramedImage(m, lay)
  {
    var f := FramedImage(m, lay);
    forall j | 0 <= j < |s|
      ensures s[j] == f[j]
    {
      Arith.QuotientBelow(j, 4, lay.FramedHeight() * lay.FramedWidth());
    }
  }

  /** createMosaicImage up to the PNG encoding: the framed RGBA buffer of
      the drawn tiles. */
  method CreateMosaicImage(pixels: seq<Color>, lay: Layout) returns (final: array<Byte>)
    requires lay.Valid()
    ensures fresh(final) && final[..] == FramedImage(MosaicImage(pixels, lay), lay)
  {
    var mosaic := PaintTiles(pixels, lay);
    final := AddBorder(mosaic[..], lay);
  }

  /** What the output shows for a grid-sized colour list: interior pixel
      (x, y) is the disc colour of its tile's cell at its local position. */
  lemma InteriorShowsTile(pixels: seq<Color>, lay: Layout, x: nat, y: nat)
    requires lay.Valid() && |pixels| == lay.gridWidth * lay.gridHeight
    requires lay.borderWidth <= x < lay.ImageWidth() + lay.borderWidth
    requires lay.borderWidth <= y < lay.ImageHeight() + lay.borderWidth
    ensures var mx, my := x - lay.borderWidth, y - lay.borderWidth;
      var c := CellOf(lay, mx, my);
      c < |pixels|
      && FramedPixel(MosaicImage(pixels, lay), lay, x, y)
         == TileColor(pixels[c], mx % lay.blockSize, my % lay.blockSize, lay.blockSize)
  {
    var mx, my := x - lay.borderWidth, y - lay.borderWidth;
    var q := my * lay.ImageWidth() + mx;
    var m := MosaicImage(pixels, lay);
    InteriorIsCopy(m, lay, x, y);
    MosaicPixelAt(pixels, lay, mx, my);
    calc {
      FramedPixel(m, lay, x, y);
      PixelAt(m, q);
      { MosaicImagePixel(pixels, lay, q); }
      MosaicPixel(pixels, lay, q);
    }
  }

  /** Pixel (mx, my) of the tile image, for a full colour list, is the disc
      colour of its cell at its local position. */
  lemma MosaicPixelAt(pixels: seq<Color>, lay: Layout, mx: nat, my: nat)
    requires lay.Valid() && |pixels| == lay.gridWidth * lay.gridHeight
    requires mx < lay.ImageWidth() && my < lay.ImageHeight()
    ensures var c := CellOf(lay, mx, my);
      c < |pixels|
      && MosaicPixel(pixels, lay, my * lay.ImageWidth() + mx)
         == TileColor(pixels[c], mx % lay.blockSize, my % lay.blockSize, lay.blockSize)
  {
    var w, h := lay.ImageWidth(), lay.ImageHeight();
    var q := my * w + mx;
    Arith.RowMajorBound(mx, my, w, h);
    Arith.RowMajor(q, w, mx, my);
    PixelOfOwnTile(lay, q);
  }
}
