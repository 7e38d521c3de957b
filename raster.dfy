// Step 5 of `process_image` in src/pngb.c: the packed pixel stream of the
// decoded image is unpacked MSB-first and every pixel is drawn into the cell
// of the tile grid that covers it.
module Raster {
  import opened Types
  import opened Tiles

  // ---------------------------------------------------------------------
  // Arithmetic on quotients and remainders
  // ---------------------------------------------------------------------

  lemma {:induction false} MulMono(x: int, y: int, b: nat)
    requires x <= y
    ensures x * b <= y * b
    decreases y - x
  {
    if x < y {
      MulMono(x, y - 1, b);
      assert y * b == (y - 1) * b + b;
    }
  }

  /** Division is determined by its quotient and remainder. */
  lemma DivModUnique(a: int, b: int, q: int, r: int)
    requires b > 0 && 0 <= r < b && a == q * b + r
    ensures a / b == q && a % b == r
  {
    var q0 := a / b;
    if q0 < q {
      MulMono(q0 + 1, q, b);
    } else if q < q0 {
      MulMono(q + 1, q0, b);
    }
  }

  lemma DivFacts(a: nat, b: nat)
    requires b > 0
    ensures 0 <= a / b && a % b < b && a == (a / b) * b + a % b
  {
  }

  // ---------------------------------------------------------------------
  // Unpacking d-bit pixels from a byte
  // ---------------------------------------------------------------------

  /** The bit depths of an indexed PNG. */
  predicate ValidDepth(d: nat)
  {
    d == 1 || d == 2 || d == 4 || d == 8
  }

  /** `ppb`, the pixels packed in one byte. */
  function PixelsPerByte(d: nat): (n: nat)
    requires ValidDepth(d)
    ensures 1 <= n <= 8
  {
    if d == 1 then 8 else if d == 2 then 4 else if d == 4 then 2 else 1
  }

  /** `pdata <<= bitdepth`: the byte moves on to its next pixel (bits shifted out are lost). */
  function NextPixel(pdata: bv8, d: nat): bv8
    requires ValidDepth(d)
  {
    pdata << d
  }

  /** `pdata >> (8 - bitdepth)`: the pixel in the top `d` bits. */
  function TopPixel(pdata: bv8, d: nat): nat
    requires ValidDepth(d)
  {
    (pdata >> (8 - d)) as nat
  }

  /** The rasterizer's `pdata` after `j` of the `pdata <<= bitdepth` steps on byte `v`. */
  function Shifted(v: bv8, d: nat, j: nat): bv8
    requires ValidDepth(d) && j <= PixelsPerByte(d)
  {
    if j == 0 then v else NextPixel(Shifted(v, d, j - 1), d)
  }

  /** The palette index of source pixel `k`: the top `d` bits of `pdata` when its turn comes (0 past the data). */
  function PixelIndex(data: seq<bv8>, d: nat, k: nat): nat
    requires ValidDepth(d)
  {
    var ppb := PixelsPerByte(d);
    if k / ppb < |data| then TopPixel(Shifted(data[k / ppb], d, k % ppb), d) else 0
  }

  /** Pixel `pix` of byte `b` is source pixel `k = b * ppb + pix`. */
  lemma IndexOfPixel(data: seq<bv8>, d: nat, k: nat, b: nat, pix: nat)
    requires ValidDepth(d) && b < |data| && pix < PixelsPerByte(d) && k == b * PixelsPerByte(d) + pix
    ensures PixelIndex(data, d, k) == TopPixel(Shifted(data[b], d, pix), d)
  {
    DivModUnique(k, PixelsPerByte(d), b, pix);
  }

  lemma Shifts1(v: bv8)
    ensures Shifted(v, 1, 1) == v << 1
    ensures Shifted(v, 1, 2) == v << 2
    ensures Shifted(v, 1, 3) == v << 3
    ensures Shifted(v, 1, 4) == v << 4
    ensures Shifted(v, 1, 5) == v << 5
    ensures Shifted(v, 1, 6) == v << 6
    ensures Shifted(v, 1, 7) == v << 7
  {
    assert Shifted(v, 1, 1) == v << 1;
    assert Shifted(v, 1, 2) == v << 2;
    assert Shifted(v, 1, 3) == v << 3;
    assert Shifted(v, 1, 4) == v << 4;
    assert Shifted(v, 1, 5) == v << 5;
    assert Shifted(v, 1, 6) == v << 6;
  }

  lemma Shifts2(v: bv8)
    ensures Shifted(v, 2, 1) == v << 2
    ensures Shifted(v, 2, 2) == v << 4
    ensures Shifted(v, 2, 3) == v << 6
  {
    assert Shifted(v, 2, 1) == v << 2;
    assert Shifted(v, 2, 2) == v << 4;
  }

  /** At depth 1 the eight pixels of a byte are its bits, most significant first. */
  lemma PixelsOfByte1(v: bv8)
    ensures Shifted(v, 1, 0) >> 7 == (v >> 7) & 0x01
    ensures Shifted(v, 1, 1) >> 7 == (v >> 6) & 0x01
    ensures Shifted(v, 1, 2) >> 7 == (v >> 5) & 0x01
    ensures Shifted(v, 1, 3) >> 7 == (v >> 4) & 0x01
    ensures Shifted(v, 1, 4) >> 7 == (v >> 3) & 0x01
    ensures Shifted(v, 1, 5) >> 7 == (v >> 2) & 0x01
    ensures Shifted(v, 1, 6) >> 7 == (v >> 1) & 0x01
    ensures Shifted(v, 1, 7) >> 7 == v & 0x01
  {
    Shifts1(v);
  }

  /** At depth 2 the four pixels of a byte are its bit pairs, most significant first. */
  lemma PixelsOfByte2(v: bv8)
    ensures Shifted(v, 2, 0) >> 6 == (v >> 6) & 0x03
    ensures Shifted(v, 2, 1) >> 6 == (v >> 4) & 0x03
    ensures Shifted(v, 2, 2) >> 6 == (v >> 2) & 0x03
    ensures Shifted(v, 2, 3) >> 6 == v & 0x03
  {
    Shifts2(v);
  }

  /** At depth 4 the high nibble is the first pixel and the low nibble the second. */
  lemma PixelsOfByte4(v: bv8)
    ensures Shifted(v, 4, 0) >> 4 == (v >> 4) & 0x0f
    ensures Shifted(v, 4, 1) >> 4 == v & 0x0f
  {
    assert Shifted(v, 4, 1) == v << 4;
  }

  /** At depth 8 the byte is the pixel. */
  lemma PixelsOfByte8(v: bv8)
    ensures Shifted(v, 8, 0) >> 0 == v
  {
  }

  // ---------------------------------------------------------------------
  // Where each source pixel lands
  // ---------------------------------------------------------------------

  /** The geometry of a picture: image size, tile grid and tile height. */
  datatype Grid = Grid(w: nat, h: nat, cols: nat, rows: nat, th: nat)

  /** The grid `allocate_gb_pict` builds: `cols = ceil(w/8)` and `rows = ceil(h/th)`. */
  predicate GridOk(g: Grid)
  {
    g.th > 0 && g.cols == CeilDiv(g.w, 8) && g.rows == CeilDiv(g.h, g.th)
  }

  function GridOf(pic: PicData): Grid
  {
    Grid(pic.w, pic.h, pic.cols, pic.rows, pic.tileh)
  }

  /** A pixel position in the tile store: tile number and the column and row inside the tile. */
  datatype Cell = Cell(tile: nat, x: nat, y: nat)

  /** The cell source pixel `k` is drawn into: `x = k % w`, `y = k / w`, tile `(y/th)*cols + x/8` at `(x%8, y%th)`. */
  function CellOf(g: Grid, k: nat): Cell
    requires g.w > 0 && g.th > 0
  {
    DivFacts(k, g.w);
    var x, y := k % g.w, k / g.w;
    DivFacts(y, g.th);
    DivFacts(x, 8);
    MulMono(0, y / g.th, g.cols);
    Cell((y / g.th) * g.cols + x / 8, x % 8, y % g.th)
  }

  /** The source pixel shown by a cell, or -1 for a cell in the padding right of or below the image. */
  function SourceOf(g: Grid, c: Cell): (k: int)
  {
    if g.cols == 0 then -1
    else
      var x, y := (c.tile % g.cols) * 8 + c.x, (c.tile / g.cols) * g.th + c.y;
      if x < g.w && y < g.h then y * g.w + x else -1
  }

  /** Every source pixel lands in a cell of the grid, and that cell shows that pixel. */
  lemma CellSource(g: Grid, k: nat)
    requires GridOk(g) && k < g.w * g.h
    ensures g.w > 0
    ensures var c := CellOf(g, k);
      c.tile < g.cols * g.rows && c.x < 8 && c.y < g.th && SourceOf(g, c) == k
  {
    var w, cols, rows, th := g.w, g.cols, g.rows, g.th;
    DivFacts(k, w);
    var x, y := k % w, k / w;
    DivFacts(x, 8);
    DivFacts(y, th);
    var tx, ty := x / 8, y / th;
    if y >= g.h {
      MulMono(g.h, y, w);
    }
    if ty >= rows {
      MulMono(rows, ty, th);
    }
    MulMono(ty + 1, rows, cols);
    assert (ty + 1) * cols == ty * cols + cols;
    var t := ty * cols + tx;
    DivModUnique(t, cols, ty, tx);
  }

  /** A cell that shows a source pixel is the one that pixel is drawn into. */
  lemma SourceCell(g: Grid, c: Cell)
    requires g.th > 0 && c.x < 8 && c.y < g.th
    requires SourceOf(g, c) >= 0
    ensures g.w > 0
    ensures var k := SourceOf(g, c);
      k < g.w * g.h && CellOf(g, k) == c
  {
    var w, cols, th := g.w, g.cols, g.th;
    DivFacts(c.tile, cols);
    var tx, ty := c.tile % cols, c.tile / cols;
    var x, y := tx * 8 + c.x, ty * th + c.y;
    var k := y * w + x;
    DivModUnique(k, w, y, x);
    DivModUnique(x, 8, tx, c.x);
    DivModUnique(y, th, ty, c.y);
    MulMono(y + 1, g.h, w);
    assert (y + 1) * w == y * w + w;
  }

  // ---------------------------------------------------------------------
  // The picture after the first K source pixels
  // ---------------------------------------------------------------------

  /**
   * The colour drawn for source pixel `k`: its palette index looked up in
   * `palette_map`. `set_tile_pixel` ignores a colour of 4 or more, which the
   * cell therefore keeps at 0.
   */
  function SourceColor(data: seq<bv8>, d: nat, pmap: seq<Byte>, k: nat): (color: nat)
    requires ValidDepth(d)
    ensures color < 4
  {
    var i := PixelIndex(data, d, k);
    if i < |pmap| && pmap[i] < 4 then pmap[i] else 0
  }

  /** The colour of a cell once source pixels `0 .. K-1` are drawn on blank tiles. */
  function Drawn(g: Grid, data: seq<bv8>, d: nat, pmap: seq<Byte>, K: nat, c: Cell): (color: nat)
    requires ValidDepth(d)
  {
    var k := SourceOf(g, c);
    if 0 <= k < K then SourceColor(data, d, pmap, k) else 0
  }

  /** Drawing source pixel `K` changes the cell it lands in, and only that cell. */
  lemma DrawnStep(g: Grid, data: seq<bv8>, d: nat, pmap: seq<Byte>, K: nat, c: Cell)
    requires GridOk(g) && ValidDepth(d) && c.x < 8 && c.y < g.th
    ensures Drawn(g, data, d, pmap, K + 1, c) ==
      if g.w > 0 && K < g.w * g.h && c == CellOf(g, K) then SourceColor(data, d, pmap, K) else Drawn(g, data, d, pmap, K, c)
  {
    if SourceOf(g, c) >= 0 {
      SourceCell(g, c);
    }
    if g.w > 0 && K < g.w * g.h && c == CellOf(g, K) {
      CellSource(g, K);
    }
  }

  /**
   * After the first `K` source pixels are drawn, source pixel `k < K` shows
   * in its cell with its colour.
   */
  lemma PixelLands(g: Grid, data: seq<bv8>, d: nat, pmap: seq<Byte>, K: nat, k: nat)
    requires GridOk(g) && ValidDepth(d) && k < K && k < g.w * g.h
    ensures g.w > 0
    ensures var c := CellOf(g, k);
      c.tile < g.cols * g.rows && c.x < 8 && c.y < g.th && Drawn(g, data, d, pmap, K, c) == SourceColor(data, d, pmap, k)
  {
    CellSource(g, k);
  }

  /** Drawing past the last source pixel changes nothing. */
  lemma DrawnSaturates(g: Grid, data: seq<bv8>, d: nat, pmap: seq<Byte>, K: nat, c: Cell)
    requires g.th > 0 && ValidDepth(d) && c.x < 8 && c.y < g.th && K >= g.w * g.h
    ensures Drawn(g, data, d, pmap, K, c) == Drawn(g, data, d, pmap, g.w * g.h, c)
  {
    if SourceOf(g, c) >= 0 {
      SourceCell(g, c);
    }
  }

  // ---------------------------------------------------------------------
  // How many bytes step 5 reads
  // ---------------------------------------------------------------------

  /** `tBytes = width*height/ppb` as the source computes it: rounded down. */
  function ByteCountAsWritten(w: nat, h: nat, d: nat): nat
    requires ValidDepth(d)
  {
    (w * h) / PixelsPerByte(d)
  }

  /** The number of bytes holding the `w*h` packed pixels: rounded up. */
  function ByteCount(w: nat, h: nat, d: nat): (n: nat)
    requires ValidDepth(d)
    ensures n * PixelsPerByte(d) >= w * h
    ensures n == 0 || (n - 1) * PixelsPerByte(d) < w * h
  {
    CeilDiv(w * h, PixelsPerByte(d))
  }

  /** With the rounded-up count every source pixel shows in its cell. */
  lemma ByteCountDrawsAll(g: Grid, data: seq<bv8>, d: nat, pmap: seq<Byte>, k: nat)
    requires GridOk(g) && ValidDepth(d) && k < g.w * g.h
    ensures g.w > 0
    ensures Drawn(g, data, d, pmap, ByteCount(g.w, g.h, d) * PixelsPerByte(d), CellOf(g, k)) == SourceColor(data, d, pmap, k)
  {
    PixelLands(g, data, d, pmap, ByteCount(g.w, g.h, d) * PixelsPerByte(d), k);
  }

  /**
   * A 3x3 image at depth 1 holds 9 pixels in 2 bytes, but the rounded-down
   * count reads 1 byte: the last pixel (2, 2) is never drawn. With the data
   * `[0x00, 0x80]` and the identity map that pixel has colour 1 and stays 0.
   */
  lemma AsWrittenDropsLastPixels()
    ensures ByteCountAsWritten(3, 3, 1) == 1 && ByteCount(3, 3, 1) == 2
    ensures var g, data, pmap := Grid(3, 3, 1, 1, 8), [0x00, 0x80], [0, 1];
      && GridOk(g) && CellOf(g, 8) == Cell(0, 2, 2)
      && SourceColor(data, 1, pmap, 8) == 1
      && Drawn(g, data, 1, pmap, ByteCountAsWritten(3, 3, 1) * 8, Cell(0, 2, 2)) == 0
      && Drawn(g, data, 1, pmap, ByteCount(3, 3, 1) * 8, Cell(0, 2, 2)) == 1
  {
    var g, data, pmap: seq<Byte> := Grid(3, 3, 1, 1, 8), [0x00, 0x80], [0, 1];
    DivModUnique(9, 8, 1, 1);
    CellSource(g, 8);
    DivModUnique(8, 3, 2, 2);
    DivModUnique(8, 8, 1, 0);
    assert Shifted(0x80, 1, 0) >> 7 == 1;
  }

  // ---------------------------------------------------------------------
  // The rasterizer loop
  // ---------------------------------------------------------------------

  /** Every pixel of every tile is 0, as `allocate_gb_pict` leaves them. */
  ghost predicate Blank(pic: PicData)
    reads pic, pic.tiles
    requires pic.Valid()
  {
    forall t, x, y :: 0 <= t < pic.Cells() && 0 <= x < 8 && 0 <= y < pic.tileh ==> pic.Pixel(t, x, y) == 0
  }

  /** Every cell holds the colour it has once source pixels `0 .. K-1` are drawn. */
  ghost predicate DrawnUpTo(pic: PicData, data: seq<bv8>, d: nat, pmap: seq<Byte>, K: nat)
    reads pic, pic.tiles
    requires pic.Valid() && ValidDepth(d)
  {
    forall t, x, y :: 0 <= t < pic.Cells() && 0 <= x < 8 && 0 <= y < pic.tileh ==>
      pic.Pixel(t, x, y) == Drawn(GridOf(pic), data, d, pmap, K, Cell(t, x, y))
  }

  /**
   * Draw source pixel `k` with the palette index `index` (its top bits of
   * `pdata`): the body of the inner loop of step 5. A pixel past `w*h` is
   * skipped.
   */
  method DrawPixel(pic: PicData, k: nat, index: nat, ghost data: seq<bv8>, d: nat, pmap: seq<Byte>)
    requires pic.Valid() && GridOk(GridOf(pic)) && ValidDepth(d)
    requires forall k :: 0 <= k < pic.w * pic.h ==> PixelIndex(data, d, k) < |pmap|
    requires index == PixelIndex(data, d, k)
    requires DrawnUpTo(pic, data, d, pmap, k)
    modifies pic.tiles
    ensures DrawnUpTo(pic, data, d, pmap, k + 1)
  {
    var g := GridOf(pic);
    if k < pic.w * pic.h {
      CellSource(g, k);
      var x, y := k % pic.w, k / pic.w;
      var tile := (y / pic.tileh) * pic.cols + x / 8;
      assert Cell(tile, x % 8, y % pic.tileh) == CellOf(g, k);
      pic.SetTilePixel(tile, x % 8, y % pic.tileh, pmap[index]);
    }
    forall t, x', y' | 0 <= t < pic.Cells() && 0 <= x' < 8 && 0 <= y' < pic.tileh
      ensures pic.Pixel(t, x', y') == Drawn(g, data, d, pmap, k + 1, Cell(t, x', y'))
    {
      DrawnStep(g, data, d, pmap, k, Cell(t, x', y'));
    }
  }

  /** The inner loop of step 5: the pixels of byte `b` (source pixels `k0 = b * ppb` onwards), MSB first. */
  method DrawByte(pic: PicData, data: seq<bv8>, d: nat, pmap: seq<Byte>, b: nat, k0: nat)
    requires pic.Valid() && GridOk(GridOf(pic)) && ValidDepth(d) && b < |data| && k0 == b * PixelsPerByte(d)
    requires forall k :: 0 <= k < pic.w * pic.h ==> PixelIndex(data, d, k) < |pmap|
    requires DrawnUpTo(pic, data, d, pmap, k0)
    modifies pic.tiles
    ensures DrawnUpTo(pic, data, d, pmap, k0 + PixelsPerByte(d))
  {
    var ppb := PixelsPerByte(d);
    var pdata := data[b];
    var pix := 0;
    var k := k0;
    while pix < ppb
      invariant 0 <= pix <= ppb && k == k0 + pix
      invariant pdata == Shifted(data[b], d, pix)
      invariant DrawnUpTo(pic, data, d, pmap, k)
    {
      IndexOfPixel(data, d, k, b, pix);
      DrawPixel(pic, k, TopPixel(pdata, d), data, d, pmap);
      pdata := NextPixel(pdata, d);
      pix := pix + 1;
      k := k + 1;
    }
  }

  /**
   * The rasterizer loop of step 5: bytes `0 .. tBytes-1` of the packed
   * pixel data are unpacked and drawn on the blank picture, so that every
   * cell ends up with the colour of its source pixel if that pixel is among
   * the first `tBytes * ppb`, and 0 otherwise.
   */
  method Rasterize(pic: PicData, data: seq<bv8>, d: nat, pmap: seq<Byte>, tBytes: nat)
    requires pic.Valid() && GridOk(GridOf(pic)) && ValidDepth(d) && tBytes <= |data|
    requires forall k :: 0 <= k < pic.w * pic.h ==> PixelIndex(data, d, k) < |pmap|
    requires Blank(pic)
    modifies pic.tiles
    ensures DrawnUpTo(pic, data, d, pmap, tBytes * PixelsPerByte(d))
  {
    var ppb := PixelsPerByte(d);
    var b := 0;
    var k := 0;
    while b < tBytes
      invariant 0 <= b <= tBytes && k == b * ppb
      invariant DrawnUpTo(pic, data, d, pmap, k)
    {
      DrawByte(pic, data, d, pmap, b, k);
      assert (b + 1) * ppb == b * ppb + ppb;
      b := b + 1;
      k := k + ppb;
    }
  }
}
