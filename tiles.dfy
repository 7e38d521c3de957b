// The tile store of src/pngb.c: the PICDATA record, the interleaved 2bpp
// layout, and the in-place reduction of duplicate tiles.
module Tiles {
  import opened Types
  import opened Palette

  /** `a` divided by `b`, rounded up (the "round to nearest block" of `allocate_gb_pict`). */
  function CeilDiv(a: nat, b: nat): (q: nat)
    requires b > 0
    ensures q * b >= a
    ensures q == 0 || (q - 1) * b < a
  {
    if a % b == 0 then a / b else a / b + 1
  }

  /** The byte with only bit `i` set (0 is the least significant bit). */
  function BitMask(i: nat): (m: bv8)
    requires i < 8
  {
    if i == 0 then 0x01 else if i == 1 then 0x02 else if i == 2 then 0x04 else if i == 3 then 0x08
    else if i == 4 then 0x10 else if i == 5 then 0x20 else if i == 6 then 0x40 else 0x80
  }

  /** `0x80 >> x`, the mask `set_tile_pixel` uses for column `x`, is bit `7 - x`. */
  lemma ColumnMask(x: nat)
    requires x < 8
    ensures (0x80 as bv8) >> x == BitMask(7 - x)
  {
  }

  /** Bit `i` of a byte, as 0 or 1. */
  function Bit(v: bv8, i: nat): nat
    requires i < 8
  {
    if v & BitMask(i) != 0 then 1 else 0
  }

  /**
   * One plane of `set_tile_pixel`: the bits of `mask` are cleared (`&= ~mask`)
   * and then set (`|= mask`) when the colour's bit for this plane is 1.
   */
  function WritePlane(v: bv8, mask: bv8, bit: nat): bv8
  {
    if bit == 1 then (v & !mask) | mask else v & !mask
  }

  /** The plane write sets bit `7 - x` of the byte to `bit` and keeps the seven others. */
  lemma WritePlaneBits(v: bv8, x: nat, bit: nat)
    requires x < 8 && bit < 2
    ensures Bit(WritePlane(v, BitMask(7 - x), bit), 7 - x) == bit
    ensures forall i :: 0 <= i < 8 && i != 7 - x ==> Bit(WritePlane(v, BitMask(7 - x), bit), i) == Bit(v, i)
  {
  }

  /** Bytes `[Off(t, ts), Off(t, ts) + ts)` of the buffer: tile `t` of `ts` bytes (empty past the end). */
  function TileAt(buf: seq<bv8>, ts: nat, t: nat): (tile: seq<bv8>)
    ensures Off(t, ts) + ts <= |buf| ==> |tile| == ts
  {
    if Off(t, ts) + ts <= |buf| then buf[Off(t, ts) .. Off(t, ts) + ts] else []
  }

  /** The colour of pixel `(x, y)` in an encoded tile: low plane in byte `2y`, high plane in byte `2y + 1`, MSB first. */
  function PixelOfTile(tile: seq<bv8>, x: nat, y: nat): nat
    requires x < 8 && 2 * y + 1 < |tile|
  {
    Bit(tile[2 * y], 7 - x) + 2 * Bit(tile[2 * y + 1], 7 - x)
  }

  /**
   * `t * ts`, the byte offset of tile `t` when each tile takes `ts` bytes.
   * The ordering of tile ranges is proved once below, so that callers do not
   * reason about the product.
   */
  function Off(t: nat, ts: nat): (o: nat)
  {
    t * ts
  }

  /** Tiles `t < t'` occupy disjoint, ordered byte ranges. */
  lemma {:induction false} TilesOrdered(t: nat, t': nat, ts: nat)
    requires t < t'
    ensures Off(t, ts) + ts <= Off(t', ts)
    decreases t'
  {
    assert Off(t', ts) == Off(t' - 1, ts) + ts by {
      assert t' * ts == (t' - 1) * ts + ts;
    }
    if t + 1 < t' {
      TilesOrdered(t, t' - 1, ts);
    }
  }

  /** Two different tiles do not overlap. */
  lemma TilesApart(a: nat, b: nat, ts: nat)
    ensures a == b || Off(a, ts) + ts <= Off(b, ts) || Off(b, ts) + ts <= Off(a, ts)
  {
    if a < b {
      TilesOrdered(a, b, ts);
    } else if b < a {
      TilesOrdered(b, a, ts);
    }
  }

  /** A tile of a buffer of `n` whole tiles lies inside it. */
  lemma TileInside(t: nat, n: nat, ts: nat)
    requires t < n
    ensures Off(t, ts) + ts <= Off(n, ts)
  {
    TilesOrdered(t, n, ts);
  }

  /** The two plane writes of `set_tile_pixel` on the bytes of one tile. */
  function TileWrite(tile: seq<bv8>, x: nat, y: nat, color: nat): (r: seq<bv8>)
    requires x < 8 && 2 * y + 1 < |tile|
    ensures |r| == |tile|
  {
    tile[2 * y := WritePlane(tile[2 * y], BitMask(7 - x), color % 2)][2 * y + 1 := WritePlane(tile[2 * y + 1], BitMask(7 - x), color / 2)]
  }

  /** The buffer after `set_tile_pixel` writes `color` at `(x, y)` of tile `tile`. */
  function WritePixel(buf: seq<bv8>, ts: nat, tile: nat, x: nat, y: nat, color: nat): seq<bv8>
    requires x < 8 && Off(tile, ts) + 2 * y + 1 < |buf|
  {
    var p := Off(tile, ts) + 2 * y;
    buf[p := WritePlane(buf[p], BitMask(7 - x), color % 2)][p + 1 := WritePlane(buf[p + 1], BitMask(7 - x), color / 2)]
  }

  /** A pixel write on the buffer is that write on its tile, and leaves the other tiles alone. */
  lemma WritePixelTiles(buf: seq<bv8>, ts: nat, tile: nat, x: nat, y: nat, color: nat, t: nat)
    requires Off(tile, ts) + ts <= |buf| && Off(t, ts) + ts <= |buf| && x < 8 && 2 * y + 1 < ts
    ensures TileAt(WritePixel(buf, ts, tile, x, y, color), ts, t) ==
      if t == tile then TileWrite(TileAt(buf, ts, tile), x, y, color) else TileAt(buf, ts, t)
  {
    TilesApart(t, tile, ts);
    var q := Off(tile, ts);
    var p := q + 2 * y;
    var old0 := buf[q .. q + ts];
    assert TileAt(buf, ts, tile) == old0;
    assert old0[2 * y] == buf[p] && old0[2 * y + 1] == buf[p + 1];
  }

  /** The two plane writes of one pixel give that column the colour and keep the other columns. */
  lemma PlanePairPixel(lo: bv8, hi: bv8, x: nat, color: nat, x': nat)
    requires x < 8 && x' < 8 && color < 4
    ensures Bit(WritePlane(lo, BitMask(7 - x), color % 2), 7 - x') + 2 * Bit(WritePlane(hi, BitMask(7 - x), color / 2), 7 - x') ==
      if x' == x then color else Bit(lo, 7 - x') + 2 * Bit(hi, 7 - x')
  {
    WritePlaneBits(lo, x, color % 2);
    WritePlaneBits(hi, x, color / 2);
  }

  /** In a tile, the written pixel reads back as the colour and every other pixel is unchanged. */
  lemma TileWriteReadBack(tile: seq<bv8>, x: nat, y: nat, color: nat, x': nat, y': nat)
    requires x < 8 && x' < 8 && 2 * y + 1 < |tile| && 2 * y' + 1 < |tile| && color < 4
    ensures PixelOfTile(TileWrite(tile, x, y, color), x', y') ==
      if (x', y') == (x, y) then color else PixelOfTile(tile, x', y')
  {
    if y' == y {
      PlanePairPixel(tile[2 * y], tile[2 * y + 1], x, color, x');
    }
  }

  /** After a pixel write the written pixel reads back as the colour and every other pixel is unchanged. */
  lemma WritePixelReadBack(buf: seq<bv8>, ts: nat, tile: nat, x: nat, y: nat, color: nat, t: nat, x': nat, y': nat)
    requires Off(tile, ts) + ts <= |buf| && Off(t, ts) + ts <= |buf|
    requires x < 8 && x' < 8 && 2 * y + 1 < ts && 2 * y' + 1 < ts && color < 4
    ensures PixelOfTile(TileAt(WritePixel(buf, ts, tile, x, y, color), ts, t), x', y') ==
      if (t, x', y') == (tile, x, y) then color else PixelOfTile(TileAt(buf, ts, t), x', y')
  {
    WritePixelTiles(buf, ts, tile, x, y, color, t);
    if t == tile {
      TileWriteReadBack(TileAt(buf, ts, tile), x, y, color, x', y');
    }
  }

  /** Every tile index of the map names one of the first `total` tiles. */
  ghost predicate Closed(tilemap: seq<nat>, total: nat)
  {
    forall c :: 0 <= c < |tilemap| ==> tilemap[c] < total
  }

  /** The picture as shown: the tile bytes each map cell displays. */
  function Render(buf: seq<bv8>, ts: nat, tilemap: seq<nat>): (r: seq<seq<bv8>>)
    ensures |r| == |tilemap|
  {
    seq(|tilemap|, c requires 0 <= c < |tilemap| => TileAt(buf, ts, tilemap[c]))
  }

  /** The first `total` tiles are pairwise different. */
  ghost predicate Distinct(buf: seq<bv8>, ts: nat, total: nat)
  {
    forall a, b :: 0 <= a < b < total ==> TileAt(buf, ts, a) != TileAt(buf, ts, b)
  }

  /** The map with every occurrence of `told` turned into `tnew`. */
  function Replaced(tilemap: seq<nat>, told: nat, tnew: nat): (r: seq<nat>)
    ensures |r| == |tilemap|
  {
    seq(|tilemap|, c requires 0 <= c < |tilemap| => if tilemap[c] == told then tnew else tilemap[c])
  }

  /** The buffer with tile `dest` overwritten by a copy of tile `src`. */
  function CopiedTile(buf: seq<bv8>, ts: nat, dest: nat, src: nat): seq<bv8>
    requires Off(dest, ts) + ts <= |buf| && Off(src, ts) + ts <= |buf|
  {
    buf[..Off(dest, ts)] + buf[Off(src, ts) .. Off(src, ts) + ts] + buf[Off(dest, ts) + ts..]
  }

  /** One byte of a buffer after a tile copy. */
  lemma CopiedTileIndex(buf: seq<bv8>, ts: nat, dest: nat, src: nat, k: nat)
    requires Off(dest, ts) + ts <= |buf| && Off(src, ts) + ts <= |buf| && k < |buf|
    ensures |CopiedTile(buf, ts, dest, src)| == |buf|
    ensures CopiedTile(buf, ts, dest, src)[k] ==
      if Off(dest, ts) <= k < Off(dest, ts) + ts then buf[k - Off(dest, ts) + Off(src, ts)] else buf[k]
  {
  }

  /** A slice of a buffer whose range `[p, p + |m|)` was replaced by `m`, taken away from or exactly over that range. */
  lemma SpliceSlice(buf: seq<bv8>, p: nat, m: seq<bv8>, i: nat, j: nat)
    requires p + |m| <= |buf| && i <= j <= |buf|
    requires j <= p || p + |m| <= i || (i == p && j == p + |m|)
    ensures var c := buf[..p] + m + buf[p + |m|..];
      |c| == |buf| && c[i..j] == if i == p && j == p + |m| then m else buf[i..j]
  {
    var c := buf[..p] + m + buf[p + |m|..];
    assert |c| == |buf|;
    if i == p && j == p + |m| {
      assert c[i..j] == m by {
        forall k | 0 <= k < |m|
          ensures c[i..j][k] == m[k]
        {
          assert c[p + k] == m[k];
        }
      }
    } else {
      assert c[i..j] == buf[i..j] by {
        forall k | 0 <= k < j - i
          ensures c[i..j][k] == buf[i..j][k]
        {
          assert c[i + k] == buf[i + k];
        }
      }
    }
  }

  /** Copying a tile changes that tile only. */
  lemma CopiedTileAt(buf: seq<bv8>, ts: nat, dest: nat, src: nat, t: nat)
    requires Off(dest, ts) + ts <= |buf| && Off(src, ts) + ts <= |buf| && Off(t, ts) + ts <= |buf|
    ensures |CopiedTile(buf, ts, dest, src)| == |buf|
    ensures TileAt(CopiedTile(buf, ts, dest, src), ts, t) == if t == dest then TileAt(buf, ts, src) else TileAt(buf, ts, t)
  {
    TilesApart(t, dest, ts);
    var pd, ps, pt := Off(dest, ts), Off(src, ts), Off(t, ts);
    SpliceSlice(buf, pd, buf[ps .. ps + ts], pt, pt + ts);
  }

  /**
   * `PICDATA`: the picture's geometry, the tile store (`tiles`), the tile map
   * and the four 15-bit palette words. The geometry and the buffers are fixed
   * at allocation; the buffer contents and `totalTiles` change.
   */
  class PicData {
    const w: nat
    const h: nat
    const cols: nat
    const rows: nat
    const tileh: nat
    var totalTiles: nat
    const tiles: array<bv8>
    const tilemap: array<nat>
    const pal: array<bv16>

    /** Cells of the grid (the tile map's length). */
    function Cells(): nat
    {
      cols * rows
    }

    /** Bytes per tile: two per row. */
    function TileSize(): nat
    {
      tileh * 2
    }

    ghost predicate Valid()
      reads this
    {
      && (tileh == 8 || tileh == 16)
      && tiles as object != tilemap && tiles as object != pal && tilemap as object != pal
      && tiles.Length == Off(Cells(), TileSize())
      && tilemap.Length == Cells()
      && pal.Length == 4
      && totalTiles <= Cells()
    }

    /** Every tile map entry names one of the first `totalTiles` tiles. */
    ghost predicate MapClosed()
      reads this, tilemap
    {
      Closed(tilemap[..], totalTiles)
    }

    /** The colour of pixel `(x, y)` of tile `t`. */
    ghost function Pixel(t: nat, x: nat, y: nat): nat
      reads this, tiles
      requires Valid() && t < Cells() && x < 8 && y < tileh
    {
      TileInside(t, Cells(), TileSize());
      PixelOfTile(TileAt(tiles[..], TileSize(), t), x, y)
    }

    /** `allocate_gb_pict` */
    constructor (w: nat, h: nat, mode16: bool)
      ensures Valid()
      ensures this.w == w && this.h == h && tileh == (if mode16 then 16 else 8)
      ensures cols == CeilDiv(w, 8) && rows == CeilDiv(h, tileh)
      ensures totalTiles == Cells()
      ensures fresh(tiles) && fresh(tilemap) && fresh(pal)
      ensures forall i :: 0 <= i < tiles.Length ==> tiles[i] == 0
      ensures forall t :: 0 <= t < tilemap.Length ==> tilemap[t] == t
      ensures forall i :: 0 <= i < pal.Length ==> pal[i] == 0
    {
      var th := if mode16 then 16 else 8;
      var c := CeilDiv(w, 8);
      var r := CeilDiv(h, th);
      var n := c * r;
      var tm := new nat[n];
      var t := 0;
      while t < n
        invariant 0 <= t <= n
        invariant forall k :: 0 <= k < t ==> tm[k] == k
      {
        tm[t] := t;
        t := t + 1;
      }
      this.tileh := th;
      this.w := w;
      this.h := h;
      cols := c;
      rows := r;
      totalTiles := n;
      tiles := new bv8[n * (th * 2)](_ => 0);
      tilemap := tm;
      pal := new bv16[4](_ => 0);
    }

    /** `set_tile_pixel`: write a 2-bit colour; out-of-range arguments change nothing. */
    method SetTilePixel(tile: nat, x: nat, y: nat, color: nat)
      requires Valid()
      modifies tiles
      ensures !(tile < Cells() && x < 8 && y < tileh && color < 4) ==> tiles[..] == old(tiles[..])
      ensures tile < Cells() && x < 8 && y < tileh && color < 4 ==>
        Off(tile, TileSize()) + 2 * y + 1 < tiles.Length &&
        tiles[..] == WritePixel(old(tiles[..]), TileSize(), tile, x, y, color)
      ensures tile < Cells() && x < 8 && y < tileh && color < 4 ==>
        && Pixel(tile, x, y) == color
        && (forall t, x', y' :: 0 <= t < Cells() && 0 <= x' < 8 && 0 <= y' < tileh && (t, x', y') != (tile, x, y) ==>
              Pixel(t, x', y') == old(Pixel(t, x', y')))
    {
      if tile >= Cells() || x >= 8 || y >= tileh || color >= 4 {
        return;
      }
      var ts := TileSize();
      ghost var before := tiles[..];
      TileInside(tile, Cells(), ts);
      var base := tile * ts + y * 2;
      var mask: bv8 := 0x80 >> x;
      tiles[base] := WritePlane(tiles[base], mask, color % 2);
      tiles[base + 1] := WritePlane(tiles[base + 1], mask, color / 2);
      assert tiles[..] == before[base := WritePlane(before[base], mask, color % 2)][base + 1 := WritePlane(before[base + 1], mask, color / 2)];
      ColumnMask(x);
      assert tiles[..] == WritePixel(before, ts, tile, x, y, color);
      forall t, x', y' | 0 <= t < Cells() && 0 <= x' < 8 && 0 <= y' < tileh
        ensures Pixel(t, x', y') == if (t, x', y') == (tile, x, y) then color else old(Pixel(t, x', y'))
      {
        TileInside(t, Cells(), ts);
        WritePixelReadBack(before, ts, tile, x, y, color, t, x', y');
      }
    }

    /**
     * `get_tile_row`: the low-plane byte of a row in the high half and the
     * high-plane byte in the low half; 0 for an out-of-range row or tile.
     */
    function GetTileRow(tile: nat, row: nat): (word: bv16)
      reads this, tiles
      requires Valid()
      ensures !(row < tileh && tile < Cells()) ==> word == 0
      ensures row < tileh && tile < Cells() ==> forall x :: 0 <= x < 8 ==> RowPixel(word, x) == Pixel(tile, x, row)
    {
      if row >= tileh || tile >= Cells() then 0
      else
        var ts := TileSize();
        TileInside(tile, Cells(), ts);
        var base := tile * ts + row * 2;
        assert TileAt(tiles[..], ts, tile)[2 * row] == tiles[base];
        assert TileAt(tiles[..], ts, tile)[2 * row + 1] == tiles[base + 1];
        RowWordBytes(tiles[base], tiles[base + 1]);
        ((tiles[base] as bv16) << 8) | (tiles[base + 1] as bv16)
    }

    /** `set_gb_pal_entry`: store the packed 15-bit colour; an index of 4 or more changes nothing. */
    method SetPalEntry(index: nat, r: Byte, g: Byte, b: Byte)
      requires Valid()
      modifies pal
      ensures index < 4 ==> pal[..] == old(pal[..])[index := PackColor(r, g, b)]
      ensures index >= 4 ==> pal[..] == old(pal[..])
    {
      if index >= 4 {
        return;
      }
      pal[index] := PackColor(r, g, b);
    }

    /**
     * `compare_gb_tiles`, reporting "different" (the C function's non-zero
     * result) for an out-of-range tile and for a tile compared with itself.
     */
    function CompareTiles(t0: nat, t1: nat): (different: bool)
      reads this, tiles
      requires Valid()
      ensures !different <==>
        t0 < Cells() && t1 < Cells() && t0 != t1 && TileAt(tiles[..], TileSize(), t0) == TileAt(tiles[..], TileSize(), t1)
    {
      if t0 >= Cells() || t1 >= Cells() then true
      else if t0 == t1 then true
      else
        var ts := TileSize();
        TileInside(t0, Cells(), ts);
        TileInside(t1, Cells(), ts);
        tiles[t0 * ts .. t0 * ts + ts] != tiles[t1 * ts .. t1 * ts + ts]
    }

    /** `copy_gb_tile`: overwrite tile `dest` with tile `src`; out-of-range arguments change nothing. */
    method CopyTile(dest: nat, src: nat)
      requires Valid()
      modifies tiles
      ensures !(dest < Cells() && src < Cells()) ==> tiles[..] == old(tiles[..])
      ensures dest < Cells() && src < Cells() ==>
        Off(dest, TileSize()) + TileSize() <= tiles.Length && Off(src, TileSize()) + TileSize() <= tiles.Length &&
        tiles[..] == CopiedTile(old(tiles[..]), TileSize(), dest, src)
    {
      if dest >= Cells() || src >= Cells() {
        return;
      }
      var ts := TileSize();
      TileInside(dest, Cells(), ts);
      TileInside(src, Cells(), ts);
      var d, s := dest * ts, src * ts;
      ghost var before := tiles[..];
      forall i | 0 <= i < ts {
        tiles[d + i] := tiles[s + i];
      }
      ghost var r := CopiedTile(before, ts, dest, src);
      forall k | 0 <= k < tiles.Length ensures tiles[k] == r[k] {
        CopiedTileIndex(before, ts, dest, src, k);
      }
      assert tiles[..] == r;
    }

    /** `replace_in_tilemap`: every reference to `told` becomes `tnew`. */
    method ReplaceInTilemap(told: nat, tnew: nat)
      modifies tilemap
      ensures tilemap[..] == Replaced(old(tilemap[..]), told, tnew)
    {
      var t := 0;
      while t < tilemap.Length
        invariant 0 <= t <= tilemap.Length
        invariant forall k :: 0 <= k < t ==> tilemap[k] == Replaced(old(tilemap[..]), told, tnew)[k]
        invariant forall k :: t <= k < tilemap.Length ==> tilemap[k] == old(tilemap[k])
      {
        if tilemap[t] == told {
          tilemap[t] := tnew;
        }
        t := t + 1;
      }
    }

    /**
     * The body of `do_tile_reduction` for a duplicate `t2` of `t1`: references
     * to `t2` go to `t1`, the last tile moves into slot `t2` (with its
     * references) and the tile count drops by one.
     */
    method ReplaceByLast(t1: nat, t2: nat)
      requires Valid() && t2 < totalTiles
      modifies this, tiles, tilemap
      ensures Valid()
      ensures totalTiles == old(totalTiles) - 1
      ensures Off(t2, TileSize()) + TileSize() <= tiles.Length && Off(totalTiles, TileSize()) + TileSize() <= tiles.Length
      ensures tiles[..] == CopiedTile(old(tiles[..]), TileSize(), t2, totalTiles)
      ensures tilemap[..] == Replaced(Replaced(old(tilemap[..]), t2, t1), totalTiles, t2)
    {
      var last := totalTiles - 1;
      TileInside(t2, Cells(), TileSize());
      TileInside(last, Cells(), TileSize());
      ghost var buf0, map0 := tiles[..], tilemap[..];
      ReplaceInTilemap(t2, t1);
      ghost var map1 := tilemap[..];
      assert map1 == Replaced(map0, t2, t1);
      CopyTile(t2, last);
      assert tiles[..] == CopiedTile(buf0, TileSize(), t2, last);
      ReplaceInTilemap(last, t2);
      assert tilemap[..] == Replaced(map1, last, t2);
      totalTiles := last;
    }

    /** Removing a duplicate keeps the picture and the distinctness facts of the reduction loops. */
    method DropTile(t1: nat, t2: nat, ghost image: seq<seq<bv8>>)
      requires Valid() && t1 < t2 < totalTiles
      requires ReductionInv(tiles[..], TileSize(), Cells(), tilemap[..], totalTiles, image)
      requires DistinctBefore(tiles[..], TileSize(), Cells(), t1, totalTiles)
      requires DifferentFrom(tiles[..], TileSize(), Cells(), t1, t2)
      requires TileAt(tiles[..], TileSize(), t1) == TileAt(tiles[..], TileSize(), t2)
      modifies this, tiles, tilemap
      ensures Valid()
      ensures totalTiles == old(totalTiles) - 1
      ensures ReductionInv(tiles[..], TileSize(), Cells(), tilemap[..], totalTiles, image)
      ensures DistinctBefore(tiles[..], TileSize(), Cells(), t1, totalTiles)
      ensures DifferentFrom(tiles[..], TileSize(), Cells(), t1, t2)
    {
      ghost var buf0, map0 := tiles[..], tilemap[..];
      ReplaceByLast(t1, t2);
      RemoveDuplicate(buf0, TileSize(), Cells(), map0, totalTiles, image, t1, t2);
    }

    /**
     * The inner loop of `do_tile_reduction`: every later duplicate of `t1` is
     * removed; after a removal the tile moved into slot `t2` is compared again.
     */
    method RemoveDuplicatesOf(t1: nat, ghost image: seq<seq<bv8>>)
      requires Valid() && t1 < totalTiles
      requires ReductionInv(tiles[..], TileSize(), Cells(), tilemap[..], totalTiles, image)
      requires DistinctBefore(tiles[..], TileSize(), Cells(), t1, totalTiles)
      modifies this, tiles, tilemap
      ensures Valid() && t1 < totalTiles <= old(totalTiles)
      ensures ReductionInv(tiles[..], TileSize(), Cells(), tilemap[..], totalTiles, image)
      ensures DistinctBefore(tiles[..], TileSize(), Cells(), t1 + 1, totalTiles)
    {
      var t2 := t1 + 1;
      while t2 < totalTiles
        invariant Valid() && t1 < t2 <= totalTiles <= old(totalTiles)
        invariant ReductionInv(tiles[..], TileSize(), Cells(), tilemap[..], totalTiles, image)
        invariant DistinctBefore(tiles[..], TileSize(), Cells(), t1, totalTiles)
        invariant DifferentFrom(tiles[..], TileSize(), Cells(), t1, t2)
        decreases totalTiles - t2
      {
        if !CompareTiles(t1, t2) {
          DropTile(t1, t2, image);
        } else {
          DifferentFromNext(tiles[..], TileSize(), Cells(), t1, t2);
          t2 := t2 + 1;
        }
      }
      DistinctBeforeNext(tiles[..], TileSize(), Cells(), t1, totalTiles);
    }

    /**
     * `do_tile_reduction`: for each tile `t1`, every later duplicate is
     * removed. The picture shown is unchanged and the remaining tiles are
     * pairwise different.
     */
    method DoTileReduction()
      requires Valid() && MapClosed()
      modifies this, tiles, tilemap
      ensures Valid() && MapClosed()
      ensures totalTiles <= old(totalTiles)
      ensures Render(tiles[..], TileSize(), tilemap[..]) == old(Render(tiles[..], TileSize(), tilemap[..]))
      ensures Distinct(tiles[..], TileSize(), totalTiles)
    {
      ghost var image := Render(tiles[..], TileSize(), tilemap[..]);
      var t1 := 0;
      while t1 < totalTiles
        invariant Valid() && totalTiles <= old(totalTiles)
        invariant ReductionInv(tiles[..], TileSize(), Cells(), tilemap[..], totalTiles, image)
        invariant DistinctBefore(tiles[..], TileSize(), Cells(), t1, totalTiles)
        decreases totalTiles - t1
      {
        RemoveDuplicatesOf(t1, image);
        t1 := t1 + 1;
      }
    }
  }

  /** The colour of column `x` in a row word: the low plane is the upper byte, the high plane the lower byte. */
  function RowPixel(word: bv16, x: nat): nat
    requires x < 8
  {
    Bit((word >> 8) as bv8, 7 - x) + 2 * Bit((word & 0xff) as bv8, 7 - x)
  }

  /** The row word of `get_tile_row` splits back into the two plane bytes. */
  lemma RowWordBytes(lo: bv8, hi: bv8)
    ensures var word := ((lo as bv16) << 8) | (hi as bv16);
      (word >> 8) as bv8 == lo && (word & 0xff) as bv8 == hi
  {
  }

  /** The invariant of the reduction loops: the map is closed and shows `image`. */
  ghost predicate ReductionInv(buf: seq<bv8>, ts: nat, n: nat, tilemap: seq<nat>, total: nat, image: seq<seq<bv8>>)
  {
    && |buf| == Off(n, ts)
    && total <= n
    && Closed(tilemap, total)
    && Render(buf, ts, tilemap) == image
  }

  /** Each tile before `t1` differs from every later tile below `total`. */
  ghost predicate DistinctBefore(buf: seq<bv8>, ts: nat, n: nat, t1: nat, total: nat)
  {
    && |buf| == Off(n, ts) && total <= n
    && forall a, b :: 0 <= a < t1 && a < b < total ==> TileAt(buf, ts, a) != TileAt(buf, ts, b)
  }

  /** Tile `t1` differs from the tiles strictly between it and `t2`. */
  ghost predicate DifferentFrom(buf: seq<bv8>, ts: nat, n: nat, t1: nat, t2: nat)
  {
    && |buf| == Off(n, ts) && t2 <= n
    && forall b :: t1 < b < t2 ==> TileAt(buf, ts, t1) != TileAt(buf, ts, b)
  }

  /** A tile `t2` that differs from `t1` extends the range `t1` differs from. */
  lemma DifferentFromNext(buf: seq<bv8>, ts: nat, n: nat, t1: nat, t2: nat)
    requires t1 < t2 < n && DifferentFrom(buf, ts, n, t1, t2) && TileAt(buf, ts, t1) != TileAt(buf, ts, t2)
    ensures DifferentFrom(buf, ts, n, t1, t2 + 1)
  {
  }

  /** Once `t1` differs from all later tiles below `total`, so do all tiles up to `t1`. */
  lemma DistinctBeforeNext(buf: seq<bv8>, ts: nat, n: nat, t1: nat, total: nat)
    requires t1 < total && DistinctBefore(buf, ts, n, t1, total) && DifferentFrom(buf, ts, n, t1, total)
    ensures DistinctBefore(buf, ts, n, t1 + 1, total)
  {
  }

  /**
   * After the map retargets `t2` to `t1`, the last tile is copied into `t2`
   * and the map retargets the last tile to `t2`, the map is closed over one
   * tile fewer and still shows `image`.
   */
  lemma RemoveKeepsImage(buf: seq<bv8>, ts: nat, n: nat, tilemap: seq<nat>, last: nat, image: seq<seq<bv8>>, t1: nat, t2: nat)
    requires ReductionInv(buf, ts, n, tilemap, last + 1, image)
    requires t1 < t2 <= last
    requires TileAt(buf, ts, t1) == TileAt(buf, ts, t2)
    ensures Off(t2, ts) + ts <= |buf| && Off(last, ts) + ts <= |buf|
    ensures ReductionInv(CopiedTile(buf, ts, t2, last), ts, n, Replaced(Replaced(tilemap, t2, t1), last, t2), last, image)
  {
    TileInside(t2, n, ts);
    TileInside(last, n, ts);
    var buf' := CopiedTile(buf, ts, t2, last);
    var map' := Replaced(Replaced(tilemap, t2, t1), last, t2);
    CopiedTileAt(buf, ts, t2, last, t2);
    forall c | 0 <= c < |map'|
      ensures map'[c] < last && TileAt(buf', ts, map'[c]) == image[c]
    {
      var t := tilemap[c];
      TileInside(map'[c], n, ts);
      CopiedTileAt(buf, ts, t2, last, map'[c]);
      assert image[c] == TileAt(buf, ts, t);
      if t == t2 {
        assert map'[c] == t1;
      } else if t == last {
        assert map'[c] == t2;
      } else {
        assert map'[c] == t;
      }
    }
    assert Render(buf', ts, map') == image;
  }

  /** The same removal keeps the distinctness facts of the reduction loops, over one tile fewer. */
  lemma RemoveKeepsDistinct(buf: seq<bv8>, ts: nat, n: nat, last: nat, t1: nat, t2: nat)
    requires t1 < t2 <= last
    requires DistinctBefore(buf, ts, n, t1, last + 1)
    requires DifferentFrom(buf, ts, n, t1, t2)
    ensures Off(t2, ts) + ts <= |buf| && Off(last, ts) + ts <= |buf|
    ensures DistinctBefore(CopiedTile(buf, ts, t2, last), ts, n, t1, last)
    ensures DifferentFrom(CopiedTile(buf, ts, t2, last), ts, n, t1, t2)
  {
    TileInside(t1, n, ts);
    TileInside(t2, n, ts);
    TileInside(last, n, ts);
    var buf' := CopiedTile(buf, ts, t2, last);
    CopiedTileAt(buf, ts, t2, last, t1);
    forall a, b | 0 <= a < t1 && a < b < last
      ensures TileAt(buf', ts, a) != TileAt(buf', ts, b)
    {
      TileInside(a, n, ts);
      TileInside(b, n, ts);
      CopiedTileAt(buf, ts, t2, last, a);
      CopiedTileAt(buf, ts, t2, last, b);
    }
    forall b | t1 < b < t2
      ensures TileAt(buf', ts, t1) != TileAt(buf', ts, b)
    {
      TileInside(b, n, ts);
      CopiedTileAt(buf, ts, t2, last, b);
    }
  }

  /**
   * One removal of a duplicate `t2` of `t1`: the map is closed over one tile
   * fewer, shows the same image, and the distinctness facts of the loops
   * still hold.
   */
  lemma RemoveDuplicate(buf: seq<bv8>, ts: nat, n: nat, tilemap: seq<nat>, last: nat, image: seq<seq<bv8>>, t1: nat, t2: nat)
    requires ReductionInv(buf, ts, n, tilemap, last + 1, image)
    requires t1 < t2 <= last
    requires DistinctBefore(buf, ts, n, t1, last + 1)
    requires DifferentFrom(buf, ts, n, t1, t2)
    requires TileAt(buf, ts, t1) == TileAt(buf, ts, t2)
    ensures Off(t2, ts) + ts <= |buf| && Off(last, ts) + ts <= |buf|
    ensures var buf' := CopiedTile(buf, ts, t2, last);
      var map' := Replaced(Replaced(tilemap, t2, t1), last, t2);
      && ReductionInv(buf', ts, n, map', last, image)
      && DistinctBefore(buf', ts, n, t1, last)
      && DifferentFrom(buf', ts, n, t1, t2)
  {
    RemoveKeepsImage(buf, ts, n, tilemap, last, image, t1, t2);
    RemoveKeepsDistinct(buf, ts, n, last, t1, t2);
  }
}
