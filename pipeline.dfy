// Steps 2-5 of `process_image` in src/pngb.c: the palette of the decoded
// image is copied with the lightness of every colour, the transparent colour
// of a sprite is resolved, the palette is reconciled with the four Game Boy
// colours (grayscale collapse, transparent colour to slot 0, pad-and-place or
// sort), and the picture is allocated, its palette packed and its pixels
// drawn.
module Pipeline {
  import opened Types
  import opened Palette
  import opened Tiles
  import opened Raster

  // ---------------------------------------------------------------------
  // Step 2: the working palette and the identity map
  // ---------------------------------------------------------------------

  /** `set_palette_color`: a colour and its lightness (`color_light_val`, a parameter here). */
  function EntryOf(c: Rgb, light: (Byte, Byte, Byte) -> Byte): Entry
  {
    Entry(c.r, c.g, c.b, light(c.r, c.g, c.b))
  }

  /** The image palette with the lightness of every colour. */
  function Entries(src: seq<Rgb>, light: (Byte, Byte, Byte) -> Byte): (s: seq<Entry>)
    ensures |s| == |src|
  {
    seq(|src|, i requires 0 <= i < |src| => EntryOf(src[i], light))
  }

  /** The map `palette_map` starts from: every colour refers to itself. */
  function Identity(n: nat): (m: seq<Byte>)
    requires n <= 256
    ensures |m| == n
  {
    seq(n, i requires 0 <= i < n => i)
  }

  /** `create_gb_gray_pal`: the four shades as gray colours, lightest first. */
  function GrayPalette(light: (Byte, Byte, Byte) -> Byte): (p: seq<Entry>)
    ensures |p| == 4
  {
    seq(4, i requires 0 <= i < 4 => EntryOf(Rgb(Shades[i], Shades[i], Shades[i]), light))
  }

  /** The loop of step 2: copy the image palette with lightness and build the 1:1 map. */
  method InitPalette(src: seq<Rgb>, light: (Byte, Byte, Byte) -> Byte) returns (palette: array<Entry>, paletteMap: array<Byte>)
    requires |src| <= 256
    ensures fresh(palette) && fresh(paletteMap)
    ensures palette[..] == Entries(src, light)
    ensures paletteMap[..] == Identity(|src|)
  {
    palette := new Entry[|src|](_ => PadEntry);
    paletteMap := new Byte[|src|](_ => 0);
    var c := 0;
    while c < |src|
      invariant 0 <= c <= |src|
      invariant forall k :: 0 <= k < c ==> palette[k] == EntryOf(src[k], light) && paletteMap[k] == k
    {
      palette[c] := EntryOf(src[c], light);
      paletteMap[c] := c;
      c := c + 1;
    }
  }

  // ---------------------------------------------------------------------
  // Transparency resolution
  // ---------------------------------------------------------------------

  predicate HasColor(e: Entry, c: Rgb)
  {
    e.r == c.r && e.g == c.g && e.b == c.b
  }

  /** The first of the first `count` entries with colour `c`, or -1 when there is none. */
  function FirstMatch(palette: seq<Entry>, c: Rgb, count: nat): (i: int)
    requires count <= |palette|
    ensures -1 <= i < count
    ensures i >= 0 ==> HasColor(palette[i], c) && forall j :: 0 <= j < i ==> !HasColor(palette[j], c)
    ensures i == -1 <==> forall j :: 0 <= j < count ==> !HasColor(palette[j], c)
    decreases count
  {
    if count == 0 then -1
    else
      var p := FirstMatch(palette, c, count - 1);
      if p >= 0 then p else if HasColor(palette[count - 1], c) then count - 1 else -1
  }

  /** `find_palette_color`, with the count of entries to search as an unbounded number. */
  method FindPaletteColor(r: Byte, g: Byte, b: Byte, palette: array<Entry>, tcolors: nat) returns (i: int)
    requires tcolors <= palette.Length
    ensures i == FirstMatch(palette[..], Rgb(r, g, b), tcolors)
  {
    var k := 0;
    while k < tcolors
      invariant 0 <= k <= tcolors
      invariant forall j :: 0 <= j < k ==> !HasColor(palette[j], Rgb(r, g, b))
    {
      if palette[k].r == r && palette[k].g == g && palette[k].b == b {
        return k;
      }
      k := k + 1;
    }
    return -1;
  }

  /**
   * The colour a negative transparency stands for: `rgb = -(t + 1)`, red in
   * bits 16-23, green in bits 8-15 and blue in bits 0-7.
   */
  function DecodeRgb(t: int): Rgb
    requires t < 0
  {
    var rgb := -(t + 1);
    Rgb((rgb / 0x10000) % 256, (rgb / 0x100) % 256, rgb % 256)
  }

  /**
   * The transparent colour of step 2 once resolved against a palette of
   * `|palette|` entries whose first `searched` entries are searched for an
   * RGB transparency: only sprites resolve it; an RGB colour that is not
   * found and an index past the palette both become 0.
   */
  function Resolve(t: int, target: Target, palette: seq<Entry>, searched: nat): int
    requires searched <= |palette|
  {
    if target != Sprite then t
    else if t < 0 then
      var i := FirstMatch(palette, DecodeRgb(t), searched);
      if i < 0 then 0 else i
    else if t >= |palette| then 0
    else t
  }

  /**
   * The resolution as the source performs it: `find_palette_color` takes the
   * count as a `BYTE`, so a 256-colour palette is searched over 0 entries.
   */
  function ResolvedTransparencyAsWritten(t: int, target: Target, palette: seq<Entry>): int
  {
    Resolve(t, target, palette, |palette| % 256)
  }

  /** The resolution with the whole palette searched. */
  function ResolvedTransparency(t: int, target: Target, palette: seq<Entry>): (r: int)
    ensures target != Sprite ==> r == t
    ensures target == Sprite && |palette| > 0 ==> 0 <= r < |palette|
    ensures target == Sprite && 0 <= t < |palette| ==> r == t
    ensures target == Sprite && t >= |palette| ==> r == 0
    ensures target == Sprite && t < 0 && (exists j :: 0 <= j < |palette| && HasColor(palette[j], DecodeRgb(t))) ==>
      0 <= r < |palette| && HasColor(palette[r], DecodeRgb(t)) && forall j :: 0 <= j < r ==> !HasColor(palette[j], DecodeRgb(t))
    ensures target == Sprite && t < 0 && (forall j :: 0 <= j < |palette| ==> !HasColor(palette[j], DecodeRgb(t))) ==> r == 0
  {
    Resolve(t, target, palette, |palette|)
  }

  /** The transparency step of `process_image`: the new value of `transparent`. */
  method ResolveTransparency(opts: Options, palette: array<Entry>) returns (t: int)
    ensures t == ResolvedTransparency(opts.transparent, opts.target, palette[..])
  {
    t := opts.transparent;
    if opts.target == Sprite {
      if t < 0 {
        var rgb := -(t + 1);
        t := FindPaletteColor((rgb / 0x10000) % 256, (rgb / 0x100) % 256, rgb % 256, palette, palette.Length);
        if t < 0 {
          t := 0;
        }
      } else if t >= palette.Length {
        t := 0;
      }
    }
  }

  /**
   * With 256 colours (possible only in grayscale mode) the truncated count
   * makes the search empty: a colour at index 5 is not found and the
   * transparent colour silently becomes 0.
   */
  lemma AsWrittenMissesColorIn256()
    ensures var palette := seq(256, i requires 0 <= i < 256 => if i == 5 then Entry(1, 2, 3, 0) else PadEntry);
      var t := -(0x010203 + 1);
      && DecodeRgb(t) == Rgb(1, 2, 3)
      && ResolvedTransparencyAsWritten(t, Sprite, palette) == 0
      && ResolvedTransparency(t, Sprite, palette) == 5
  {
    var palette := seq(256, i requires 0 <= i < 256 => if i == 5 then Entry(1, 2, 3, 0) else PadEntry);
    var t := -(0x010203 + 1);
    assert DecodeRgb(t) == Rgb(1, 2, 3);
    assert HasColor(palette[5], Rgb(1, 2, 3));
    assert forall j :: 0 <= j < 5 ==> !HasColor(palette[j], Rgb(1, 2, 3));
  }

  // ---------------------------------------------------------------------
  // Step 3: reconciling the palette with the four Game Boy colours
  // ---------------------------------------------------------------------

  /**
   * Grayscale collapse: every colour of the image goes to the shade nearest
   * to its lightness; the transparent colour of a sprite goes to 0.
   */
  function GrayMap(palette: seq<Entry>, sprite: bool, t: int): (m: seq<Byte>)
    ensures |m| == |palette|
  {
    seq(|palette|, c requires 0 <= c < |palette| =>
      if sprite && c == t then 0 else ShadeIndex(palette[c].L, sprite))
  }

  /**
   * Every colour refers to one of the four shades; for a sprite exactly the
   * transparent colour refers to shade 0; every other colour refers to a
   * shade at least as near to its lightness as any allowed one (shades 1-3
   * for a sprite, all four otherwise).
   */
  lemma GrayMapFacts(palette: seq<Entry>, sprite: bool, t: int)
    ensures MapInRange(GrayMap(palette, sprite, t), 4)
    ensures sprite ==> forall c :: 0 <= c < |palette| ==> (GrayMap(palette, sprite, t)[c] == 0 <==> c == t)
    ensures forall c, j :: 0 <= c < |palette| && !(sprite && c == t) && (if sprite then 1 else 0) <= j < 4 ==>
      Dist(Shades[GrayMap(palette, sprite, t)[c]], palette[c].L) <= Dist(Shades[j], palette[c].L)
  {
    var m := GrayMap(palette, sprite, t);
    forall c | 0 <= c < |palette| && !(sprite && c == t)
      ensures m[c] == ShadeIndex(palette[c].L, sprite)
    {
    }
  }

  /** The grayscale loop of step 3 over the map. */
  method GrayscaleMap(palette: array<Entry>, paletteMap: array<Byte>, target: Target, t: int)
    requires palette.Length == paletteMap.Length
    modifies paletteMap
    ensures paletteMap[..] == GrayMap(palette[..], target == Sprite, t)
  {
    var c := 0;
    while c < palette.Length
      invariant 0 <= c <= palette.Length
      invariant forall k :: 0 <= k < c ==> paletteMap[k] == GrayMap(palette[..], target == Sprite, t)[k]
    {
      if target == Sprite && c == t {
        paletteMap[c] := 0;
      } else {
        paletteMap[c] := IntensityToShades(palette[c].L, target);
      }
      c := c + 1;
    }
  }

  /** `n` padding entries, the filler of a palette of fewer than four colours. */
  function Pads(n: nat): (r: seq<Entry>)
    ensures |r| == n && forall k :: 0 <= k < n ==> r[k] == PadEntry
  {
    seq(n, _ => PadEntry)
  }

  /** A palette of fewer than four entries grown to four with black entries. */
  function Padded(s: seq<Entry>): (p: seq<Entry>)
    requires |s| <= 4
    ensures |p| == 4 && p[..|s|] == s
    ensures forall k :: |s| <= k < 4 ==> p[k] == PadEntry
  {
    s + Pads(4 - |s|)
  }

  /**
   * The placement loop of step 3 for a palette of fewer than four colours,
   * from colour `c` on: the entry now at `c` is exchanged, entry and
   * references together, with the slot of the shade nearest to its
   * lightness. An entry moved into a slot already passed is not visited again.
   */
  function Place(p: seq<Entry>, m: seq<Byte>, c: nat, n: nat, sprite: bool): (r: (seq<Entry>, seq<Byte>))
    requires |p| == 4 && c <= n <= 4
    ensures |r.0| == 4 && |r.1| == |m|
    decreases n - c
  {
    if c == n then (p, m)
    else
      var newPos := ShadeIndex(p[c].L, sprite);
      Place(SwapEntries(p, c, newPos), SwapIndexes(m, c, newPos), c + 1, n, sprite)
  }

  /**
   * The placement keeps the colour every source index shows, and only moves
   * entries around.
   */
  lemma {:induction false} PlaceKeepsColors(p: seq<Entry>, m: seq<Byte>, c: nat, n: nat, sprite: bool, colors: seq<Entry>)
    requires |p| == 4 && c <= n <= 4
    requires ShowsColors(p, m, colors)
    ensures ShowsColors(Place(p, m, c, n, sprite).0, Place(p, m, c, n, sprite).1, colors)
    ensures multiset(Place(p, m, c, n, sprite).0) == multiset(p)
    decreases n - c
  {
    if c < n {
      var newPos := ShadeIndex(p[c].L, sprite);
      PairedSwapKeepsColors(p, m, colors, c, newPos);
      SwapEntriesFacts(p, c, newPos);
      PlaceKeepsColors(SwapEntries(p, c, newPos), SwapIndexes(m, c, newPos), c + 1, n, sprite, colors);
    }
  }

  /**
   * For a sprite the placement starts at colour 1 and every target slot is
   * 1 to 3, so references to slot 0 (the transparent colour) stay put.
   */
  lemma {:induction false} PlaceKeepsSlotZero(p: seq<Entry>, m: seq<Byte>, c: nat, n: nat)
    requires |p| == 4 && 1 <= c <= n <= 4
    ensures forall k :: 0 <= k < |m| && m[k] == 0 ==> Place(p, m, c, n, true).1[k] == 0
    ensures Place(p, m, c, n, true).0[0] == p[0]
    decreases n - c
  {
    if c < n {
      var newPos := ShadeIndex(p[c].L, true);
      SwapIndexesKeepsLow(m, c, newPos, 1);
      PlaceKeepsSlotZero(SwapEntries(p, c, newPos), SwapIndexes(m, c, newPos), c + 1, n);
    }
  }

  /**
   * The placement need not sort: with `Shades` lightnesses 172, 82 and 0 the
   * first colour is moved to slot 1 and the one it displaces (82) is parked
   * at slot 0, ahead of a lighter colour, and never revisited.
   */
  lemma PlaceNeedNotSort()
    ensures var p := Padded([Entry(1, 1, 1, 172), Entry(2, 2, 2, 82), Entry(3, 3, 3, 0)]);
      var r := Place(p, [0, 1, 2], 0, 3, false);
      r.0 == [Entry(2, 2, 2, 82), Entry(1, 1, 1, 172), PadEntry, Entry(3, 3, 3, 0)] && r.0[0].L < r.0[1].L
  {
    var p := Padded([Entry(1, 1, 1, 172), Entry(2, 2, 2, 82), Entry(3, 3, 3, 0)]);
    NearestValues();
    var p1 := SwapEntries(p, 0, 1);
    assert p1 == [Entry(2, 2, 2, 82), Entry(1, 1, 1, 172), Entry(3, 3, 3, 0), PadEntry];
    var p3 := SwapEntries(p1, 2, 3);
    assert p3 == [Entry(2, 2, 2, 82), Entry(1, 1, 1, 172), PadEntry, Entry(3, 3, 3, 0)];
  }

  /** The shades of the three lightnesses used above. */
  lemma NearestValues()
    ensures ShadeIndex(172, false) == 1 && ShadeIndex(82, false) == 2 && ShadeIndex(0, false) == 3
  {
    assert IsNearest(172, Shades, 1);
    NearestIsUnique(172, Shades, ShadeIndex(172, false));
    assert IsNearest(82, Shades, 2);
    NearestIsUnique(82, Shades, ShadeIndex(82, false));
    assert IsNearest(0, Shades, 3);
    NearestIsUnique(0, Shades, ShadeIndex(0, false));
  }

  /** Copies the palette into four entries, black-padded. */
  method PadPalette(palette: array<Entry>) returns (p4: array<Entry>)
    requires palette.Length < 4
    ensures fresh(p4) && p4[..] == Padded(palette[..])
  {
    p4 := new Entry[4](_ => PadEntry);
    var k := 0;
    while k < palette.Length
      invariant 0 <= k <= palette.Length
      invariant forall j :: 0 <= j < 4 ==> p4[j] == if j < k then palette[j] else PadEntry
      modifies p4
    {
      p4[k] := palette[k];
      k := k + 1;
    }
  }

  /** The placement loop over the source entries `baseColor .. n-1` of the padded palette. */
  method PlaceEntries(p4: array<Entry>, paletteMap: array<Byte>, baseColor: nat, n: nat, target: Target)
    requires p4.Length == 4 && baseColor <= n < 4
    modifies p4, paletteMap
    ensures (p4[..], paletteMap[..]) == Place(old(p4[..]), old(paletteMap[..]), baseColor, n, target == Sprite)
  {
    var c := baseColor;
    while c < n
      invariant baseColor <= c <= n
      invariant Place(p4[..], paletteMap[..], c, n, target == Sprite) ==
                Place(old(p4[..]), old(paletteMap[..]), baseColor, n, target == Sprite)
      decreases n - c
    {
      PlaceOne(p4, paletteMap, c, target);
      c := c + 1;
    }
  }

  /** One round of the placement loop: entry `c` swaps places with the shade nearest to its lightness. */
  method PlaceOne(p4: array<Entry>, paletteMap: array<Byte>, c: nat, target: Target)
    requires p4.Length == 4 && c < 4
    modifies p4, paletteMap
    ensures p4[..] == SwapEntries(old(p4[..]), c, ShadeIndex(old(p4[c]).L, target == Sprite))
    ensures paletteMap[..] == SwapIndexes(old(paletteMap[..]), c, ShadeIndex(old(p4[c]).L, target == Sprite))
  {
    var newPos := IntensityToShades(p4[c].L, target);
    SwapPaletteEntries(p4, c, newPos);
    SwapPaletteIndexes(paletteMap, c, newPos);
  }

  /** Copies the palette into four entries, black-padded, and runs the placement loop. */
  method PadAndPlace(palette: array<Entry>, paletteMap: array<Byte>, baseColor: nat, target: Target) returns (p4: array<Entry>)
    requires baseColor <= palette.Length < 4
    modifies paletteMap
    ensures fresh(p4) && p4.Length == 4
    ensures (p4[..], paletteMap[..]) == Place(Padded(palette[..]), old(paletteMap[..]), baseColor, palette.Length, target == Sprite)
  {
    p4 := PadPalette(palette);
    PlaceEntries(p4, paletteMap, baseColor, palette.Length, target);
  }

  /** The palette after the transparent colour of a sprite is moved to slot 0. */
  function SpriteFirst(p: seq<Entry>, sprite: bool, t: int): (r: seq<Entry>)
    requires sprite ==> 0 <= t < |p|
    ensures |r| == |p|
  {
    if sprite then SwapEntries(p, 0, t) else p
  }

  /** The map after the same move. */
  function SpriteFirstMap(n: nat, sprite: bool, t: int): (m: seq<Byte>)
    requires n <= 256 && (sprite ==> 0 <= t < n)
    ensures |m| == n
  {
    if sprite then SwapIndexes(Identity(n), 0, t) else Identity(n)
  }

  /** The identity map shows every colour of a palette as itself. */
  lemma IdentityShows(p: seq<Entry>)
    requires |p| <= 256
    ensures ShowsColors(p, Identity(|p|), p)
  {
  }

  /** A palette grown by padding shows what the unpadded one shows. */
  lemma PaddedShows(p: seq<Entry>, m: seq<Byte>, colors: seq<Entry>)
    requires |p| <= 4 && ShowsColors(p, m, colors)
    ensures ShowsColors(Padded(p), m, colors)
    ensures multiset(Padded(p)) == multiset(p) + multiset(Pads(4 - |p|))
  {
    var q := Padded(p);
    forall c | 0 <= c < |m| ensures q[m[c]] == colors[c] {
      assert q[m[c]] == q[..|p|][m[c]];
    }
  }

  /**
   * Moving the transparent colour first keeps the colours shown and the
   * entries, makes the transparent colour refer to slot 0 and puts its
   * entry there.
   */
  lemma SpriteFirstFacts(p: seq<Entry>, sprite: bool, t: int)
    requires |p| <= 256 && (sprite ==> 0 <= t < |p|)
    ensures ShowsColors(SpriteFirst(p, sprite, t), SpriteFirstMap(|p|, sprite, t), p)
    ensures multiset(SpriteFirst(p, sprite, t)) == multiset(p)
    ensures sprite ==> SpriteFirstMap(|p|, sprite, t)[t] == 0 && SpriteFirst(p, sprite, t)[0] == p[t]
  {
    IdentityShows(p);
    if sprite {
      SwapIndexesAt(Identity(|p|), 0, t, t);
      PairedSwapKeepsColors(p, Identity(|p|), p, 0, t);
      SwapEntriesFacts(p, 0, t);
    }
  }

  /** The sprite part of step 3: the transparent colour moves to slot 0; returns `baseColor`. */
  method MoveTransparentFirst(palette: array<Entry>, paletteMap: array<Byte>, sprite: bool, t: int) returns (baseColor: nat)
    requires palette.Length <= 256 && palette as object != paletteMap
    requires paletteMap[..] == Identity(palette.Length)
    requires sprite ==> 0 <= t < palette.Length
    modifies palette, paletteMap
    ensures palette[..] == SpriteFirst(old(palette[..]), sprite, t)
    ensures paletteMap[..] == SpriteFirstMap(palette.Length, sprite, t)
    ensures baseColor == if sprite then 1 else 0
  {
    baseColor := 0;
    if sprite {
      SwapPaletteEntries(palette, 0, t);
      SwapPaletteIndexes(paletteMap, 0, t);
      baseColor := 1;
    }
  }

  /** `create_gb_gray_pal` */
  method CreateGrayPalette(light: (Byte, Byte, Byte) -> Byte) returns (pal: array<Entry>)
    ensures fresh(pal) && pal[..] == GrayPalette(light)
  {
    pal := new Entry[4](_ => PadEntry);
    pal[0] := EntryOf(Rgb(WHITE_VAL, WHITE_VAL, WHITE_VAL), light);
    pal[1] := EntryOf(Rgb(LIGHTGRAY_VAL, LIGHTGRAY_VAL, LIGHTGRAY_VAL), light);
    pal[2] := EntryOf(Rgb(DARKGRAY_VAL, DARKGRAY_VAL, DARKGRAY_VAL), light);
    pal[3] := EntryOf(Rgb(BLACK_VAL, BLACK_VAL, BLACK_VAL), light);
  }

  /** The gray palette holds the four shades as gray colours, lightest first. */
  lemma GrayPaletteShades(light: (Byte, Byte, Byte) -> Byte)
    ensures forall i :: 0 <= i < 4 ==> GrayPalette(light)[i].r == GrayPalette(light)[i].g == GrayPalette(light)[i].b == Shades[i]
    ensures forall i, j :: 0 <= i < j < 4 ==> GrayPalette(light)[i].r > GrayPalette(light)[j].r
  {
    ShadesStrictlyDecreasing();
  }

  /**
   * The pad-and-place branch of step 3 with everything it keeps: the colours
   * shown, the entries (plus the black padding) and, when placement starts
   * at 1, the references to slot 0.
   */
  method PlaceSmallPalette(palette: array<Entry>, paletteMap: array<Byte>, baseColor: nat, target: Target, ghost colors: seq<Entry>)
    returns (final: array<Entry>)
    requires baseColor == if target == Sprite then 1 else 0
    requires baseColor <= palette.Length < 4
    requires ShowsColors(palette[..], paletteMap[..], colors)
    modifies paletteMap
    ensures fresh(final) && final.Length == 4
    ensures ShowsColors(final[..], paletteMap[..], colors)
    ensures multiset(final[..]) == multiset(palette[..]) + multiset(Pads(4 - palette.Length))
    ensures forall k :: 0 <= k < paletteMap.Length && old(paletteMap[k]) < baseColor ==> paletteMap[k] == old(paletteMap[k])
    ensures (final[..], paletteMap[..]) == Place(Padded(palette[..]), old(paletteMap[..]), baseColor, palette.Length, target == Sprite)
  {
    ghost var p, m := palette[..], paletteMap[..];
    PaddedPlaceFacts(p, m, baseColor, target == Sprite, colors);
    ghost var r := Place(Padded(p), m, baseColor, palette.Length, target == Sprite);
    final := PadAndPlace(palette, paletteMap, baseColor, target);
    assert final[..] == r.0 && paletteMap[..] == r.1;
  }

  /** What the pad-and-place branch keeps, stated on the padded palette. */
  lemma PaddedPlaceFacts(p: seq<Entry>, m: seq<Byte>, baseColor: nat, sprite: bool, colors: seq<Entry>)
    requires baseColor == if sprite then 1 else 0
    requires baseColor <= |p| < 4 && ShowsColors(p, m, colors)
    ensures var r := Place(Padded(p), m, baseColor, |p|, sprite);
      && ShowsColors(r.0, r.1, colors)
      && multiset(r.0) == multiset(p) + multiset(Pads(4 - |p|))
      && forall k :: 0 <= k < |m| && m[k] < baseColor ==> r.1[k] == m[k]
  {
    PaddedShows(p, m, colors);
    PlaceKeepsColors(Padded(p), m, baseColor, |p|, sprite, colors);
    if sprite {
      PlaceKeepsSlotZero(Padded(p), m, baseColor, |p|);
    }
  }

  /** The bubble-sort branch of step 3, stated over the colours shown. */
  method SortFullPalette(palette: array<Entry>, paletteMap: array<Byte>, baseColor: nat, ghost colors: seq<Entry>)
    requires baseColor <= palette.Length == 4 && palette as object != paletteMap
    requires ShowsColors(palette[..], paletteMap[..], colors)
    modifies palette, paletteMap
    ensures ShowsColors(palette[..], paletteMap[..], colors)
    ensures multiset(palette[..]) == multiset(old(palette[..]))
    ensures forall k :: 0 <= k < paletteMap.Length && old(paletteMap[k]) < baseColor ==> paletteMap[k] == old(paletteMap[k])
    ensures NonIncreasingFrom(palette[..], baseColor)
  {
    ghost var p, m := palette[..], paletteMap[..];
    SortPalette(palette, paletteMap, baseColor);
    assert forall c :: 0 <= c < |m| ==> palette[paletteMap[c]] == p[m[c]];
  }

  /**
   * What the non-grayscale branch of step 3 leaves behind for the palette
   * `p0`: the palette `final` shows every colour through the map `m`, holds
   * `p0` and the padding entries, keeps the transparent colour of a sprite in
   * slot 0, and is `p0` with only that swap unless sorting is asked for; with
   * sorting a full palette is light to dark past the base colour and a small
   * one is padded to four and placed by shade.
   */
  ghost predicate ColorReconciled(p0: seq<Entry>, sort: bool, sprite: bool, t: int, final: seq<Entry>, m: seq<Byte>)
  {
    && 1 <= |p0| <= 4 && (sprite ==> 0 <= t < |p0|)
    && |final| == (if sort then 4 else |p0|)
    && HoldsColors(p0, final, m)
    && (sprite ==> m[t] == 0)
    && (!sort ==> final == SpriteFirst(p0, sprite, t) && m == SpriteFirstMap(|p0|, sprite, t))
    && (sort && |p0| == 4 ==> NonIncreasingFrom(final, if sprite then 1 else 0))
    && (sort && |p0| < 4 ==>
        var p1 := SpriteFirst(p0, sprite, t);
        (final, m) == Place(Padded(p1), SpriteFirstMap(|p0|, sprite, t), if sprite then 1 else 0, |p1|, sprite))
  }

  /**
   * The palette `final` shows the colours `p0` through the map `m` and holds
   * exactly them and padding entries.
   */
  ghost predicate HoldsColors(p0: seq<Entry>, final: seq<Entry>, m: seq<Byte>)
  {
    && |p0| <= |final| <= 4 && |m| == |p0|
    && ShowsColors(final, m, p0)
    && multiset(final) == multiset(p0) + multiset(Pads(|final| - |p0|))
  }

  /** The non-grayscale branch of step 3. */
  method ColorReconcile(palette: array<Entry>, paletteMap: array<Byte>, opts: Options, t: int)
    returns (final: array<Entry>)
    requires 1 <= palette.Length <= 4 && palette as object != paletteMap
    requires paletteMap[..] == Identity(palette.Length)
    requires opts.target == Sprite ==> 0 <= t < palette.Length
    modifies palette, paletteMap
    ensures final == palette || fresh(final)
    ensures ColorReconciled(old(palette[..]), opts.sortPalette, opts.target == Sprite, t, final[..], paletteMap[..])
  {
    ghost var colors := palette[..];
    var sprite := opts.target == Sprite;
    var baseColor := MoveTransparentFirst(palette, paletteMap, sprite, t);
    if opts.sortPalette && palette.Length < 4 {
      final := ReconcileSmall(palette, paletteMap, baseColor, sprite, t, colors);
    } else if opts.sortPalette {
      ReconcileFull(palette, paletteMap, baseColor, sprite, t, colors);
      final := palette;
    } else {
      final := palette;
      UnsortedReconciled(colors, sprite, t);
    }
  }

  /** Sorting a palette of fewer than four colours: padded to four and placed by shade. */
  method ReconcileSmall(palette: array<Entry>, paletteMap: array<Byte>, baseColor: nat, sprite: bool, t: int, ghost colors: seq<Entry>)
    returns (final: array<Entry>)
    requires 1 <= |colors| < 4 && (sprite ==> 0 <= t < |colors|) && palette as object != paletteMap
    requires baseColor == if sprite then 1 else 0
    requires palette[..] == SpriteFirst(colors, sprite, t) && paletteMap[..] == SpriteFirstMap(|colors|, sprite, t)
    modifies paletteMap
    ensures fresh(final)
    ensures ColorReconciled(colors, true, sprite, t, final[..], paletteMap[..])
  {
    SpriteFirstFacts(colors, sprite, t);
    final := PlaceSmallPalette(palette, paletteMap, baseColor, if sprite then Sprite else Bkg, colors);
    SmallSortReconciled(colors, sprite, t);
  }

  /** Sorting a palette of four colours in place, past the base colour. */
  method ReconcileFull(palette: array<Entry>, paletteMap: array<Byte>, baseColor: nat, sprite: bool, t: int, ghost colors: seq<Entry>)
    requires |colors| == 4 && (sprite ==> 0 <= t < |colors|) && palette as object != paletteMap
    requires baseColor == if sprite then 1 else 0
    requires palette[..] == SpriteFirst(colors, sprite, t) && paletteMap[..] == SpriteFirstMap(|colors|, sprite, t)
    modifies palette, paletteMap
    ensures ColorReconciled(colors, true, sprite, t, palette[..], paletteMap[..])
  {
    SpriteFirstFacts(colors, sprite, t);
    ghost var m1 := paletteMap[..];
    SortFullPalette(palette, paletteMap, baseColor, colors);
    FullSortReconciled(colors, sprite, t, m1, palette[..], paletteMap[..]);
  }

  /** Without sorting, the palette with the transparent colour swapped first meets `ColorReconciled`. */
  lemma UnsortedReconciled(colors: seq<Entry>, sprite: bool, t: int)
    requires 1 <= |colors| <= 4 && (sprite ==> 0 <= t < |colors|)
    ensures ColorReconciled(colors, false, sprite, t, SpriteFirst(colors, sprite, t), SpriteFirstMap(|colors|, sprite, t))
  {
    SpriteFirstFacts(colors, sprite, t);
    assert Pads(0) == [];
  }

  /** A full palette sorted past the base colour meets `ColorReconciled`. */
  lemma FullSortReconciled(colors: seq<Entry>, sprite: bool, t: int, m1: seq<Byte>, final: seq<Entry>, m: seq<Byte>)
    requires |colors| == 4 && (sprite ==> 0 <= t < |colors|)
    requires m1 == SpriteFirstMap(|colors|, sprite, t)
    requires |final| == 4 && ShowsColors(final, m, colors)
    requires multiset(final) == multiset(SpriteFirst(colors, sprite, t))
    requires forall k :: 0 <= k < |m1| && m1[k] < (if sprite then 1 else 0) ==> m[k] == m1[k]
    requires NonIncreasingFrom(final, if sprite then 1 else 0)
    ensures ColorReconciled(colors, true, sprite, t, final, m)
  {
    SpriteFirstFacts(colors, sprite, t);
    assert Pads(0) == [];
  }

  /** A small palette padded and placed by shade meets `ColorReconciled`. */
  lemma SmallSortReconciled(colors: seq<Entry>, sprite: bool, t: int)
    requires 1 <= |colors| < 4 && (sprite ==> 0 <= t < |colors|)
    ensures var p1 := SpriteFirst(colors, sprite, t);
      var r := Place(Padded(p1), SpriteFirstMap(|colors|, sprite, t), if sprite then 1 else 0, |p1|, sprite);
      ColorReconciled(colors, true, sprite, t, r.0, r.1)
  {
    SmallSortHolds(colors, sprite, t);
  }

  /** The placed palette holds the colours and padding, and slot 0 still shows a sprite's transparent colour. */
  lemma SmallSortHolds(colors: seq<Entry>, sprite: bool, t: int)
    requires 1 <= |colors| < 4 && (sprite ==> 0 <= t < |colors|)
    ensures var p1 := SpriteFirst(colors, sprite, t);
      var r := Place(Padded(p1), SpriteFirstMap(|colors|, sprite, t), if sprite then 1 else 0, |p1|, sprite);
      HoldsColors(colors, r.0, r.1) && |r.0| == 4 && (sprite ==> r.1[t] == 0)
  {
    var p1, m1 := SpriteFirst(colors, sprite, t), SpriteFirstMap(|colors|, sprite, t);
    SpriteFirstFacts(colors, sprite, t);
    PaddedPlaceFacts(p1, m1, if sprite then 1 else 0, sprite, colors);
  }

  /**
   * What step 3 leaves behind for a palette `p0` (the image palette with
   * lightness) and the resolved transparent colour `t`: the palette `final`
   * that is used from here on (its length is `tColors`) and the map `m`
   * from image colours to it.
   */
  ghost predicate Reconciled(p0: seq<Entry>, opts: Options, t: int, light: (Byte, Byte, Byte) -> Byte, final: seq<Entry>, m: seq<Byte>)
  {
    var sprite := opts.target == Sprite;
    && 1 <= |p0| <= 256 && (sprite ==> 0 <= t < |p0|)
    && |final| <= 4 && |m| == |p0|
    && MapInRange(m, |final|)
    && (sprite ==> m[t] == 0)
    && (opts.grayscale ==> final == GrayPalette(light) && m == GrayMap(p0, sprite, t))
    && (!opts.grayscale ==>
        && ShowsColors(final, m, p0)
        && |final| == (if opts.sortPalette then 4 else |p0|) >= |p0|
        && multiset(final) == multiset(p0) + multiset(Pads(|final| - |p0|)))
    && (!opts.grayscale && sprite ==> 0 < |final| && final[0] == p0[t])
    && (!opts.grayscale && !opts.sortPalette ==> final == SpriteFirst(p0, sprite, t) && m == SpriteFirstMap(|p0|, sprite, t))
    && (!opts.grayscale && opts.sortPalette && |p0| == 4 ==> NonIncreasingFrom(final, if sprite then 1 else 0))
    && (!opts.grayscale && opts.sortPalette && |p0| < 4 ==>
        (final, m) == Place(Padded(SpriteFirst(p0, sprite, t)), SpriteFirstMap(|p0|, sprite, t), if sprite then 1 else 0, |p0|, sprite))
  }

  /**
   * Step 3 of `process_image` for a palette of `n` colours with the map still
   * 1:1 and the transparent colour `t` already resolved for sprites. Returns
   * the palette that is used from here on.
   */
  method Reconcile(palette: array<Entry>, paletteMap: array<Byte>, opts: Options, t: int, light: (Byte, Byte, Byte) -> Byte)
    returns (final: array<Entry>)
    requires 1 <= palette.Length <= 256 && palette as object != paletteMap
    requires paletteMap[..] == Identity(palette.Length)
    requires opts.target == Sprite ==> 0 <= t < palette.Length
    requires !opts.grayscale ==> palette.Length <= 4
    modifies palette, paletteMap
    ensures final == palette || fresh(final)
    ensures Reconciled(old(palette[..]), opts, t, light, final[..], paletteMap[..])
  {
    if opts.grayscale {
      final := GrayReconcile(palette, paletteMap, opts, t, light);
    } else {
      final := ColorReconcile(palette, paletteMap, opts, t);
      ColorIsReconciled(old(palette[..]), opts, t, light, final[..], paletteMap[..]);
    }
  }

  /** The grayscale branch of step 3: the map onto the four shades and the fixed gray palette. */
  method GrayReconcile(palette: array<Entry>, paletteMap: array<Byte>, opts: Options, t: int, light: (Byte, Byte, Byte) -> Byte)
    returns (final: array<Entry>)
    requires opts.grayscale && 1 <= palette.Length <= 256 && palette.Length == paletteMap.Length
    requires opts.target == Sprite ==> 0 <= t < palette.Length
    modifies paletteMap
    ensures fresh(final)
    ensures Reconciled(palette[..], opts, t, light, final[..], paletteMap[..])
  {
    GrayscaleMap(palette, paletteMap, opts.target, t);
    final := CreateGrayPalette(light);
    GrayIsReconciled(palette[..], opts, t, light);
  }

  /** The grayscale branch of step 3 meets `Reconciled`. */
  lemma GrayIsReconciled(p0: seq<Entry>, opts: Options, t: int, light: (Byte, Byte, Byte) -> Byte)
    requires opts.grayscale && 1 <= |p0| <= 256
    requires opts.target == Sprite ==> 0 <= t < |p0|
    ensures Reconciled(p0, opts, t, light, GrayPalette(light), GrayMap(p0, opts.target == Sprite, t))
  {
    GrayMapFacts(p0, opts.target == Sprite, t);
  }

  /** The colour branch of step 3 meets `Reconciled`. */
  lemma ColorIsReconciled(p0: seq<Entry>, opts: Options, t: int, light: (Byte, Byte, Byte) -> Byte, final: seq<Entry>, m: seq<Byte>)
    requires !opts.grayscale
    requires ColorReconciled(p0, opts.sortPalette, opts.target == Sprite, t, final, m)
    ensures Reconciled(p0, opts, t, light, final, m)
  {
  }

  // ---------------------------------------------------------------------
  // Steps 4-5: the picture
  // ---------------------------------------------------------------------

  /** The decoded image `lodepng_decode` hands over with colour conversion disabled. */
  datatype Image = Image(indexed: bool, w: nat, h: nat, depth: nat, palette: seq<Rgb>, data: seq<bv8>)

  /**
   * What the model assumes of an indexed input image: a bit depth of 1, 2,
   * 4 or 8, a palette of 1 to 256 colours and the `w*h` pixels packed
   * without padding, as the decoder hands them over, and, an assumption on
   * the input that nothing in the converter checks, every pixel a palette
   * index (a larger raw index would read past `palette_map`).
   */
  ghost predicate Decoded(img: Image)
  {
    && ValidDepth(img.depth)
    && 1 <= |img.palette| <= 256
    && |img.data| >= ByteCount(img.w, img.h, img.depth)
    && forall k :: 0 <= k < img.w * img.h ==> PixelIndex(img.data, img.depth, k) < |img.palette|
  }

  /**
   * Every cell of the tile map shows, through the tile it refers to, the
   * colour `Drawn` gives it once source pixels `0 .. K-1` are drawn.
   */
  ghost predicate PictureIs(pic: PicData, data: seq<bv8>, d: nat, pmap: seq<Byte>, K: nat)
    reads pic, pic.tiles, pic.tilemap
    requires pic.Valid() && ValidDepth(d)
  {
    ImageShows(Render(pic.tiles[..], pic.TileSize(), pic.tilemap[..]), GridOf(pic), data, d, pmap, K)
  }

  /** Cell `c` of `image` shows, at every position, the colour `Drawn` gives it. */
  ghost predicate ImageShows(image: seq<seq<bv8>>, g: Grid, data: seq<bv8>, d: nat, pmap: seq<Byte>, K: nat)
    requires ValidDepth(d)
  {
    forall c, x, y :: 0 <= c < g.cols * g.rows && 0 <= x < 8 && 0 <= y < g.th ==>
      c < |image| && 2 * y + 1 < |image[c]| && PixelOfTile(image[c], x, y) == Drawn(g, data, d, pmap, K, Cell(c, x, y))
  }

  /** A freshly allocated picture (all bytes zero) is blank. */
  lemma ZeroTilesBlank(pic: PicData)
    requires pic.Valid()
    requires forall i :: 0 <= i < pic.tiles.Length ==> pic.tiles[i] == 0
    ensures Blank(pic)
  {
    forall t, x, y | 0 <= t < pic.Cells() && 0 <= x < 8 && 0 <= y < pic.tileh
      ensures pic.Pixel(t, x, y) == 0
    {
      TileInside(t, pic.Cells(), pic.TileSize());
      var tile := TileAt(pic.tiles[..], pic.TileSize(), t);
      assert tile[2 * y] == pic.tiles[Off(t, pic.TileSize()) + 2 * y];
      assert tile[2 * y + 1] == pic.tiles[Off(t, pic.TileSize()) + 2 * y + 1];
    }
  }

  /** With the 1:1 tile map the picture shows what the tiles hold. */
  lemma IdentityMapShowsTiles(pic: PicData, data: seq<bv8>, d: nat, pmap: seq<Byte>, K: nat)
    requires pic.Valid() && ValidDepth(d)
    requires forall t :: 0 <= t < pic.tilemap.Length ==> pic.tilemap[t] == t
    requires DrawnUpTo(pic, data, d, pmap, K)
    ensures PictureIs(pic, data, d, pmap, K)
  {
    var image := Render(pic.tiles[..], pic.TileSize(), pic.tilemap[..]);
    forall c, x, y | 0 <= c < pic.Cells() && 0 <= x < 8 && 0 <= y < pic.tileh
      ensures 2 * y + 1 < |image[c]| && PixelOfTile(image[c], x, y) == Drawn(GridOf(pic), data, d, pmap, K, Cell(c, x, y))
    {
      TileInside(c, pic.Cells(), pic.TileSize());
      assert image[c] == TileAt(pic.tiles[..], pic.TileSize(), c);
    }
  }

  /**
   * In a finished picture every source pixel shows, in the cell it is
   * drawn into, in the colour its palette index is mapped to.
   */
  lemma PictureShowsSource(pic: PicData, data: seq<bv8>, d: nat, pmap: seq<Byte>, k: nat)
    requires pic.Valid() && GridOk(GridOf(pic)) && ValidDepth(d)
    requires PictureIs(pic, data, d, pmap, ByteCount(pic.w, pic.h, d) * PixelsPerByte(d))
    requires k < pic.w * pic.h
    ensures pic.w > 0
    ensures var c := CellOf(GridOf(pic), k);
      && c.tile < pic.Cells() && c.x < 8 && c.y < pic.tileh
      && 2 * c.y + 1 < |Render(pic.tiles[..], pic.TileSize(), pic.tilemap[..])[c.tile]|
      && PixelOfTile(Render(pic.tiles[..], pic.TileSize(), pic.tilemap[..])[c.tile], c.x, c.y) == SourceColor(data, d, pmap, k)
  {
    CellSource(GridOf(pic), k);
    ByteCountDrawsAll(GridOf(pic), data, d, pmap, k);
  }

  /** The four palette words once the first `count` entries of `final` are packed. */
  function PalWords(final: seq<Entry>, count: nat): (words: seq<bv16>)
    ensures |words| == 4
  {
    seq(4, i requires 0 <= i < 4 =>
      if i < count && i < |final| then PackColor(final[i].r, final[i].g, final[i].b) else 0)
  }

  /** Step 4's palette loop: `set_gb_pal_entry` for every colour of the final palette. */
  method PackPalette(pic: PicData, final: array<Entry>)
    requires pic.Valid() && final.Length <= 4 && final as object != pic.pal
    requires forall i :: 0 <= i < 4 ==> pic.pal[i] == 0
    modifies pic.pal
    ensures pic.pal[..] == PalWords(final[..], final.Length)
  {
    var c := 0;
    while c < final.Length
      invariant 0 <= c <= final.Length
      invariant pic.pal[..] == PalWords(final[..], c)
    {
      pic.SetPalEntry(c, final[c].r, final[c].g, final[c].b);
      assert forall i :: 0 <= i < 4 ==> pic.pal[i] == PalWords(final[..], c + 1)[i];
      c := c + 1;
    }
  }

  /**
   * The finished picture of an image: its geometry, the palette words, the
   * colour of every cell for the rounded-up byte count, and the tile
   * counts with or without reduction.
   */
  ghost predicate Built(pic: PicData, img: Image, opts: Options, final: seq<Entry>, pmap: seq<Byte>)
    reads pic, pic.tiles, pic.tilemap, pic.pal
  {
    && pic.Valid() && pic.MapClosed() && ValidDepth(img.depth)
    && pic.w == img.w && pic.h == img.h && pic.tileh == TileHeight(opts) && GridOk(GridOf(pic))
    && pic.pal[..] == PalWords(final, if opts.createPalette then |final| else 0)
    && PictureIs(pic, img.data, img.depth, pmap, ByteCount(img.w, img.h, img.depth) * PixelsPerByte(img.depth))
    && (opts.tileReduction ==> Distinct(pic.tiles[..], pic.TileSize(), pic.totalTiles))
    && (!opts.tileReduction ==> pic.totalTiles == pic.Cells())
  }

  /**
   * Steps 4-5 once the palette is settled: allocate the picture, pack the
   * palette when asked to, draw every pixel through the map and reduce the
   * tiles when asked to. The pixel stream is read for the rounded-up byte
   * count, so that no trailing pixel is lost.
   */
  method BuildPicture(img: Image, opts: Options, final: array<Entry>, paletteMap: array<Byte>) returns (pic: PicData)
    requires Decoded(img) && final.Length <= 4 && paletteMap.Length == |img.palette|
    ensures fresh(pic) && fresh(pic.tiles) && fresh(pic.tilemap) && fresh(pic.pal)
    ensures Built(pic, img, opts, final[..], paletteMap[..])
    ensures !opts.tileReduction ==> forall t :: 0 <= t < pic.tilemap.Length ==> pic.tilemap[t] == t
  {
    pic := new PicData(img.w, img.h, TileHeight(opts) == 16);
    ZeroTilesBlank(pic);
    if opts.createPalette {
      PackPalette(pic, final);
    } else {
      assert forall i :: 0 <= i < 4 ==> pic.pal[i] == PalWords(final[..], 0)[i];
    }
    var tBytes := ByteCount(img.w, img.h, img.depth);
    Rasterize(pic, img.data, img.depth, paletteMap[..], tBytes);
    IdentityMapShowsTiles(pic, img.data, img.depth, paletteMap[..], tBytes * PixelsPerByte(img.depth));
    if opts.tileReduction {
      ghost var image := Render(pic.tiles[..], pic.TileSize(), pic.tilemap[..]);
      ghost var K := tBytes * PixelsPerByte(img.depth);
      assert ImageShows(image, GridOf(pic), img.data, img.depth, paletteMap[..], K);
      pic.DoTileReduction();
      assert Render(pic.tiles[..], pic.TileSize(), pic.tilemap[..]) == image;
    }
  }

  const NotIndexedError: string := "PNG colortype 3 (indexed, 256 colors max) expected"
  const TooManyColorsError: string := "PNG has more than 4 colors; select grayscale conversion (-g)"

  /** Steps 2-3: the working palette, the transparent colour and the reconciled palette and map. */
  method SettlePalette(src: seq<Rgb>, opts: Options, light: (Byte, Byte, Byte) -> Byte)
    returns (t: int, final: array<Entry>, paletteMap: array<Byte>)
    requires 1 <= |src| <= 256 && (!opts.grayscale ==> |src| <= 4)
    ensures fresh(final) && fresh(paletteMap)
    ensures t == ResolvedTransparency(opts.transparent, opts.target, Entries(src, light))
    ensures opts.target == Sprite ==> 0 <= t < |src|
    ensures Reconciled(Entries(src, light), opts, t, light, final[..], paletteMap[..])
  {
    var palette: array<Entry>;
    palette, paletteMap := InitPalette(src, light);
    t := ResolveTransparency(opts, palette);
    final := Reconcile(palette, paletteMap, opts, t, light);
  }

  /** The steps of `process_image` after the checks of step 1 have passed. */
  method ProcessIndexed(img: Image, opts: Options, light: (Byte, Byte, Byte) -> Byte)
    returns (pic: PicData, t: int, ghost final: seq<Entry>, ghost pmap: seq<Byte>)
    requires Decoded(img) && (|img.palette| <= 4 || opts.grayscale)
    ensures t == ResolvedTransparency(opts.transparent, opts.target, Entries(img.palette, light))
    ensures opts.target == Sprite ==> 0 <= t < |img.palette|
    ensures Reconciled(Entries(img.palette, light), opts, t, light, final, pmap)
    ensures fresh(pic) && fresh(pic.tiles) && fresh(pic.tilemap) && fresh(pic.pal)
    ensures Built(pic, img, opts, final, pmap)
  {
    var finalPalette, paletteMap;
    t, finalPalette, paletteMap := SettlePalette(img.palette, opts, light);
    final, pmap := finalPalette[..], paletteMap[..];
    pic := BuildPicture(img, opts, finalPalette, paletteMap);
  }

  /**
   * `process_image` from the decoded image on. The checks of step 1 are
   * errors; otherwise the options come back with the resolved transparent
   * colour, and `final` and `pmap` are the palette and map step 3 settled on.
   */
  method ProcessImage(img: Image, opts: Options, light: (Byte, Byte, Byte) -> Byte)
    returns (r: Result<PicData>, newOpts: Options, ghost final: seq<Entry>, ghost pmap: seq<Byte>)
    requires img.indexed ==> Decoded(img)
    ensures !img.indexed ==> r.Err?
    ensures img.indexed && |img.palette| > 4 && !opts.grayscale ==> r.Err?
    ensures r.Err? ==> newOpts == opts
    ensures img.indexed && (|img.palette| <= 4 || opts.grayscale) ==>
      && r.Ok?
      && newOpts == opts.(transparent := ResolvedTransparency(opts.transparent, opts.target, Entries(img.palette, light)))
      && Reconciled(Entries(img.palette, light), opts, ResolvedTransparency(opts.transparent, opts.target, Entries(img.palette, light)), light, final, pmap)
    ensures r.Ok? ==>
      && fresh(r.value) && fresh(r.value.tiles) && fresh(r.value.tilemap) && fresh(r.value.pal)
      && Built(r.value, img, opts, final, pmap)
  {
    newOpts := opts;
    final, pmap := [], [];
    if !img.indexed {
      r := Err(NotIndexedError);
    } else if |img.palette| > 4 && !opts.grayscale {
      r := Err(TooManyColorsError);
    } else {
      var pic, t;
      pic, t, final, pmap := ProcessIndexed(img, opts, light);
      newOpts := opts.(transparent := t);
      r := Ok(pic);
    }
  }
}
