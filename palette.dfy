// The palette model: nearest-shade selection, the paired palette swaps and the
// light-to-dark bubble sort of src/pngb.c.
module Palette {
  import opened Types

  /** `abs(a - b)` */
  function Dist(a: int, b: int): nat
  {
    if a >= b then a - b else b - a
  }

  /**
   * `i` is the index of a value of `levels` closest to `L`, and no earlier index
   * is as close (ties go to the lowest index).
   */
  ghost predicate IsNearest(L: int, levels: seq<Byte>, i: nat)
  {
    && i < |levels|
    && (forall j :: 0 <= j < |levels| ==> Dist(levels[i], L) <= Dist(levels[j], L))
    && (forall j :: 0 <= j < i ==> Dist(levels[i], L) < Dist(levels[j], L))
  }

  /**
   * The index `match_lightness` selects, defined over growing prefixes of the
   * levels: a later entry replaces the best so far only when strictly closer.
   */
  function Nearest(L: int, levels: seq<Byte>): (i: nat)
    requires |levels| > 0
    ensures IsNearest(L, levels, i)
    decreases |levels|
  {
    if |levels| == 1 then 0
    else
      var p := Nearest(L, levels[..|levels| - 1]);
      if Dist(levels[|levels| - 1], L) < Dist(levels[p], L) then |levels| - 1 else p
  }

  /** The selected index is the only one with the nearest-shade property. */
  lemma NearestIsUnique(L: int, levels: seq<Byte>, i: nat)
    requires |levels| > 0
    requires IsNearest(L, levels, i)
    ensures i == Nearest(L, levels)
  {
  }

  /** `match_lightness`: a linear scan keeping the strictly closest entry. */
  method MatchLightness(lightness: Byte, levels: seq<Byte>) returns (nearest: nat)
    requires 0 < |levels| < 256
    ensures IsNearest(lightness, levels, nearest)
    ensures nearest == Nearest(lightness, levels)
  {
    nearest := 0;
    var shortestDist := Dist(levels[0], lightness);
    var c := 1;
    while c < |levels|
      invariant 1 <= c <= |levels|
      invariant nearest == Nearest(lightness, levels[..c])
      invariant shortestDist == Dist(levels[nearest], lightness)
    {
      assert levels[..c + 1][..c] == levels[..c];
      var d := Dist(levels[c], lightness);
      if d < shortestDist {
        shortestDist := d;
        nearest := c;
      }
      c := c + 1;
    }
    assert levels[..c] == levels;
  }

  /**
   * The target colour for a lightness: the nearest of the four shades, or
   * for sprites the nearest of the three non-white shades (an index 1..3).
   */
  function ShadeIndex(L: Byte, sprite: bool): (i: nat)
    ensures sprite ==> 1 <= i <= 3
    ensures !sprite ==> i <= 3
    ensures forall j :: (if sprite then 1 else 0) <= j < 4 ==> Dist(Shades[i], L) <= Dist(Shades[j], L)
    ensures forall j :: (if sprite then 1 else 0) <= j < i ==> Dist(Shades[i], L) < Dist(Shades[j], L)
  {
    if sprite then
      var k := Nearest(L, Shades[1..]);
      assert forall j :: 1 <= j < 4 ==> Shades[j] == Shades[1..][j - 1];
      k + 1
    else Nearest(L, Shades)
  }

  /** `intensity_to_shades` */
  method IntensityToShades(lightness: Byte, target: Target) returns (shade: Byte)
    ensures shade == ShadeIndex(lightness, target == Sprite)
    ensures target == Sprite ==> 1 <= shade <= 3
    ensures shade <= 3
  {
    if target == Sprite {
      var m := MatchLightness(lightness, Shades[1..]);
      assert forall j :: 1 <= j < 4 ==> Shades[j] == Shades[1..][j - 1];
      NearestIsUnique(lightness, Shades[1..], m);
      return m + 1;
    }
    var m := MatchLightness(lightness, Shades);
    return m;
  }

  /** The palette after exchanging entries `i` and `j`. */
  function SwapEntries(s: seq<Entry>, i: nat, j: nat): (r: seq<Entry>)
    requires i < |s| && j < |s|
    ensures |r| == |s|
  {
    s[i := s[j]][j := s[i]]
  }

  /** The map after every reference to `a` is turned into `b` and vice versa. */
  function SwapIndexes(m: seq<Byte>, a: Byte, b: Byte): (r: seq<Byte>)
    ensures |r| == |m|
  {
    seq(|m|, c requires 0 <= c < |m| => if m[c] == a then b else if m[c] == b then a else m[c])
  }

  /** `swap_palette_entries` */
  method SwapPaletteEntries(palette: array<Entry>, i: nat, j: nat)
    requires i < palette.Length && j < palette.Length
    modifies palette
    ensures palette[..] == SwapEntries(old(palette[..]), i, j)
  {
    if i == j {
      return;
    }
    var temp := palette[j];
    palette[j] := palette[i];
    palette[i] := temp;
  }

  /** `swap_palette_indexes`, over the whole map (the callers pass its length). */
  method SwapPaletteIndexes(paletteMap: array<Byte>, a: Byte, b: Byte)
    modifies paletteMap
    ensures paletteMap[..] == SwapIndexes(old(paletteMap[..]), a, b)
  {
    if a == b {
      return;
    }
    var c := 0;
    while c < paletteMap.Length
      invariant 0 <= c <= paletteMap.Length
      invariant forall k :: 0 <= k < c ==> paletteMap[k] == SwapIndexes(old(paletteMap[..]), a, b)[k]
      invariant forall k :: c <= k < paletteMap.Length ==> paletteMap[k] == old(paletteMap[k])
    {
      if paletteMap[c] == a {
        paletteMap[c] := b;
      } else if paletteMap[c] == b {
        paletteMap[c] := a;
      }
      c := c + 1;
    }
  }

  /** Swapping the same pair of indexes twice restores the map. */
  lemma SwapIndexesInvolution(m: seq<Byte>, a: Byte, b: Byte)
    ensures SwapIndexes(SwapIndexes(m, a, b), a, b) == m
  {
    var once := SwapIndexes(m, a, b);
    var twice := SwapIndexes(once, a, b);
    forall c | 0 <= c < |m| ensures twice[c] == m[c] {
      assert once[c] == (if m[c] == a then b else if m[c] == b then a else m[c]);
    }
  }

  /** What `swap_palette_indexes(a, b)` does to a single map entry. */
  lemma SwapIndexesAt(m: seq<Byte>, a: Byte, b: Byte, c: nat)
    requires c < |m|
    ensures m[c] == a ==> SwapIndexes(m, a, b)[c] == b
    ensures m[c] == b ==> SwapIndexes(m, a, b)[c] == a
    ensures m[c] != a && m[c] != b ==> SwapIndexes(m, a, b)[c] == m[c]
    ensures a == b ==> SwapIndexes(m, a, b) == m
  {
  }

  /** Every map entry refers to a colour of a palette of `n` entries. */
  ghost predicate MapInRange(m: seq<Byte>, n: nat)
  {
    forall c :: 0 <= c < |m| ==> m[c] < n
  }

  /** Source colour `c` is shown through the map as `colors[c]`. */
  ghost predicate ShowsColors(palette: seq<Entry>, m: seq<Byte>, colors: seq<Entry>)
  {
    && |m| == |colors|
    && MapInRange(m, |palette|)
    && forall c :: 0 <= c < |m| ==> palette[m[c]] == colors[c]
  }

  /**
   * The paired discipline: swapping two palette entries together with the map
   * references to them leaves the colour each source index shows unchanged.
   */
  lemma PairedSwapKeepsColors(palette: seq<Entry>, m: seq<Byte>, colors: seq<Entry>, a: Byte, b: Byte)
    requires a < |palette| && b < |palette|
    requires ShowsColors(palette, m, colors)
    ensures ShowsColors(SwapEntries(palette, a, b), SwapIndexes(m, a, b), colors)
  {
    var p := SwapEntries(palette, a, b);
    var m' := SwapIndexes(m, a, b);
    forall c | 0 <= c < |m| ensures m'[c] < |p| && p[m'[c]] == colors[c] {
      SwapIndexesAt(m, a, b, c);
    }
  }

  /** Entries `[from, |s|)` are non-increasing in lightness. */
  ghost predicate NonIncreasingFrom(s: seq<Entry>, from: nat)
  {
    forall k, j :: from <= k < j < |s| ==> s[k].L >= s[j].L
  }

  /** References to colours below `lo` are fixed by a swap of two indexes at or above `lo`. */
  lemma SwapIndexesKeepsLow(m: seq<Byte>, a: Byte, b: Byte, lo: nat)
    requires lo <= a && lo <= b
    ensures forall c :: 0 <= c < |m| && m[c] < lo ==> SwapIndexes(m, a, b)[c] == m[c]
  {
  }

  /**
   * `sort_palette`: bubble sort of `palette[startAt..]` from light to dark, each
   * adjacent exchange paired with the same exchange of references in the map.
   * The C do/while loop is a while loop here: its first pass changes nothing
   * when the range to sort is empty.
   */
  method SortPalette(palette: array<Entry>, paletteMap: array<Byte>, startAt: nat)
    requires startAt <= palette.Length <= 256
    requires palette as object != paletteMap
    requires MapInRange(paletteMap[..], palette.Length)
    modifies palette, paletteMap
    ensures NonIncreasingFrom(palette[..], startAt)
    ensures palette[..startAt] == old(palette[..startAt])
    ensures multiset(palette[..]) == multiset(old(palette[..]))
    ensures MapInRange(paletteMap[..], palette.Length)
    ensures forall c :: 0 <= c < paletteMap.Length ==> palette[paletteMap[c]] == old(palette[paletteMap[c]])
    ensures forall c :: 0 <= c < paletteMap.Length && old(paletteMap[c]) < startAt ==> paletteMap[c] == old(paletteMap[c])
  {
    ghost var m0, p0 := paletteMap[..], palette[..];
    ghost var colors := seq(|m0|, c requires 0 <= c < |m0| => p0[m0[c]]);
    var n: nat := palette.Length;
    while n > startAt
      invariant SortState(palette[..], paletteMap[..], colors, p0, m0, startAt, n)
      decreases n
    {
      ghost var s, m := palette[..], paletteMap[..];
      var newn := BubblePass(palette, paletteMap, startAt, n, colors);
      SortStep(s, m, palette[..], paletteMap[..], colors, p0, m0, startAt, n, newn);
      n := newn;
    }
    SortDone(palette[..], paletteMap[..], colors, p0, m0, startAt, n);
  }

  /**
   * The state of the sort against the palette `p0` and map `m0` it started
   * from: `[n, |s|)` is in final order and lies below everything in
   * `[startAt, n)`; the prefix, the entries, the colours shown and the
   * references below `startAt` are those of the start.
   */
  ghost predicate SortState(s: seq<Entry>, m: seq<Byte>, colors: seq<Entry>, p0: seq<Entry>, m0: seq<Byte>,
                            startAt: nat, n: nat)
  {
    && startAt <= n <= |s| <= 256
    && |s| == |p0| && |m| == |m0|
    && (forall k, j :: n <= k < j < |s| ==> s[k].L >= s[j].L)
    && (forall k, j :: startAt <= k < n <= j < |s| ==> s[k].L >= s[j].L)
    && s[..startAt] == p0[..startAt]
    && multiset(s) == multiset(p0)
    && ShowsColors(s, m, colors)
    && forall c :: 0 <= c < |m| && m0[c] < startAt ==> m[c] == m0[c]
  }

  /** A finished pass over `[startAt, n)` leaves the sort ordered from the last exchange `newn` on. */
  lemma SortStep(s: seq<Entry>, m: seq<Byte>, s': seq<Entry>, m': seq<Byte>, colors: seq<Entry>,
                 p0: seq<Entry>, m0: seq<Byte>, startAt: nat, n: nat, newn: nat)
    requires SortState(s, m, colors, p0, m0, startAt, n) && startAt < n
    requires PassState(s', m', colors, s, m, startAt, newn, n, n)
    ensures SortState(s', m', colors, p0, m0, startAt, newn) && newn < n
  {
    assert s'[..startAt] == s[..startAt];
    forall k, j | newn <= k < j < |s'| ensures s'[k].L >= s'[j].L {
      if n <= k {
        assert s'[k] == s'[n..][k - n] == s[k];
        assert s'[j] == s'[n..][j - n] == s[j];
      }
    }
  }

  /** The sort's final state: `[startAt, |s|)` is ordered and each source colour is still shown. */
  lemma SortDone(s: seq<Entry>, m: seq<Byte>, colors: seq<Entry>, p0: seq<Entry>, m0: seq<Byte>, startAt: nat, n: nat)
    requires SortState(s, m, colors, p0, m0, startAt, n) && n <= startAt
    requires |colors| == |m0| && forall c :: 0 <= c < |m0| ==> m0[c] < |p0| && colors[c] == p0[m0[c]]
    ensures NonIncreasingFrom(s, startAt)
    ensures MapInRange(m, |s|)
    ensures forall c :: 0 <= c < |m| ==> s[m[c]] == p0[m0[c]]
  {
  }

  /**
   * The state of a bubble pass over `[startAt, n)` about to compare `i - 1`
   * with `i`: `s[i - 1]` is the darkest of `[startAt, i)`, the range from
   * the last exchange `newn` up to `i` is in order and lies below everything
   * before `newn`, and the whole unsorted range lies above the sorted tail.
   */
  ghost predicate PassInv(s: seq<Entry>, startAt: nat, newn: nat, i: nat, n: nat)
  {
    && startAt + 1 <= i <= n <= |s|
    && startAt <= newn < i
    && (forall k :: startAt <= k < i - 1 ==> s[k].L >= s[i - 1].L)
    && (forall k, j :: newn <= k < j < i ==> s[k].L >= s[j].L)
    && (forall k, j :: startAt <= k < newn <= j < i ==> s[k].L >= s[j].L)
    && (forall k, j :: startAt <= k < n <= j < |s| ==> s[k].L >= s[j].L)
  }

  lemma PassSwapStep(s: seq<Entry>, startAt: nat, newn: nat, i: nat, n: nat)
    requires PassInv(s, startAt, newn, i, n) && i < n
    requires s[i - 1].L < s[i].L
    ensures PassInv(SwapEntries(s, i - 1, i), startAt, i, i + 1, n)
  {
    var t := SwapEntries(s, i - 1, i);
    assert forall k :: 0 <= k < |s| && k != i - 1 && k != i ==> t[k] == s[k];
    assert t[i - 1] == s[i] && t[i] == s[i - 1];
    forall k, j | startAt <= k < n <= j < |s| ensures t[k].L >= t[j].L {
      if k == i - 1 {
        assert s[i].L >= s[j].L;
      }
    }
  }

  lemma PassKeepStep(s: seq<Entry>, startAt: nat, newn: nat, i: nat, n: nat)
    requires PassInv(s, startAt, newn, i, n) && i < n
    requires s[i - 1].L >= s[i].L
    ensures PassInv(s, startAt, newn, i + 1, n)
  {
  }

  /** An exchange keeps the multiset of entries and every other entry. */
  lemma SwapEntriesFacts(s: seq<Entry>, a: nat, b: nat)
    requires a < |s| && b < |s|
    ensures multiset(SwapEntries(s, a, b)) == multiset(s)
    ensures forall k :: 0 <= k < |s| && k != a && k != b ==> SwapEntries(s, a, b)[k] == s[k]
  {
  }

  /**
   * The whole state of a bubble pass against the palette `p0` and map `m0` it
   * started from: the ordering facts of `PassInv`, the parts outside
   * `[startAt, n)` untouched, the same entries, the same colours shown, and
   * references below `startAt` fixed.
   */
  ghost predicate PassState(s: seq<Entry>, m: seq<Byte>, colors: seq<Entry>, p0: seq<Entry>, m0: seq<Byte>,
                            startAt: nat, newn: nat, i: nat, n: nat)
  {
    && PassInv(s, startAt, newn, i, n)
    && Untouched(s, p0, startAt, n)
    && ShowsColors(s, m, colors)
    && KeepsLow(m, m0, startAt)
  }

  /** `s` is a rearrangement of `p0` that agrees with it outside `[startAt, n)`. */
  ghost predicate Untouched(s: seq<Entry>, p0: seq<Entry>, startAt: nat, n: nat)
  {
    && startAt <= n <= |s| == |p0|
    && s[n..] == p0[n..]
    && s[..startAt] == p0[..startAt]
    && multiset(s) == multiset(p0)
  }

  /** The map `m` keeps every reference of `m0` to a colour below `lo`. */
  ghost predicate KeepsLow(m: seq<Byte>, m0: seq<Byte>, lo: nat)
  {
    && |m| == |m0|
    && forall c :: 0 <= c < |m| && m0[c] < lo ==> m[c] == m0[c]
  }

  /** The pass state before the first comparison. */
  lemma PassStateInit(s: seq<Entry>, m: seq<Byte>, colors: seq<Entry>, startAt: nat, n: nat)
    requires startAt < n <= |s|
    requires ShowsColors(s, m, colors)
    requires forall k, j :: startAt <= k < n <= j < |s| ==> s[k].L >= s[j].L
    ensures PassState(s, m, colors, s, m, startAt, startAt, startAt + 1, n)
  {
  }

  lemma PassStateSwap(s: seq<Entry>, m: seq<Byte>, colors: seq<Entry>, p0: seq<Entry>, m0: seq<Byte>,
                      startAt: nat, newn: nat, i: nat, n: nat)
    requires PassState(s, m, colors, p0, m0, startAt, newn, i, n) && i < n <= 256
    requires s[i - 1].L < s[i].L
    ensures PassState(SwapEntries(s, i - 1, i), SwapIndexes(m, i - 1, i), colors, p0, m0, startAt, i, i + 1, n)
  {
    PassSwapStep(s, startAt, newn, i, n);
    SwapKeepsOutside(s, p0, startAt, i, n);
    PairedSwapKeepsColors(s, m, colors, i - 1, i);
    SwapIndexesKeepsLow(m, i - 1, i, startAt);
  }

  lemma PassStateKeep(s: seq<Entry>, m: seq<Byte>, colors: seq<Entry>, p0: seq<Entry>, m0: seq<Byte>,
                      startAt: nat, newn: nat, i: nat, n: nat)
    requires PassState(s, m, colors, p0, m0, startAt, newn, i, n) && i < n
    requires s[i - 1].L >= s[i].L
    ensures PassState(s, m, colors, p0, m0, startAt, newn, i + 1, n)
  {
    PassKeepStep(s, startAt, newn, i, n);
  }

  /** An exchange inside `[startAt, n)` keeps the entries and everything outside that range. */
  lemma SwapKeepsOutside(s: seq<Entry>, p0: seq<Entry>, startAt: nat, i: nat, n: nat)
    requires startAt < i < n <= |s| == |p0|
    requires s[n..] == p0[n..] && s[..startAt] == p0[..startAt] && multiset(s) == multiset(p0)
    ensures var s' := SwapEntries(s, i - 1, i);
      s'[n..] == p0[n..] && s'[..startAt] == p0[..startAt] && multiset(s') == multiset(p0)
  {
    var s' := SwapEntries(s, i - 1, i);
    SwapEntriesFacts(s, i - 1, i);
    assert s'[n..] == s[n..];
    assert s'[..startAt] == s[..startAt];
  }

  /** The exchange step of `sort_palette`: the map references to `i - 1` and `i` are swapped, then the two entries. */
  method ExchangeAdjacent(palette: array<Entry>, paletteMap: array<Byte>, i: nat)
    requires 0 < i < palette.Length <= 256
    requires palette as object != paletteMap
    modifies palette, paletteMap
    ensures palette[..] == SwapEntries(old(palette[..]), i - 1, i)
    ensures paletteMap[..] == SwapIndexes(old(paletteMap[..]), i - 1, i)
  {
    SwapPaletteIndexes(paletteMap, i - 1, i);
    SwapPaletteEntries(palette, i - 1, i);
  }

  /**
   * One pass of the bubble sort's inner loop over `[startAt, n)`: the result
   * `newn` is the position of the last exchange, from which on the range is in
   * its final order (the pass state with `i == n`).
   */
  method BubblePass(palette: array<Entry>, paletteMap: array<Byte>, startAt: nat, n: nat, ghost colors: seq<Entry>)
      returns (newn: nat)
    requires startAt < n <= palette.Length <= 256
    requires palette as object != paletteMap
    requires ShowsColors(palette[..], paletteMap[..], colors)
    requires forall k, j :: startAt <= k < n <= j < palette.Length ==> palette[k].L >= palette[j].L
    modifies palette, paletteMap
    ensures PassState(palette[..], paletteMap[..], colors, old(palette[..]), old(paletteMap[..]), startAt, newn, n, n)
  {
    ghost var p0, m0 := palette[..], paletteMap[..];
    PassStateInit(p0, m0, colors, startAt, n);
    ghost var cur, curMap := p0, m0;
    newn := startAt;
    var i := startAt + 1;
    while i < n
      invariant palette[..] == cur && paletteMap[..] == curMap
      invariant PassState(cur, curMap, colors, p0, m0, startAt, newn, i, n)
    {
      if palette[i - 1].L < palette[i].L {
        PassStateSwap(cur, curMap, colors, p0, m0, startAt, newn, i, n);
        ExchangeAdjacent(palette, paletteMap, i);
        cur, curMap := SwapEntries(cur, i - 1, i), SwapIndexes(curMap, i - 1, i);
        newn := i;
      } else {
        PassStateKeep(cur, curMap, colors, p0, m0, startAt, newn, i, n);
      }
      i := i + 1;
    }
  }

  /**
   * `set_gb_pal_entry`'s 15-bit colour: the top five bits of each channel,
   * red in bits 0-4, green in bits 5-9 and blue in bits 10-14. The shifts of
   * the source are written as the equivalent arithmetic.
   */
  function PackColor(r: Byte, g: Byte, b: Byte): (w: bv16)
    ensures w < 0x8000
    ensures w & 0x1f == (r as bv16) >> 3
    ensures (w >> 5) & 0x1f == (g as bv16) >> 3
    ensures w >> 10 == (b as bv16) >> 3
  {
    ((r as bv16) >> 3) | (((g as bv16) >> 3) << 5) | (((b as bv16) >> 3) << 10)
  }

  /** Two colours pack to the same word exactly when the top five bits of each channel agree. */
  lemma PackColorInjective(r: Byte, g: Byte, b: Byte, r': Byte, g': Byte, b': Byte)
    ensures PackColor(r, g, b) == PackColor(r', g', b') <==>
      (r as bv16) >> 3 == (r' as bv16) >> 3 && (g as bv16) >> 3 == (g' as bv16) >> 3 && (b as bv16) >> 3 == (b' as bv16) >> 3
  {
  }
}
