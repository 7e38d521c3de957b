// The checks that run between conversion and code output in src/pngb.c:
// `gb_check_warnings`, which clamps options to what the Game Boy accepts and
// reports the limits a picture exceeds, and `sanitize_var_name`, which turns
// the picture name into a C identifier.
module Output {
  import opened Types

  // ---------------------------------------------------------------------
  // gb_check_warnings
  // ---------------------------------------------------------------------

  /** The messages `gb_check_warnings` prints, in the order it prints them. */
  datatype Notice =
    | PalNumberClamped      // palette number above 7
    | BaseIndexRounded      // odd base index with big_sprite set
    | MapEnabledForTest     // test code without tile map output
    | PaletteEnabledForSort // palette sorting without palette output
    | MapTooLarge           // background or window of more than 32x32 tiles
    | TooManyTiles          // more than 256 tiles counting the base index
    | TooManyFrames         // more than 40 sprite frames counting the base index
    | PictureTooLarge       // more than 40 sprites, or more than 10 across

  /**
   * The first three adjustments: the palette number, the base index (its low
   * bit cleared whenever big_sprite is set, whatever the target) and the map
   * for test code. They touch different fields and none reads a field
   * another one sets.
   */
  function ClampLimits(opts: Options): Options
  {
    opts.(palNumber := if opts.palNumber > 7 then 7 else opts.palNumber,
          baseIndex := if opts.bigSprite && opts.baseIndex % 2 == 1 then opts.baseIndex - 1 else opts.baseIndex,
          createMap := opts.createMap || opts.testCode)
  }

  /**
   * The options as `gb_check_warnings` leaves them. Its last adjustment
   * announces that palette output is enabled for sorting but sets the map
   * flag instead.
   */
  function CheckWarningsAsWritten(opts: Options): Options
  {
    var o := ClampLimits(opts);
    o.(createMap := o.createMap || (o.sortPalette && !o.createPalette))
  }

  /** The options with the last adjustment enabling palette output, as announced. */
  function CheckWarnings(opts: Options): Options
  {
    var o := ClampLimits(opts);
    o.(createPalette := o.createPalette || o.sortPalette)
  }

  /**
   * What the corrected clamps guarantee, field by field: the palette number
   * is at most 7 and kept when it is, the base index is rounded down to even
   * exactly when big_sprite is set (also for a background or window target),
   * test code implies the map and sorting implies palette output; nothing
   * else changes.
   */
  lemma CheckWarningsFacts(opts: Options)
    ensures var r := CheckWarnings(opts);
      && r.palNumber == (if opts.palNumber > 7 then 7 else opts.palNumber)
      && r.baseIndex == (if opts.bigSprite then opts.baseIndex - opts.baseIndex % 2 else opts.baseIndex)
      && r.createMap == (opts.createMap || opts.testCode)
      && r.createPalette == (opts.createPalette || opts.sortPalette)
      && r == opts.(palNumber := r.palNumber, baseIndex := r.baseIndex, createMap := r.createMap, createPalette := r.createPalette)
  {
  }

  /** Running the corrected clamps a second time changes nothing. */
  lemma CheckWarningsIdempotent(opts: Options)
    ensures CheckWarnings(CheckWarnings(opts)) == CheckWarnings(opts)
  {
    CheckWarningsFacts(opts);
    CheckWarningsFacts(CheckWarnings(opts));
  }

  /** The two versions differ only in the last adjustment. */
  lemma AsWrittenAgreesElsewhere(opts: Options)
    ensures var r := CheckWarningsAsWritten(opts);
      && r.palNumber == CheckWarnings(opts).palNumber
      && r.baseIndex == CheckWarnings(opts).baseIndex
      && r.createPalette == opts.createPalette
      && r.createMap == (opts.createMap || opts.testCode || (opts.sortPalette && !opts.createPalette))
  {
    CheckWarningsFacts(opts);
  }

  /**
   * Sorting without palette output: the notice promises palette output, the
   * code as written turns on the map and leaves palette output off.
   */
  lemma SortWithoutPaletteOutput(opts: Options)
    requires opts.sortPalette && !opts.createPalette && !opts.createMap && !opts.testCode
    ensures PaletteEnabledForSort in Notices(opts, 1, 1, 1)
    ensures !CheckWarningsAsWritten(opts).createPalette && CheckWarningsAsWritten(opts).createMap
    ensures CheckWarnings(opts).createPalette && !CheckWarnings(opts).createMap
  {
    CheckWarningsFacts(opts);
  }

  /** The notices of the four adjustments, each printed when its condition holds. */
  function AdjustmentNotices(opts: Options): seq<Notice>
  {
    (if opts.palNumber > 7 then [PalNumberClamped] else [])
    + (if opts.bigSprite && opts.baseIndex % 2 == 1 then [BaseIndexRounded] else [])
    + (if opts.testCode && !opts.createMap then [MapEnabledForTest] else [])
    + (if opts.sortPalette && !opts.createPalette then [PaletteEnabledForSort] else [])
  }

  /**
   * The limit warnings of test code for a picture of `cols x rows` cells and
   * `totalTiles` tiles, with the base index `base` after rounding.
   */
  function LimitNotices(target: Target, base: Byte, cols: nat, rows: nat, totalTiles: nat): seq<Notice>
  {
    if target == Bkg || target == Window then
      (if cols > 32 || rows > 32 then [MapTooLarge] else [])
      + (if totalTiles + base > 256 then [TooManyTiles] else [])
    else
      (if totalTiles + base > 40 then [TooManyFrames] else [])
      + (if cols * rows > 40 || cols > 10 then [PictureTooLarge] else [])
  }

  /** Everything `gb_check_warnings` prints, in order. */
  function Notices(opts: Options, cols: nat, rows: nat, totalTiles: nat): seq<Notice>
  {
    AdjustmentNotices(opts)
    + (if opts.testCode then LimitNotices(opts.target, ClampLimits(opts).baseIndex, cols, rows, totalTiles) else [])
  }

  /** A notice about an adjustment is printed exactly when the corrected clamps change the field it names. */
  lemma AdjustmentNoticesMatch(opts: Options)
    ensures var n := AdjustmentNotices(opts);
      var r := CheckWarnings(opts);
      && (PalNumberClamped in n <==> r.palNumber != opts.palNumber)
      && (BaseIndexRounded in n <==> r.baseIndex != opts.baseIndex)
      && (MapEnabledForTest in n <==> r.createMap != opts.createMap)
      && (PaletteEnabledForSort in n <==> r.createPalette != opts.createPalette)
      && MapTooLarge !in n && TooManyTiles !in n && TooManyFrames !in n && PictureTooLarge !in n
  {
    CheckWarningsFacts(opts);
    AdjustmentNoticesAre(opts);
  }

  /** The adjustment notices, one membership test each. */
  lemma AdjustmentNoticesAre(opts: Options)
    ensures forall x :: x in AdjustmentNotices(opts) <==>
      || (x == PalNumberClamped && opts.palNumber > 7)
      || (x == BaseIndexRounded && opts.bigSprite && opts.baseIndex % 2 == 1)
      || (x == MapEnabledForTest && opts.testCode && !opts.createMap)
      || (x == PaletteEnabledForSort && opts.sortPalette && !opts.createPalette)
  {
  }

  /**
   * The tile-count warnings: a background or window warns about more than
   * 256 tiles counting the base index and about a map wider or taller than
   * 32 tiles, a sprite about more than 40 frames.
   */
  lemma LimitNoticesFacts(target: Target, base: Byte, cols: nat, rows: nat, totalTiles: nat)
    ensures var n := LimitNotices(target, base, cols, rows, totalTiles);
      && (TooManyTiles in n <==> target != Sprite && totalTiles + base > 256)
      && (TooManyFrames in n <==> target == Sprite && totalTiles + base > 40)
      && (MapTooLarge in n <==> target != Sprite && (cols > 32 || rows > 32))
      && (PictureTooLarge in n <==> target == Sprite && (cols * rows > 40 || cols > 10))
  {
  }

  /** Limit warnings are printed for test code only, with the base index after rounding. */
  lemma LimitNoticesNeedTestCode(opts: Options, cols: nat, rows: nat, totalTiles: nat)
    ensures var n := Notices(opts, cols, rows, totalTiles);
      && (!opts.testCode ==> MapTooLarge !in n && TooManyTiles !in n && TooManyFrames !in n && PictureTooLarge !in n)
      && (opts.testCode ==> forall x :: x in n <==> x in AdjustmentNotices(opts) || x in LimitNotices(opts.target, CheckWarnings(opts).baseIndex, cols, rows, totalTiles))
  {
    AdjustmentNoticesMatch(opts);
  }

  // ---------------------------------------------------------------------
  // sanitize_var_name
  // ---------------------------------------------------------------------

  /** `isalpha` in the C locale. */
  predicate IsAlpha(c: char)
  {
    ('a' <= c <= 'z') || ('A' <= c <= 'Z')
  }

  /** `isalnum` in the C locale. */
  predicate IsAlnum(c: char)
  {
    IsAlpha(c) || ('0' <= c <= '9')
  }

  /** A C identifier: a letter or `_` first, then letters, digits and `_`. */
  predicate IsIdentifier(s: seq<char>)
  {
    && |s| > 0
    && (IsAlpha(s[0]) || s[0] == '_')
    && forall i :: 1 <= i < |s| ==> IsAlnum(s[i]) || s[i] == '_'
  }

  /**
   * The name buffer after `sanitize_var_name(var, len)`: the first character
   * becomes `_` unless it is a letter (whatever `len` is), and characters
   * `1 .. len-1` become `_` unless they are letters or digits.
   */
  function Sanitized(s: seq<char>, len: nat): (r: seq<char>)
    requires |s| >= 1
    ensures |r| == |s|
  {
    seq(|s|, i requires 0 <= i < |s| =>
      if i == 0 then (if IsAlpha(s[0]) then s[0] else '_')
      else if i < len && !IsAlnum(s[i]) then '_'
      else s[i])
  }

  /** `sanitize_var_name`, in place on the name buffer. */
  method SanitizeVarName(v: array<char>, len: nat)
    requires v.Length >= 1 && len <= v.Length
    modifies v
    ensures v[..] == Sanitized(old(v[..]), len)
  {
    if !IsAlpha(v[0]) {
      v[0] := '_';
    }
    var c := 1;
    while c < len
      invariant 1 <= c <= if len < 1 then 1 else len
      invariant forall i :: 0 <= i < c ==> v[i] == Sanitized(old(v[..]), len)[i]
      invariant forall i :: c <= i < v.Length ==> v[i] == old(v[i])
    {
      if !IsAlnum(v[c]) {
        v[c] := '_';
      }
      c := c + 1;
    }
  }

  /**
   * The first `len` characters (at least one) form an identifier, the
   * characters past them are untouched, and every character that was
   * already allowed where it stands is kept.
   */
  lemma SanitizedIsIdentifier(s: seq<char>, len: nat)
    requires 1 <= len <= |s|
    ensures IsIdentifier(Sanitized(s, len)[..len])
    ensures Sanitized(s, len)[len..] == s[len..]
    ensures IsAlpha(s[0]) ==> Sanitized(s, len)[0] == s[0]
    ensures forall i :: 1 <= i < len && IsAlnum(s[i]) ==> Sanitized(s, len)[i] == s[i]
  {
    var r := Sanitized(s, len);
    forall i | 1 <= i < len ensures IsAlnum(r[..len][i]) || r[..len][i] == '_' {
      assert r[..len][i] == r[i];
    }
  }

  /** Sanitizing a sanitized name changes nothing. */
  lemma SanitizedIdempotent(s: seq<char>, len: nat)
    requires |s| >= 1
    ensures Sanitized(Sanitized(s, len), len) == Sanitized(s, len)
  {
  }

  /** An identifier with a letter first is left as it is. */
  lemma SanitizedKeepsIdentifiers(s: seq<char>, len: nat)
    requires 1 <= len <= |s| && IsAlpha(s[0]) && forall i :: 1 <= i < len ==> IsAlnum(s[i])
    ensures Sanitized(s, len) == s
  {
  }
}
