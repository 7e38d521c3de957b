// The command line of src/main.c: the default options, number parsing, the
// transparency argument, the single-letter flags and the loop over the
// arguments that fills the options and the two file names.
module Cli {
  import opened Types
  import opened Output
  import opened Pipeline
  import opened Raster

  // ---------------------------------------------------------------------
  // reset_opts
  // ---------------------------------------------------------------------

  /** The options `reset_opts` leaves: a background, base index 1, the name "gbpic", everything else zero. */
  function ResetOpts(): Options
  {
    Options(Bkg, 0, false, false, false, false, 0, false, false, false, 1, false, "gbpic")
  }

  /**
   * The defaults are already within the Game Boy's limits: the clamps of
   * `gb_check_warnings` (either version) change nothing and print nothing,
   * and the defaults describe 8-pixel tiles.
   */
  lemma ResetOptsNeedNoAdjustment(cols: nat, rows: nat, totalTiles: nat)
    ensures CheckWarnings(ResetOpts()) == ResetOpts()
    ensures CheckWarningsAsWritten(ResetOpts()) == ResetOpts()
    ensures Notices(ResetOpts(), cols, rows, totalTiles) == []
    ensures TileHeight(ResetOpts()) == 8
  {
  }

  // ---------------------------------------------------------------------
  // parse_as_number
  // ---------------------------------------------------------------------

  /** The value of a digit in bases up to 16, -1 for any other character. */
  function DigitValue(c: char): (v: int)
    ensures -1 <= v < 16
    ensures v >= 0 <==> ('0' <= c <= '9') || ('a' <= c <= 'f') || ('A' <= c <= 'F')
  {
    if '0' <= c <= '9' then c as int - '0' as int
    else if 'a' <= c <= 'f' then c as int - 'a' as int + 10
    else if 'A' <= c <= 'F' then c as int - 'A' as int + 10
    else -1
  }

  predicate IsDigitIn(c: char, base: nat)
  {
    0 <= DigitValue(c) < base
  }

  predicate AllDigits(s: string, base: nat)
  {
    forall i :: 0 <= i < |s| ==> IsDigitIn(s[i], base)
  }

  /** The value of a string of digits, most significant first. */
  function Value(s: string, base: nat): nat
    requires AllDigits(s, base)
  {
    if |s| == 0 then 0
    else Value(s[..|s| - 1], base) * base + DigitValue(s[|s| - 1])
  }

  /**
   * `parse_as_number`: `strtol` must consume the whole string. An optional
   * sign comes first and, in base 16, an optional `0x` or `0X`; at least one
   * digit must follow. The empty string converts nothing and so ends where
   * it starts: it parses as 0.
   */
  function ParseNumber(s: string, base: nat): Option<int>
    requires base == 10 || base == 16
  {
    if |s| == 0 then Some(0)
    else
      var neg := s[0] == '-';
      var unsigned := if s[0] == '-' || s[0] == '+' then s[1..] else s;
      var digits :=
        if base == 16 && |unsigned| >= 3 && unsigned[0] == '0' && (unsigned[1] == 'x' || unsigned[1] == 'X')
        then unsigned[2..] else unsigned;
      if |digits| == 0 || !AllDigits(digits, base) then None
      else
        var v: int := Value(digits, base);
        Some(if neg then -v else v)
  }

  /** A string whose last character is not a digit is refused: the number must take up the whole string. */
  lemma ParseRejectsTrailing(s: string, base: nat)
    requires base == 10 || base == 16
    requires |s| > 0 && !IsDigitIn(s[|s| - 1], base)
    ensures ParseNumber(s, base) == None
  {
    var unsigned := if s[0] == '-' || s[0] == '+' then s[1..] else s;
    var digits :=
      if base == 16 && |unsigned| >= 3 && unsigned[0] == '0' && (unsigned[1] == 'x' || unsigned[1] == 'X')
      then unsigned[2..] else unsigned;
    if |digits| > 0 {
      assert digits[|digits| - 1] == s[|s| - 1];
    }
  }

  /** A character of the decimal digits. */
  function DecimalDigit(d: nat): (c: char)
    requires d < 10
    ensures IsDigitIn(c, 10) && DigitValue(c) == d
  {
    ('0' as int + d) as char
  }

  /** The decimal notation of a natural number. */
  function DecimalString(n: nat): (s: string)
    ensures |s| > 0 && AllDigits(s, 10)
  {
    if n < 10 then [DecimalDigit(n)] else DecimalString(n / 10) + [DecimalDigit(n % 10)]
  }

  /** Parsing the decimal notation of `n` gives `n` back. */
  lemma {:induction false} DecimalRoundTrip(n: nat)
    ensures Value(DecimalString(n), 10) == n
    ensures ParseNumber(DecimalString(n), 10) == Some(n)
  {
    var s := DecimalString(n);
    if n >= 10 {
      DecimalRoundTrip(n / 10);
      assert s[..|s| - 1] == DecimalString(n / 10);
    }
    assert s[0] != '-' && s[0] != '+';
  }

  // ---------------------------------------------------------------------
  // transp_color_from_str
  // ---------------------------------------------------------------------

  /**
   * `transp_color_from_str` as written: `#` and a hexadecimal RGB value `v`
   * give `-(v + 1)`; a decimal palette index `k` is stored as `k + 1`.
   */
  function TranspColorFromStrAsWritten(s: string): Option<int>
  {
    if |s| > 0 && s[0] == '#' then
      match ParseNumber(s[1..], 16)
      case None => None
      case Some(v) => Some(-(v + 1))
    else
      match ParseNumber(s, 10)
      case None => None
      case Some(k) => Some(1 + k)
  }

  /**
   * The transparency argument with a decimal index stored as the index,
   * which is how step 2 of `process_image` reads a non-negative value.
   */
  function TranspColorFromStr(s: string): Option<int>
  {
    if |s| > 0 && s[0] == '#' then
      match ParseNumber(s[1..], 16)
      case None => None
      case Some(v) => Some(-(v + 1))
    else
      ParseNumber(s, 10)
  }

  /** An upper-case hexadecimal digit. */
  function HexDigit(d: nat): (c: char)
    requires d < 16
    ensures IsDigitIn(c, 16) && DigitValue(c) == d && c != 'x' && c != 'X' && c != '-' && c != '+'
  {
    if d < 10 then ('0' as int + d) as char else ('A' as int + d - 10) as char
  }

  /** A byte as two hexadecimal digits. */
  function HexByte(x: Byte): (s: string)
    ensures |s| == 2 && AllDigits(s, 16)
  {
    [HexDigit(x / 16), HexDigit(x % 16)]
  }

  lemma AppendHexByte(s: string, x: Byte)
    requires AllDigits(s, 16)
    ensures AllDigits(s + HexByte(x), 16)
    ensures Value(s + HexByte(x), 16) == Value(s, 16) * 256 + x
  {
    var t := s + [HexDigit(x / 16)];
    assert s + HexByte(x) == t + [HexDigit(x % 16)];
    assert (t + [HexDigit(x % 16)])[..|t|] == t;
    assert t[..|s|] == s;
  }

  /** The notation `#RRGGBB` of a colour. */
  function HexColor(c: Rgb): string
  {
    "#" + HexByte(c.r) + HexByte(c.g) + HexByte(c.b)
  }

  /** The six digits of `#RRGGBB` parse as the packed value `0xRRGGBB`. */
  lemma HexDigitsValue(c: Rgb)
    ensures ParseNumber(HexColor(c)[1..], 16) == Some(c.r * 0x10000 + c.g * 0x100 + c.b)
  {
    var digits := HexByte(c.r) + HexByte(c.g) + HexByte(c.b);
    assert HexColor(c)[1..] == digits;
    AppendHexByte([], c.r);
    assert [] + HexByte(c.r) == HexByte(c.r);
    AppendHexByte(HexByte(c.r), c.g);
    AppendHexByte(HexByte(c.r) + HexByte(c.g), c.b);
    assert digits[0] == HexDigit(c.r / 16) && digits[1] == HexDigit(c.r % 16);
  }

  /** The decoding of step 2 of `process_image` unpacks a packed colour. */
  lemma DecodePacked(c: Rgb)
    ensures DecodeRgb(-(c.r * 0x10000 + c.g * 0x100 + c.b + 1)) == c
  {
    var v := c.r * 0x10000 + c.g * 0x100 + c.b;
    DivModUnique(v, 0x10000, c.r, c.g * 0x100 + c.b);
    DivModUnique(c.r, 256, 0, c.r);
    DivModUnique(v, 0x100, c.r * 0x100 + c.g, c.b);
    DivModUnique(c.r * 0x100 + c.g, 256, c.r, c.g);
  }

  /**
   * An RGB transparency round-trips: `#RRGGBB` is stored as a negative value,
   * and the decoding of step 2 of `process_image` recovers the three
   * channels exactly.
   */
  lemma HexColorRoundTrip(c: Rgb)
    ensures TranspColorFromStr(HexColor(c)).Some?
    ensures TranspColorFromStr(HexColor(c)) == TranspColorFromStrAsWritten(HexColor(c))
    ensures TranspColorFromStr(HexColor(c)).value < 0
    ensures DecodeRgb(TranspColorFromStr(HexColor(c)).value) == c
  {
    HexDigitsValue(c);
    DecodePacked(c);
  }

  /**
   * A decimal index as written: `k` is stored as `k + 1`, so a sprite takes
   * colour `k + 1` as transparent, or colour 0 when `k` is the last index.
   */
  lemma DecimalIndexAsWritten(k: nat, palette: seq<Entry>)
    ensures TranspColorFromStrAsWritten(DecimalString(k)) == Some(k + 1)
    ensures ResolvedTransparency(k + 1, Sprite, palette) == if k + 1 < |palette| then k + 1 else 0
  {
    DecimalRoundTrip(k);
  }

  /** With the index stored as given, a sprite takes colour `k` as transparent whenever the palette has it. */
  lemma DecimalIndexSelectsIt(k: nat, palette: seq<Entry>)
    requires k < |palette|
    ensures TranspColorFromStr(DecimalString(k)) == Some(k)
    ensures ResolvedTransparency(k, Sprite, palette) == k
  {
    DecimalRoundTrip(k);
  }

  /** `-tr 0` on a two-colour sprite picks colour 1 as written and colour 0 once corrected. */
  lemma TrZeroPicksSecondColor(palette: seq<Entry>)
    requires |palette| == 2
    ensures TranspColorFromStrAsWritten("0") == Some(1)
    ensures ResolvedTransparency(TranspColorFromStrAsWritten("0").value, Sprite, palette) == 1
    ensures TranspColorFromStr("0") == Some(0)
    ensures ResolvedTransparency(TranspColorFromStr("0").value, Sprite, palette) == 0
  {
    assert DecimalString(0) == "0";
    DecimalIndexAsWritten(0, palette);
    DecimalIndexSelectsIt(0, palette);
  }

  // ---------------------------------------------------------------------
  // Single-letter flags
  // ---------------------------------------------------------------------

  /** The on/off options a letter turns on. */
  datatype Flag = Grayscale | CreatePalette | SortPalette | CreateMap | TestCode | TileReduction | Verbose

  /** What a known letter does: select a background or window, select a sprite of a size, or turn a flag on. */
  datatype Letter = TargetOnly(t: Target) | SpriteSize(big: bool) | Switch(flag: Flag)

  /** The letter of each flag. */
  function FlagChar(f: Flag): char
  {
    match f
    case Grayscale => 'g'
    case CreatePalette => 'p'
    case SortPalette => 's'
    case CreateMap => 'm'
    case TestCode => 'c'
    case TileReduction => 'e'
    case Verbose => 'v'
  }

  /** The cases of the `switch` in the letter loop; `None` is the `default` error. */
  function LetterOf(c: char): Option<Letter>
  {
    if c == 'W' then Some(TargetOnly(Window))
    else if c == 'K' then Some(TargetOnly(Bkg))
    else if c == 'S' then Some(SpriteSize(false))
    else if c == 'B' then Some(SpriteSize(true))
    else if c == 'g' then Some(Switch(Grayscale))
    else if c == 'p' then Some(Switch(CreatePalette))
    else if c == 's' then Some(Switch(SortPalette))
    else if c == 'm' then Some(Switch(CreateMap))
    else if c == 'c' then Some(Switch(TestCode))
    else if c == 'e' then Some(Switch(TileReduction))
    else if c == 'v' then Some(Switch(Verbose))
    else None
  }

  /** The current value of a flag. */
  function FlagValue(o: Options, f: Flag): bool
  {
    match f
    case Grayscale => o.grayscale
    case CreatePalette => o.createPalette
    case SortPalette => o.sortPalette
    case CreateMap => o.createMap
    case TestCode => o.testCode
    case TileReduction => o.tileReduction
    case Verbose => o.verbose
  }

  /** The options with one flag turned on. */
  function SetFlag(o: Options, f: Flag): Options
  {
    match f
    case Grayscale => o.(grayscale := true)
    case CreatePalette => o.(createPalette := true)
    case SortPalette => o.(sortPalette := true)
    case CreateMap => o.(createMap := true)
    case TestCode => o.(testCode := true)
    case TileReduction => o.(tileReduction := true)
    case Verbose => o.(verbose := true)
  }

  /** The effect of one known letter. */
  function ApplyLetter(o: Options, l: Letter): Options
  {
    match l
    case TargetOnly(t) => o.(target := t)
    case SpriteSize(b) => o.(target := Sprite, bigSprite := b)
    case Switch(f) => SetFlag(o, f)
  }

  /** The outcome of one argument of single-letter flags. */
  datatype Flags = Applied(opts: Options) | BadLetter(letter: char)

  /** The letters of `s` applied from left to right, stopping at the first unknown letter. */
  function ShortFlags(o: Options, s: string): Flags
    decreases |s|
  {
    if |s| == 0 then Applied(o)
    else
      match LetterOf(s[0])
      case None => BadLetter(s[0])
      case Some(l) => ShortFlags(ApplyLetter(o, l), s[1..])
  }

  /** The loop over the letters of one argument. */
  method ApplyShortFlags(o: Options, s: string) returns (r: Flags)
    ensures r == ShortFlags(o, s)
  {
    var cur := o;
    var n := 0;
    while n < |s|
      invariant 0 <= n <= |s|
      invariant ShortFlags(cur, s[n..]) == ShortFlags(o, s)
    {
      assert s[n..][0] == s[n] && s[n..][1..] == s[n + 1..];
      var l := LetterOf(s[n]);
      if l.None? {
        return BadLetter(s[n]);
      }
      cur := ApplyLetter(cur, l.value);
      n := n + 1;
    }
    return Applied(cur);
  }

  /** An argument of letters fails exactly when it holds an unknown letter, and then it names the first one. */
  lemma {:induction false} ShortFlagsFail(o: Options, s: string)
    ensures ShortFlags(o, s).BadLetter? <==> exists i :: 0 <= i < |s| && LetterOf(s[i]).None?
    ensures ShortFlags(o, s).BadLetter? ==>
      exists i :: 0 <= i < |s| && s[i] == ShortFlags(o, s).letter && LetterOf(s[i]).None? &&
        forall j :: 0 <= j < i ==> LetterOf(s[j]).Some?
    decreases |s|
  {
    if |s| > 0 {
      match LetterOf(s[0])
      case None =>
      case Some(l) =>
        var o1 := ApplyLetter(o, l);
        ShortFlagsFail(o1, s[1..]);
        if exists i :: 0 <= i < |s| && LetterOf(s[i]).None? {
          var i :| 0 <= i < |s| && LetterOf(s[i]).None?;
          assert s[1..][i - 1] == s[i];
        }
        if ShortFlags(o, s).BadLetter? {
          var i :| 0 <= i < |s[1..]| && s[1..][i] == ShortFlags(o1, s[1..]).letter && LetterOf(s[1..][i]).None? &&
            forall j :: 0 <= j < i ==> LetterOf(s[1..][j]).Some?;
          assert s[i + 1] == s[1..][i];
          forall j | 0 <= j < i + 1 ensures LetterOf(s[j]).Some? {
            if j > 0 {
              assert s[j] == s[1..][j - 1];
            }
          }
        }
    }
  }

  /** Letters split over two arguments act as they do in one. */
  lemma {:induction false} ShortFlagsAppend(o: Options, a: string, b: string)
    ensures ShortFlags(o, a + b) ==
      match ShortFlags(o, a)
      case BadLetter(c) => BadLetter(c)
      case Applied(o1) => ShortFlags(o1, b)
    decreases |a|
  {
    if |a| == 0 {
      assert a + b == b;
    } else {
      assert (a + b)[0] == a[0] && (a + b)[1..] == a[1..] + b;
      match LetterOf(a[0])
      case None =>
      case Some(l) => ShortFlagsAppend(ApplyLetter(o, l), a[1..], b);
    }
  }

  /** No letter of `s` selects the target. */
  predicate NoTargetLetter(s: string)
  {
    'W' !in s && 'K' !in s && 'S' !in s && 'B' !in s
  }

  /**
   * `r` is what the letters `s` leave of `o`: each flag is on exactly when
   * it was on or its letter occurs, the numeric options and the name are
   * kept, and without a target letter the target and sprite size are kept.
   */
  predicate SetByLetters(o: Options, r: Options, s: string)
  {
    && (forall f :: FlagValue(r, f) <==> FlagValue(o, f) || FlagChar(f) in s)
    && r.transparent == o.transparent && r.palNumber == o.palNumber
    && r.baseIndex == o.baseIndex && r.name == o.name
    && (NoTargetLetter(s) ==> r.target == o.target && r.bigSprite == o.bigSprite)
  }

  /** Turning a flag on turns it on. */
  lemma SetFlagSets(o: Options, f: Flag)
    ensures FlagValue(SetFlag(o, f), f)
  {
  }

  /** Turning one flag on changes no other flag. */
  lemma SetFlagOthers(o: Options, f: Flag, g: Flag)
    requires g != f
    ensures FlagValue(SetFlag(o, f), g) == FlagValue(o, g)
  {
  }

  lemma SetFlagSwitches(o: Options, f: Flag)
    ensures forall g :: FlagValue(SetFlag(o, f), g) <==> FlagValue(o, g) || g == f
  {
    forall g ensures FlagValue(SetFlag(o, f), g) <==> FlagValue(o, g) || g == f {
      if g == f {
        SetFlagSets(o, f);
      } else {
        SetFlagOthers(o, f, g);
      }
    }
  }

  /** Turning one flag on changes no other option. */
  lemma SetFlagKeeps(o: Options, f: Flag)
    ensures var r := SetFlag(o, f);
      && r.transparent == o.transparent && r.palNumber == o.palNumber
      && r.baseIndex == o.baseIndex && r.name == o.name
      && r.target == o.target && r.bigSprite == o.bigSprite
  {
    match f {
      case Grayscale =>
      case CreatePalette =>
      case SortPalette =>
      case CreateMap =>
      case TestCode =>
      case TileReduction =>
      case Verbose =>
    }
  }

  /** Selecting the target changes no flag. */
  lemma TargetKeepsFlag(o: Options, r: Options, f: Flag)
    requires r == o.(target := r.target, bigSprite := r.bigSprite)
    ensures FlagValue(r, f) == FlagValue(o, f)
  {
  }

  lemma TargetKeepsFlags(o: Options, r: Options)
    requires r == o.(target := r.target, bigSprite := r.bigSprite)
    ensures forall f :: FlagValue(r, f) == FlagValue(o, f)
  {
    forall f ensures FlagValue(r, f) == FlagValue(o, f) {
      TargetKeepsFlag(o, r, f);
    }
  }

  /** Each flag has its own letter, and none of them selects the target. */
  lemma FlagCharFacts(f: Flag, c: char)
    requires LetterOf(c) == Some(Switch(f))
    ensures FlagChar(f) == c
    ensures forall g :: FlagChar(g) == c ==> g == f
    ensures NoTargetLetter([c])
  {
  }

  /** The letters of a target select nothing but the target. */
  lemma TargetCharFacts(c: char)
    requires LetterOf(c).Some? && !LetterOf(c).value.Switch?
    ensures c == 'W' || c == 'K' || c == 'S' || c == 'B'
    ensures forall f :: FlagChar(f) != c
  {
  }

  /** A flag letter does what `SetByLetters` says. */
  lemma SwitchLetterSets(o: Options, c: char, f: Flag)
    requires LetterOf(c) == Some(Switch(f))
    ensures SetByLetters(o, SetFlag(o, f), [c])
  {
    SetFlagSwitches(o, f);
    SetFlagKeeps(o, f);
    FlagCharFacts(f, c);
  }

  /** A target letter does what `SetByLetters` says. */
  lemma TargetLetterSets(o: Options, c: char, l: Letter)
    requires LetterOf(c) == Some(l) && !l.Switch?
    ensures SetByLetters(o, ApplyLetter(o, l), [c])
  {
    TargetKeepsFlags(o, ApplyLetter(o, l));
    TargetCharFacts(c);
  }

  /** One letter does what `SetByLetters` says. */
  lemma ApplyLetterSets(o: Options, c: char)
    requires LetterOf(c).Some?
    ensures SetByLetters(o, ApplyLetter(o, LetterOf(c).value), [c])
  {
    if LetterOf(c).value.Switch? {
      SwitchLetterSets(o, c, LetterOf(c).value.flag);
    } else {
      TargetLetterSets(o, c, LetterOf(c).value);
    }
  }

  lemma SetByLettersCompose(o: Options, m: Options, r: Options, a: string, b: string)
    requires SetByLetters(o, m, a) && SetByLetters(m, r, b)
    ensures SetByLetters(o, r, a + b)
  {
  }

  /** The letters only ever turn flags on, and each flag ends up on exactly when it was on or its letter occurs. */
  lemma {:induction false} ShortFlagsSet(o: Options, s: string)
    requires ShortFlags(o, s).Applied?
    ensures SetByLetters(o, ShortFlags(o, s).opts, s)
    decreases |s|
  {
    if |s| > 0 {
      assert s == [s[0]] + s[1..];
      var o1 := ApplyLetter(o, LetterOf(s[0]).value);
      ApplyLetterSets(o, s[0]);
      ShortFlagsSet(o1, s[1..]);
      SetByLettersCompose(o, o1, ShortFlags(o, s).opts, [s[0]], s[1..]);
    }
  }

  /** The last target letter decides the target, and `S` or `B` the sprite size. */
  lemma LastTargetLetterWins(o: Options, a: string, c: char, b: string)
    requires LetterOf(c).Some? && !LetterOf(c).value.Switch?
    requires NoTargetLetter(b)
    requires ShortFlags(o, a + [c] + b).Applied?
    ensures var r := ShortFlags(o, a + [c] + b).opts;
      match LetterOf(c).value
      case TargetOnly(t) => r.target == t
      case SpriteSize(big) => r.target == Sprite && r.bigSprite == big
      case Switch(_) => true
  {
    ShortFlagsAppend(o, a + [c], b);
    ShortFlagsAppend(o, a, [c]);
    var o1 := ShortFlags(o, a).opts;
    assert [c][1..] == [];
    var o2 := ShortFlags(o1, [c]).opts;
    ShortFlagsSet(o2, b);
  }

  // ---------------------------------------------------------------------
  // The argument loop of main
  // ---------------------------------------------------------------------

  /** The options and the two file names the loop fills. */
  datatype CliState = CliState(opts: Options, infile: string, outfile: string)

  /** The errors the loop raises; each ends the program. */
  datatype CliError =
    | Insufficient(option: string)  // an option that takes a value came last
    | NotANumber(arg: string)       // a value `parse_as_number` refuses
    | Unrecognized(letter: char)    // an unknown flag letter
    | TooManyParameters             // a third file name

  /** Where the command line leads: conversion, the help text, or an error. */
  datatype Outcome = Run(state: CliState) | Help | Fail(error: CliError)

  /** The state before the first argument: the default options and two empty names. */
  function Initial(): CliState
  {
    CliState(ResetOpts(), "", "")
  }

  /** `strncpy` into a 256-byte buffer keeps at most 255 characters. */
  function Take255(s: string): (r: string)
    ensures |r| <= 255 && |r| <= |s| && r == s[..|r|]
    ensures |s| <= 255 ==> r == s
  {
    if |s| <= 255 then s else s[..255]
  }

  /** After the loop: help unless both names were given. */
  function Finish(st: CliState): Outcome
  {
    if |st.infile| == 0 || |st.outfile| == 0 then Help else Run(st)
  }

  /** The loop from argument `a` on (argument 0 here is the first after the program name). */
  function ParseArgs(args: seq<string>, a: nat, st: CliState): Outcome
    decreases |args| - a
  {
    if a >= |args| then Finish(st)
    else
      var p := args[a];
      if |p| > 0 && p[0] == '-' then
        var name := p[1..];
        if name == "base" || name == "pal" || name == "name" || name == "tr" then
          if a + 1 >= |args| then Fail(Insufficient(name))
          else
            var v := args[a + 1];
            if name == "name" then ParseArgs(args, a + 2, st.(opts := st.opts.(name := v)))
            else if name == "tr" then
              match TranspColorFromStr(v)
              case None => Fail(NotANumber(v))
              case Some(t) => ParseArgs(args, a + 2, st.(opts := st.opts.(transparent := t)))
            else
              match ParseNumber(v, 10)
              case None => Fail(NotANumber(v))
              case Some(k) =>
                if name == "base" then ParseArgs(args, a + 2, st.(opts := st.opts.(baseIndex := k % 256)))
                else ParseArgs(args, a + 2, st.(opts := st.opts.(palNumber := k % 256)))
        else
          match ShortFlags(st.opts, name)
          case BadLetter(c) => Fail(Unrecognized(c))
          case Applied(o) => ParseArgs(args, a + 1, st.(opts := o))
      else if |st.infile| == 0 then ParseArgs(args, a + 1, st.(infile := Take255(p)))
      else if |st.outfile| == 0 then ParseArgs(args, a + 1, st.(outfile := Take255(p)))
      else Fail(TooManyParameters)
  }

  /** The loop of `main` over `argv[1..]`. */
  method ParseCommandLine(args: seq<string>) returns (outcome: Outcome)
    ensures outcome == ParseArgs(args, 0, Initial())
  {
    var opts := ResetOpts();
    var infile := "";
    var outfile := "";
    var a := 0;
    while a < |args|
      invariant 0 <= a <= |args|
      invariant ParseArgs(args, a, CliState(opts, infile, outfile)) == ParseArgs(args, 0, Initial())
      decreases |args| - a
    {
      var p := args[a];
      if |p| > 0 && p[0] == '-' {
        var name := p[1..];
        if name == "base" || name == "pal" || name == "name" || name == "tr" {
          if a + 1 >= |args| {
            return Fail(Insufficient(name));
          }
          var v := args[a + 1];
          if name == "name" {
            opts := opts.(name := v);
          } else if name == "tr" {
            var t := TranspColorFromStr(v);
            if t.None? {
              return Fail(NotANumber(v));
            }
            opts := opts.(transparent := t.value);
          } else {
            var k := ParseNumber(v, 10);
            if k.None? {
              return Fail(NotANumber(v));
            }
            if name == "base" {
              opts := opts.(baseIndex := k.value % 256);
            } else {
              opts := opts.(palNumber := k.value % 256);
            }
          }
          a := a + 2;
        } else {
          var r := ApplyShortFlags(opts, name);
          if r.BadLetter? {
            return Fail(Unrecognized(r.letter));
          }
          opts := r.opts;
          a := a + 1;
        }
      } else {
        if |infile| == 0 {
          infile := Take255(p);
        } else if |outfile| == 0 {
          outfile := Take255(p);
        } else {
          return Fail(TooManyParameters);
        }
        a := a + 1;
      }
    }
    return Finish(CliState(opts, infile, outfile));
  }

  /** Conversion starts only with both file names, each at most 255 characters and not empty. */
  lemma {:induction false} RunHasBothFiles(args: seq<string>, a: nat, st: CliState)
    requires |st.infile| <= 255 && |st.outfile| <= 255
    requires ParseArgs(args, a, st).Run?
    ensures var s := ParseArgs(args, a, st).state;
      1 <= |s.infile| <= 255 && 1 <= |s.outfile| <= 255
    decreases |args| - a
  {
    if a < |args| {
      var p := args[a];
      if |p| > 0 && p[0] == '-' {
        var name := p[1..];
        if name == "base" || name == "pal" || name == "name" || name == "tr" {
          var v := args[a + 1];
          if name == "name" {
            RunHasBothFiles(args, a + 2, st.(opts := st.opts.(name := v)));
          } else if name == "tr" {
            RunHasBothFiles(args, a + 2, st.(opts := st.opts.(transparent := TranspColorFromStr(v).value)));
          } else if name == "base" {
            RunHasBothFiles(args, a + 2, st.(opts := st.opts.(baseIndex := ParseNumber(v, 10).value % 256)));
          } else {
            RunHasBothFiles(args, a + 2, st.(opts := st.opts.(palNumber := ParseNumber(v, 10).value % 256)));
          }
        } else {
          RunHasBothFiles(args, a + 1, st.(opts := ShortFlags(st.opts, name).opts));
        }
      } else if |st.infile| == 0 {
        RunHasBothFiles(args, a + 1, st.(infile := Take255(p)));
      } else if |st.outfile| == 0 {
        RunHasBothFiles(args, a + 1, st.(outfile := Take255(p)));
      }
    }
  }

  /** Without arguments, or with only one file name, the help text is shown. */
  lemma FewArgumentsShowHelp(f: string)
    ensures ParseArgs([], 0, Initial()) == Help
    ensures |f| == 0 || f[0] != '-' ==> ParseArgs([f], 0, Initial()) == Help
  {
  }

  /** An option that takes a value fails when it is the last argument. */
  lemma MissingValueFails(args: seq<string>, st: CliState)
    requires |args| > 0 && args[|args| - 1] in ["-base", "-pal", "-name", "-tr"]
    ensures ParseArgs(args, |args| - 1, st) == Fail(Insufficient(args[|args| - 1][1..]))
  {
  }

  /** A third file name is an error. */
  lemma ThirdFileFails(args: seq<string>, a: nat, st: CliState)
    requires a < |args| && (|args[a]| == 0 || args[a][0] != '-')
    requires |st.infile| > 0 && |st.outfile| > 0
    ensures ParseArgs(args, a, st) == Fail(TooManyParameters)
  {
  }

  /**
   * Two file names and nothing else convert with the default options, the
   * first name being the input.
   */
  lemma TwoFilesRunWithDefaults(inf: string, outf: string)
    requires 1 <= |inf| <= 255 && 1 <= |outf| <= 255 && inf[0] != '-' && outf[0] != '-'
    ensures ParseArgs([inf, outf], 0, Initial()) == Run(CliState(ResetOpts(), inf, outf))
  {
    var args := [inf, outf];
    assert ParseArgs(args, 1, CliState(ResetOpts(), inf, "")) == ParseArgs(args, 2, CliState(ResetOpts(), inf, outf));
  }

  lemma ParsesThreeHundred()
    ensures ParseNumber("300", 10) == Some(300)
  {
    DecimalRoundTrip(300);
    assert DecimalString(300) == "300";
  }

  /** A numeric option is stored modulo 256: `-base 300` sets the base index to 44. */
  lemma BaseIndexWraps(inf: string, outf: string)
    requires 1 <= |inf| <= 255 && 1 <= |outf| <= 255 && inf[0] != '-' && outf[0] != '-'
    ensures ParseArgs(["-base", "300", inf, outf], 0, Initial()) ==
      Run(CliState(ResetOpts().(baseIndex := 44), inf, outf))
  {
    var args := ["-base", "300", inf, outf];
    var o := ResetOpts().(baseIndex := 44);
    ParsesThreeHundred();
    assert args[0][1..] == "base";
    assert ParseArgs(args, 0, Initial()) == ParseArgs(args, 2, CliState(o, "", ""));
    assert ParseArgs(args, 3, CliState(o, inf, "")) == ParseArgs(args, 4, CliState(o, inf, outf));
  }
}
