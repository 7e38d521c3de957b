// Data model shared by the converter: the shade constants, the palette entry,
// the option record and the target kinds (the declarations of src/pngb.h).
module Types {

  /** An unsigned 8-bit value (`BYTE`). */
  type Byte = x: int | 0 <= x < 256

  /** The four Game Boy shades, lightest first. */
  const WHITE_VAL: Byte := 255
  const LIGHTGRAY_VAL: Byte := 172
  const DARKGRAY_VAL: Byte := 82
  const BLACK_VAL: Byte := 0

  /** The shade values indexed by target colour: index 0 is the lightest. */
  const Shades: seq<Byte> := [WHITE_VAL, LIGHTGRAY_VAL, DARKGRAY_VAL, BLACK_VAL]

  /** A palette colour together with its lightness `L`. */
  datatype Entry = Entry(r: Byte, g: Byte, b: Byte, L: Byte)

  /** An RGB triple as it comes from the decoded image palette. */
  datatype Rgb = Rgb(r: Byte, g: Byte, b: Byte)

  /** The opaque black used to pad a palette (an all-zero entry). */
  const PadEntry: Entry := Entry(0, 0, 0, 0)

  datatype Target = Bkg | Sprite | Window

  /**
   * The converter's options. The C flags are `int`s only ever set to 0 or 1,
   * so they are booleans here; `palNumber` and `baseIndex` are bytes.
   * `transparent` is the signed transparency encoding: a non-negative value
   * refers to a palette index, a negative one holds `-(rgb + 1)`.
   */
  datatype Options = Options(
    target: Target,
    transparent: int,
    grayscale: bool,
    createPalette: bool,
    sortPalette: bool,
    createMap: bool,
    palNumber: Byte,
    bigSprite: bool,
    testCode: bool,
    tileReduction: bool,
    baseIndex: Byte,
    verbose: bool,
    name: string)

  /** The height of a tile: 16 only for 8x16 sprites (`is8x16Mode`). */
  function TileHeight(opts: Options): (h: nat)
    ensures h == 8 || h == 16
    ensures h == 16 <==> opts.bigSprite && opts.target == Sprite
  {
    if opts.bigSprite && opts.target == Sprite then 16 else 8
  }

  datatype Option<T> = None | Some(value: T)

  datatype Result<T> = Ok(value: T) | Err(error: string)

  lemma ShadesStrictlyDecreasing()
    ensures |Shades| == 4
    ensures forall i, j :: 0 <= i < j < 4 ==> Shades[i] > Shades[j]
  {
  }
}
