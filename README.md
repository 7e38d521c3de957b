# pngb in Dafny

pngb converts an indexed PNG into Game Boy graphics data. This project models
the converter: the palette with the lightness of every colour, the transparent
colour of a sprite, and the reconciliation of the image palette with the four
Game Boy shades (grayscale collapse, transparent colour to slot 0,
pad-and-place or bubble sort, each exchange of entries paired with the same
exchange in `palette_map`). It also models the picture store (`PICDATA`): its
allocation, 2-bit-per-pixel tile encoding, tile map, 15-bit palette words and
tile reduction. Then come the rasterizer, which unpacks 1/2/4/8-bit pixels into
tiles, the clamps and warnings of `gb_check_warnings`, `sanitize_var_name`,
and the command line of `main`.

Modules, each following one part of the program:

- `Types`: the shade constants, palette entry, options record and target kinds of `src/pngb.h`.
- `Palette`: nearest shade, the paired swaps, `sort_palette` and the packing of a 15-bit colour.
- `Tiles`: the `PicData` class (`PICDATA`), whose methods update the tile bytes, tile map and palette in place, and the tile reducer.
- `Raster`: pixel unpacking and the rasterizer loop of step 5 of `process_image`.
- `Pipeline`: steps 1–5 of `process_image`, on arrays as the C code works, each method proved against a specification predicate.
- `Output`: `gb_check_warnings` and `sanitize_var_name`.
- `Cli`: `reset_opts`, `parse_as_number`, `transp_color_from_str` and the argument loop of `main`.

The PNG decoder is a parameter. The `Image` datatype holds what it returns
with colour conversion off: the raw palette indices. The `Decoded` predicate
states what the model assumes of an indexed input image: a depth of 1, 2, 4
or 8, 1–256 palette colours and the packed pixels. It also assumes that every
pixel is a palette index. Nothing in the converter checks that last part. The lightness of a colour, `color_light_val`, is
the parameter `light`.

## Model

| member | source | states |
|---|---|---|
| Types.TileHeight | src/pngb.c:83-85 | tiles are 16 rows high exactly for 8x16 sprites, 8 otherwise |
| Types.ShadesStrictlyDecreasing | src/pngb.h:44-47 | the four shades, index 0 first, go strictly from light to dark |
| Palette.Nearest | src/pngb.c:140-153 | the index found is a nearest level, and ties go to the lowest index |
| Palette.NearestIsUnique | src/pngb.c:140-153 | only one index has the nearest-with-lowest-tie property, so the selection is determined |
| Palette.MatchLightness | src/pngb.c:140-153 | the linear scan with a strict improvement test returns exactly that nearest index |
| Palette.ShadeIndex | src/pngb.c:160-164 | the shade is one of 0..3 (1..3 for sprites), no allowed shade is nearer, and every earlier allowed shade is strictly farther |
| Palette.IntensityToShades | src/pngb.c:160-164 | returns that shade index, in 1..3 for a sprite |
| Palette.SwapPaletteEntries | src/pngb.c:176-182 | the palette with entries i and j exchanged |
| Palette.SwapPaletteIndexes | src/pngb.c:187-197 | the map with references to a and b exchanged |
| Palette.SwapIndexesInvolution | src/pngb.c:187-197 | exchanging the same two indexes twice gives the map back |
| Palette.SwapIndexesAt | src/pngb.c:187-197 | the effect on one map entry: a becomes b, b becomes a, everything else is kept, and a == b changes nothing |
| Palette.PairedSwapKeepsColors | src/pngb.c:214-218 | exchanging two entries together with their references keeps the colour every source index shows |
| Palette.SwapIndexesKeepsLow | src/pngb.c:211-222 | references below startAt are untouched by exchanges at or above it |
| Palette.ExchangeAdjacent | src/pngb.c:214-218 | one exchange of the pass: entries i-1 and i, and their references, swap places |
| Palette.BubblePass | src/pngb.c:212-221 | after one pass the entries from the new bound newn on are in final order; the entries outside the range, the multiset, every colour shown and the references below startAt are kept |
| Palette.SortPalette | src/pngb.c:203-223 | the range from startAt on is light to dark, the prefix, entries (as a multiset), map range and every colour shown are kept, and references below startAt are unchanged |
| Palette.PackColor | src/pngb.c:298-302 | a 15-bit word holding the top five bits of red (bits 0-4), green (5-9) and blue (10-14) |
| Palette.PackColorInjective | src/pngb.c:298-302 | two colours pack alike exactly when the top five bits of each channel agree |
| Tiles.CeilDiv | src/pngb.c:240-242 | the grid size is rounded up to whole blocks and not beyond |
| Tiles.ColumnMask | src/pngb.c:278-281 | the column mask 0x80 >> x is bit 7 - x |
| Tiles.WritePlaneBits | src/pngb.c:278-281 | a plane write sets the addressed bit and keeps the seven others |
| Tiles.PlanePairPixel | src/pngb.c:278-281 | writing both planes of a row makes the column read back as the colour and keeps the other columns |
| Tiles.WritePixelReadBack | src/pngb.c:272-283 | after a pixel write that pixel reads back as the colour and every other pixel of every tile is unchanged |
| Tiles.CopiedTileAt | src/pngb.c:323-327 | copying a tile changes only the destination tile, which becomes the source tile |
| Tiles.PicData.constructor | src/pngb.c:233-257 | the geometry (cols and rows rounded up, tile height 8 or 16), all tile bytes zero, the identity tile map, total tiles = cols*rows, and a zero palette |
| Tiles.PicData.SetTilePixel | src/pngb.c:272-283 | in range, the pixel becomes the colour and every other pixel is kept; out of range or colour above 3, nothing changes |
| Tiles.PicData.GetTileRow | src/pngb.c:289-293 | the row word decodes to the row's eight pixels; 0 for a tile or row out of range |
| Tiles.PicData.SetPalEntry | src/pngb.c:298-302 | palette slot index becomes the packed colour; an index of 4 or more changes nothing |
| Tiles.PicData.CompareTiles | src/pngb.c:312-318 | "same" exactly for two different in-range tiles with equal bytes |
| Tiles.PicData.CopyTile | src/pngb.c:323-327 | the destination tile becomes a copy of the source tile, and out-of-range arguments change nothing |
| Tiles.PicData.ReplaceInTilemap | src/pngb.c:332-338 | every reference to told becomes tnew, nothing else changes |
| Tiles.PicData.ReplaceByLast | src/pngb.c:354-360 | references to t2 go to t1, the last tile moves into slot t2 with its references, and the count drops by one |
| Tiles.RemoveDuplicate | src/pngb.c:352-360 | removing a duplicate this way keeps the picture shown and the distinctness already established |
| Tiles.PicData.DropTile | src/pngb.c:352-360 | the removal step keeps the reduction invariant: same picture, closed map, earlier tiles distinct |
| Tiles.PicData.RemoveDuplicatesOf | src/pngb.c:350-364 | after the inner loop no later tile equals t1, with the picture unchanged |
| Tiles.PicData.DoTileReduction | src/pngb.c:343-367 | the picture shown is unchanged, the map stays within the remaining tiles, the count does not grow, and the remaining tiles are pairwise different |
| Raster.PixelsPerByte | src/pngb.c:544 | 8 / depth pixels per byte, 1 to 8 |
| Raster.IndexOfPixel | src/pngb.c:549-557 | pixel pix of byte b, read from the shifted byte, is source pixel b*ppb + pix |
| Raster.PixelsOfByte1 | src/pngb.c:556-557 | at depth 1 the pixels are the bits, most significant first |
| Raster.PixelsOfByte2 | src/pngb.c:556-557 | at depth 2 the pixels are the bit pairs, most significant first |
| Raster.PixelsOfByte4 | src/pngb.c:556-557 | at depth 4 the high nibble comes first |
| Raster.PixelsOfByte8 | src/pngb.c:556-557 | at depth 8 the byte is the pixel |
| Raster.CellSource | src/pngb.c:551-555 | every source pixel lands in a cell of the grid, and that cell shows that pixel |
| Raster.SourceCell | src/pngb.c:551-555 | a cell that shows a source pixel is the cell that pixel is drawn into, so no two pixels share a cell |
| Raster.SourceColor | src/pngb.c:556 | a colour below 4: the mapped index, or 0 where set_tile_pixel ignores it |
| Raster.DrawnStep | src/pngb.c:556 | drawing one more pixel changes its own cell only |
| Raster.PixelLands | src/pngb.c:548-559 | once k is drawn, its cell shows its colour |
| Raster.DrawnSaturates | src/pngb.c:548-559 | drawing past the last source pixel changes nothing |
| Raster.ByteCount | src/pngb.c:545 | the least byte count that holds all w*h pixels |
| Raster.ByteCountDrawsAll | src/pngb.c:545-559 | with that count every source pixel shows in its cell in its colour |
| Raster.AsWrittenDropsLastPixels | src/pngb.c:545 | on a 3x3 1-bit image the rounded-down count reads one byte, and pixel (2,2) stays 0 instead of 1 |
| Raster.DrawPixel | src/pngb.c:551-556 | after drawing source pixel k the picture is that of pixels 0..k |
| Raster.DrawByte | src/pngb.c:549-558 | after one byte the picture is that of its ppb pixels more |
| Raster.Rasterize | src/pngb.c:548-559 | on blank tiles every cell shows the colour of its source pixel among the first tBytes*ppb, and 0 otherwise |
| Pipeline.InitPalette | src/pngb.c:426-434 | the palette is the image colours with their lightness, and the map is 1:1 |
| Pipeline.FirstMatch | src/pngb.c:112-121 | the first searched entry of that colour, or -1 exactly when the searched entries have none |
| Pipeline.FindPaletteColor | src/pngb.c:112-121 | the scan returns that first match |
| Pipeline.ResolvedTransparency | src/pngb.c:438-450 | only sprites change the value; an index in range is kept, one past the end becomes 0, an RGB colour becomes the first entry of that colour, and a missing colour becomes 0 |
| Pipeline.ResolveTransparency | src/pngb.c:438-450 | the transparency step computes that value |
| Pipeline.AsWrittenMissesColorIn256 | src/pngb.c:112 | with 256 colours the BYTE count searches nothing, so a colour at index 5 is missed and the value becomes 0 |
| Pipeline.GrayMapFacts | src/pngb.c:462-470 | every colour refers to a shade, exactly the sprite's transparent colour refers to 0, and every other colour to a nearest allowed shade of its lightness |
| Pipeline.GrayscaleMap | src/pngb.c:462-470 | the grayscale loop builds that map |
| Pipeline.CreateGrayPalette | src/pngb.c:126-134 | the fixed four-shade gray palette |
| Pipeline.GrayPaletteShades | src/pngb.c:126-134 | the gray palette's entries are gray, are the shades, and go strictly from light to dark |
| Pipeline.Padded | src/pngb.c:493-496 | four entries: the palette, then black padding |
| Pipeline.PadPalette | src/pngb.c:493-496 | the array grown to four with black entries |
| Pipeline.PlaceKeepsColors | src/pngb.c:500-505 | placement keeps every colour shown and the entries as a multiset |
| Pipeline.PlaceKeepsSlotZero | src/pngb.c:500-505 | for sprites, slot 0 and references to it stay put |
| Pipeline.PlaceNeedNotSort | src/pngb.c:500-505 | an example in which placement leaves a darker colour ahead of a lighter one |
| Pipeline.PlaceOne | src/pngb.c:502-504 | one round: entry c swaps places, with its references, with the slot of its shade |
| Pipeline.PlaceEntries | src/pngb.c:500-505 | the placement loop computes Place |
| Pipeline.PadAndPlace | src/pngb.c:491-505 | pad and placement together compute Place of the padded palette |
| Pipeline.SpriteFirstFacts | src/pngb.c:482-486 | moving the transparent colour first keeps every colour shown and the entries, puts its entry in slot 0 and its reference at 0 |
| Pipeline.MoveTransparentFirst | src/pngb.c:482-486 | the exchange of step 3 for sprites; baseColor is 1 for a sprite, 0 otherwise |
| Pipeline.PlaceSmallPalette | src/pngb.c:491-506 | the pad-and-place branch keeps the colours shown, the entries plus padding, and references below baseColor |
| Pipeline.PaddedPlaceFacts | src/pngb.c:491-506 | the same facts stated about the padded palette |
| Pipeline.SortFullPalette | src/pngb.c:511 | a full palette is sorted light to dark past baseColor, with colours, entries and low references kept |
| Pipeline.SmallSortHolds | src/pngb.c:482-506 | a small sorted palette has four entries, holds the colours plus padding, and keeps the sprite's reference at 0 |
| Pipeline.SmallSortReconciled | src/pngb.c:482-506 | the small-palette sort branch meets the colour specification |
| Pipeline.FullSortReconciled | src/pngb.c:482-486 | the full-palette sort branch meets the colour specification |
| Pipeline.UnsortedReconciled | src/pngb.c:482-486 | without sorting, the transparent-first palette meets the colour specification |
| Pipeline.ReconcileSmall | src/pngb.c:491-506 | the small sort branch on arrays |
| Pipeline.ReconcileFull | src/pngb.c:510-512 | the full sort branch on arrays |
| Pipeline.ColorReconcile | src/pngb.c:475-518 | the non-grayscale branch: every colour shown, entries kept plus padding, transparent colour at 0, the palette unchanged but for that swap unless sorting, and sorted or placed when sorting |
| Pipeline.ColorIsReconciled | src/pngb.c:475-518 | the colour specification implies the step-3 specification |
| Pipeline.GrayIsReconciled | src/pngb.c:459-474 | the gray palette with the nearest-shade map meets the step-3 specification |
| Pipeline.GrayReconcile | src/pngb.c:459-474 | the grayscale branch on arrays |
| Pipeline.Reconcile | src/pngb.c:459-518 | step 3: at most four final entries; the map stays within them and sends a sprite's transparent colour to 0; the gray palette and nearest-shade map in grayscale mode; otherwise every colour shown, entries kept plus padding, and the sort or placement case |
| Pipeline.ZeroTilesBlank | src/pngb.c:247-248 | zeroed tile bytes make every pixel 0 |
| Pipeline.IdentityMapShowsTiles | src/pngb.c:254 | with the 1:1 tile map the picture shows the drawn tiles |
| Pipeline.PictureShowsSource | src/pngb.c:548-559 | in a finished picture every source pixel shows in its cell in its mapped colour |
| Pipeline.PalWords | src/pngb.c:528-538 | the four palette words: the first count entries packed, the rest 0 |
| Pipeline.PackPalette | src/pngb.c:528-538 | the palette loop stores those words |
| Pipeline.BuildPicture | src/pngb.c:525-564 | the picture has the image geometry, its palette words if asked (else zeros), every source pixel's colour in its cell, and distinct tiles after reduction or cols*rows tiles with the 1:1 map without it |
| Pipeline.SettlePalette | src/pngb.c:426-518 | steps 2-3: the resolved transparency, in range for a sprite, and a reconciled palette and map |
| Pipeline.ProcessIndexed | src/pngb.c:414-564 | an indexed image is resolved, reconciled and built |
| Pipeline.ProcessImage | src/pngb.c:408-564 | a non-indexed image is an error, as is one of more than 4 colours without grayscale; otherwise the picture is built and the options carry the resolved transparency |
| Output.CheckWarningsFacts | src/pngb.c:588-606 | after the clamps: palette number at most 7 (an allowed value kept), base index rounded down to even exactly when big_sprite is set (also after a later -K or -W), test code implies map output, sorting implies palette output, nothing else changed |
| Output.CheckWarningsIdempotent | src/pngb.c:588-606 | clamping twice gives the same as clamping once |
| Output.AsWrittenAgreesElsewhere | src/pngb.c:588-606 | the code as written agrees on the first three clamps, and its last one turns on map output and leaves palette output as it was |
| Output.SortWithoutPaletteOutput | src/pngb.c:603-606 | sorting without palette output announces palette output, yet turns on only the map |
| Output.AdjustmentNoticesAre | src/pngb.c:588-606 | each adjustment notice is printed exactly when its condition holds |
| Output.AdjustmentNoticesMatch | src/pngb.c:588-606 | an adjustment notice appears exactly when the clamp changes its field, and there are no limit notices among them |
| Output.LimitNoticesFacts | src/pngb.c:608-618 | the tile, map-size, frame and sprite-size warnings, each exactly under its condition and for its target |
| Output.LimitNoticesNeedTestCode | src/pngb.c:583-619 | limit warnings appear only with test code, and then use the base index after rounding |
| Output.SanitizeVarName | src/pngb.c:69-73 | the buffer becomes the sanitized name |
| Output.SanitizedIsIdentifier | src/pngb.c:69-73 | the first len characters form a C identifier, later characters are untouched, and allowed characters are kept |
| Output.SanitizedIdempotent | src/pngb.c:69-73 | sanitizing twice gives the same as sanitizing once |
| Output.SanitizedKeepsIdentifiers | src/pngb.c:69-73 | a name that is already an identifier with a letter first is unchanged |
| Cli.ResetOptsNeedNoAdjustment | src/main.c:37-43 | the defaults pass the clamps unchanged, with no notices and 8-pixel tiles |
| Cli.DigitValue | src/main.c:48-53 | a digit value below 16 exactly for digit characters, -1 otherwise |
| Cli.ParseRejectsTrailing | src/main.c:48-53 | a string ending in a non-digit is refused |
| Cli.DecimalRoundTrip | src/main.c:48-53 | parsing the decimal notation of n gives n |
| Cli.AppendHexByte | src/main.c:48-53 | two more hex digits multiply the value by 256 and add the byte |
| Cli.HexDigitsValue | src/main.c:70 | the six digits of #RRGGBB parse as 0xRRGGBB |
| Cli.DecodePacked | src/pngb.c:439-441 | step 2's decoding of a negative transparency gives the colour back |
| Cli.HexColorRoundTrip | src/main.c:66-73 | #RRGGBB is stored negative and decodes to that colour |
| Cli.DecimalIndexAsWritten | src/main.c:72 | a decimal index k is stored as k+1, so a sprite picks colour k+1 (or 0 past the end) |
| Cli.DecimalIndexSelectsIt | src/main.c:66-73 | stored as given, index k selects colour k |
| Cli.TrZeroPicksSecondColor | src/main.c:72 | -tr 0 on two colours picks colour 1 as written and colour 0 once corrected |
| Cli.ApplyShortFlags | src/main.c:193-233 | the letter loop computes ShortFlags |
| Cli.ShortFlagsFail | src/main.c:230-231 | the letters fail exactly when one is unknown, and then the error names the first unknown one |
| Cli.ShortFlagsAppend | src/main.c:193-233 | letters split over two arguments act as they do in one |
| Cli.SetFlagSwitches | src/main.c:209-229 | a flag letter turns its flag on and leaves every other flag as it was |
| Cli.SetFlagKeeps | src/main.c:209-229 | a flag letter changes no other option |
| Cli.TargetKeepsFlags | src/main.c:195-208 | a target letter changes no flag |
| Cli.FlagCharFacts | src/main.c:209-229 | each flag has its own letter, and none of them selects the target |
| Cli.ApplyLetterSets | src/main.c:194-232 | one letter does what SetByLetters says |
| Cli.SetByLettersCompose | src/main.c:193-233 | the effect of letters composes over concatenation |
| Cli.ShortFlagsSet | src/main.c:193-233 | letters only turn flags on: each flag ends on exactly when it was on or its letter occurs; numbers and name are kept |
| Cli.LastTargetLetterWins | src/main.c:195-208 | the last of W, K, S, B decides the target, and S or B the sprite size |
| Cli.Take255 | src/main.c:238-242 | at most 255 characters, a prefix, the whole name when it fits |
| Cli.ParseCommandLine | src/main.c:165-251 | the argument loop computes ParseArgs from the default options |
| Cli.RunHasBothFiles | src/main.c:236-251 | conversion starts only with both file names, each 1 to 255 characters |
| Cli.FewArgumentsShowHelp | src/main.c:248-251 | no arguments, or one file name only, shows help |
| Cli.MissingValueFails | src/main.c:59-61 | an option needing a value fails when it comes last, naming the option |
| Cli.ThirdFileFails | src/main.c:243-244 | a third file name is an error |
| Cli.TwoFilesRunWithDefaults | src/main.c:165-251 | two file names run with the defaults of reset_opts |
| Cli.BaseIndexWraps | src/main.c:173-176 | -base 300 stores 44, the value modulo 256 |

## Left out

- PNG loading and decoding (`lodepng_load_file`, `lodepng_decode`) and its error exit are not modelled. The decoder's result is the `Image` value, and what the model assumes of it is in `Decoded`.
- An image whose pixel values reach past its palette is excluded by `Decoded`. The source does not check for this case. It reads past `palette_map` (`malloc(tColors)`, src/pngb.c:423) at src/pngb.c:556. `Raster.SourceColor`, `Raster.Rasterize`, `Pipeline.BuildPicture` and `Pipeline.PictureShowsSource` hold under this assumption.
- The base-index clamp: as in the code, the base index is rounded to even whenever big_sprite is set, even when a later `-K` or `-W` makes the target a background or window with 8-row tiles. The model keeps this behaviour and does not flag it.
- Cli.Take255 and Output.Sanitized (and the `name` field of `Options`): C strings are byte buffers, and the model treats them as Dafny strings of characters. Lengths count characters, not bytes. For example, `strncpy` keeps 255 bytes, and a two-byte UTF-8 letter becomes two `_` characters in the source but one in the model. The name is the string given, not the 256-byte buffer. The tail of that buffer is not kept, so `-name ""` is not modelled: the source keeps `"\0bpic"` in the buffer and sanitises it to `_bpic`.
- `color_light_val` computes with floating point. It is the parameter `light`.
- `verbose` and `printf` output are not modelled. The messages of `gb_check_warnings` are the `Notice` list. The informational output of `process_image` is not modelled.
- `error()` ends the program. It is modelled as an `Err` result or a `Fail` outcome.
- Code output and file handling are outside the named core and are not modelled: the output file, `gbdk_c_code_output`, `code_disclaimer_c`, `target_to_string`, `transp_to_string`, the `print_help` text and `free_gb_pict`.
- Memory allocation is not modelled. `malloc` and `realloc` give fresh arrays, and a failed allocation is not modelled.
- `allocate_gb_pict` leaves `pal` uninitialised. The model takes it as zero.
- Cli.ParseNumber: `strtol` details are not modelled: leading white space, overflow clamping to the `long` range, and the message text. A value is then stored into a `BYTE` field, and the model writes that truncation as `% 256`.
- Cli.ParseCommandLine: `strcpy` of `-name` into the 256-byte name field may overflow. The model stores the whole string. `argv[0]` is not among `args`.
- Pipeline.Reconcile: as in the code, a palette of fewer than four colours is placed by shade, not sorted. The contract promises the placement, not light-to-dark order; `PlaceNeedNotSort` shows an example in which the result is out of order.
- Pipeline.ColorReconcile: when neither grayscale nor sorting is asked for, the final palette keeps its own length (1 to 4 entries), as the code does. It is not always four entries.
- Concurrency and the global `globalOpts` are not modelled. Options travel as values.

## Findings

| source | as written | input that shows it | evidently intended | confidence | as-written member | corrected member |
|---|---|---|---|---|---|---|
| src/main.c:72 | a decimal `-tr k` is stored as `1 + k`, but step 2 at src/pngb.c:446-449 reads a non-negative value directly as the palette index | `-tr 0` on a 2-colour sprite selects colour 1; `-tr 1` selects colour 0 | index `k` selects colour `k` | not executed | Cli.TrZeroPicksSecondColor | Cli.DecimalIndexSelectsIt |
| src/pngb.c:545 | `tBytes = width*height/ppb` rounds down, so the pixels of a partial last byte are never drawn | a 3x3 image at depth 1 (9 pixels in 2 bytes) reads 1 byte, and pixel (2,2) stays 0 | read every byte that holds a pixel (rounded up) and skip the padding bits past `w*h` | not executed | Raster.AsWrittenDropsLastPixels | Raster.ByteCountDrawsAll |
| src/pngb.c:605 | the notice promises palette output for sorting, but the line sets `create_map` | options `-s` without `-p`, `-m` or `-c`: map output turns on and palette output stays off | set `create_palette` | not executed | Output.SortWithoutPaletteOutput | Output.CheckWarningsFacts |
| src/pngb.c:112 | `find_palette_color` takes the colour count as a `BYTE` (called at src/pngb.c:441), so a count of 256 becomes 0 | a 256-colour grayscale sprite with `-tr #010203`, the colour at index 5: no entry is searched and the transparent colour becomes 0 | search all 256 entries | not executed | Pipeline.AsWrittenMissesColorIn256 | Pipeline.ResolveTransparency |

The rest of the model uses the corrected behaviour.

- `Cli.ParseArgs` stores `-tr` through `Cli.TranspColorFromStr`. `Cli.TranspColorFromStrAsWritten` is the code as written.
- `Pipeline.BuildPicture` reads `Raster.ByteCount` bytes, rounded up. `Raster.ByteCountAsWritten` is the count as written. `Raster.DrawPixel` skips the padding bits past the last pixel.
- `Output.CheckWarnings` is the corrected clamp. `Output.CheckWarningsAsWritten` is the code as written.
- `Pipeline.ResolvedTransparency` searches the whole palette. `Pipeline.ResolvedTransparencyAsWritten` is the code as written.
