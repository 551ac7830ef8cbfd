# ascii_image: brightness-to-glyph pipeline

This is a Dafny model of the core of `ascii_image`, a small Rust command-line tool that turns a raster image into ASCII art drawn as a bitmap.

The tool works in four steps:

1. It checks the `--width` and `--contrast` arguments.
2. It builds a density ramp: the palette literal is reversed, then truncated to `len - 11 + contrast` characters.
3. For each cell `(x, y)` of the resized image, it turns the cell's brightness `b` into the ramp character at index `n - 1 - floor(b / 256 * n)`. When that index does not exist, it uses `' '`.
4. It draws that character's glyph from a packed 8x16, 1-bit font into the 8x16 block at `(x*8, y*16)` of a `width*8 x height*16` RGB canvas. A clear bit is painted white. A set bit is painted black in grayscale mode. In colour mode a set bit takes the cell's colour, unless that colour is black, in which case the glyph is drawn monochrome.

The project has two modules, one per source file:

- `ascii.dfy`, module `Ascii`, models src/ascii/mod.rs.
  - The quantisation on lines 26-27 is a set of pure functions (`Level`, `RampIndex`, `Select`).
  - `draw_character` is the method `DrawCharacter`, with nested loops over an `array2<Rgb>`.
  - The cell loop of `ascii_image` is the method `AsciiImage`. It allocates the canvas and fills it. It is proved against the specification function `CanvasPixel`.
- `main.dfy`, module `Cli`, models src/main.rs.
  - `CheckArgs` models the argument checks. Clap parses the arguments as `u32`, and the code then casts them with `as i32`.
  - `BuildDensity` builds the ramp with the same reassignments as the source: reverse, then truncate, then measure again. It is proved equal to the direct definition `RampOf`.
  - `Run` models `main`: it checks the arguments, builds the ramp and dispatches to the grayscale or the colour pipeline.

Integer arithmetic is exact throughout:

- The `f64` expression on src/ascii/mod.rs:26 is modelled as `b * n / 256`. This is exact because `b / 256` is a dyadic fraction and its product with an `i32` stays far below 2^53.
- For `n <= 0` the saturating `as usize` cast gives 0.
- A negative `i32` index passed through `as usize` wraps to a huge value, so the lookup misses. The model counts that as out of range.
- `(n - 11 + contrast) as usize` on a negative value also wraps, so `String::truncate` does nothing.

The font is the unseen file `simple-8x16.font`. It is a parameter: an arbitrary `seq<bv8>`.

Facts about the code worth stating outright:

- The palette literal on src/main.rs:46 has 80 characters: 68 glyphs followed by 12 spaces, all of them ASCII. With a valid contrast the ramp therefore has `69 + contrast` characters, from 59 to 79 (`PaletteRampLength`).
- After reversal, index 0 holds the trailing spaces. The brightest pixels select it (`RampEndpoints`). Truncation drops the `$@B…` start of the literal, which is the darkest end (`RampIsPrefix`).
- A glyph code outside the font is not replaced by a blank glyph: `font[index + y]` on src/ascii/mod.rs:63 panics. `DrawCharacter` therefore requires the glyph to be inside the font.
- The colour brightness on src/ascii/mod.rs:111 truncates with `as u8`; it does not round. The model takes that closure as a parameter.

## Model

| member | source | states |
|---|---|---|
| Ascii.Select | src/ascii/mod.rs:26-27 | the character is `' '` or a ramp character; on a ramp of `n >= 1` characters it is `density[n - 1 - b*n/256]`, so the fallback never fires; with `n <= 0` it is `' '` |
| Ascii.LevelBounds | src/ascii/mod.rs:26 | for `n >= 1` and any brightness 0..255, `k = floor(b*n/256)` lies in `[0, n-1]` |
| Ascii.FallbackOnlyWhenEmpty | src/ascii/mod.rs:26-27 | on a ramp of `n` characters the `' '` fallback fires if and only if the ramp is empty; otherwise the index lies in `[0, n-1]` |
| Ascii.RampIndexAntitone | src/ascii/mod.rs:26-27 | if `b1 <= b2` then `index(b2) <= index(b1)`: brighter pixels pick earlier ramp characters |
| Ascii.RampEndpoints | src/ascii/mod.rs:26-27 | brightness 0 selects index `n-1`; brightness 255 selects index 0 if and only if `n <= 256` |
| Ascii.InkIsMsbFirst | src/ascii/mod.rs:63 | with 8-pixel rows, column `col` is ink exactly when binary digit `7-col` of the row byte is 1 (most significant bit leftmost) |
| Ascii.PaintRule | src/ascii/mod.rs:64-68 | a clear bit is white in both modes; a set bit is `color` when colored and black otherwise; with `color` black the mode makes no difference |
| Ascii.DrawCharacter | src/ascii/mod.rs:49-72 | pixel `(xo+x, yo+y)` of the block gets the glyph bit `font[code*fh + y] & (1 << (fw-1-x))` painted by the colour rule; every pixel outside the block is unchanged; it requires what avoids a panic (shift below 8, font index, `put_pixel` bounds) |
| Ascii.CellOfPixel | src/ascii/mod.rs:22-41 | a pixel lies in the 8x16 block of cell `(x, y)` if and only if `(x, y) == (px/8, py/16)`: the blocks are disjoint and cover the canvas |
| Ascii.CanvasPixelDependsOnCell | src/ascii/mod.rs:24-41 | two images whose samples agree at cell `(px/8, py/16)` give the same canvas pixel `(px, py)` |
| Ascii.AsciiImage | src/ascii/mod.rs:17-43 | returns a new canvas of `width*8 x height*16`; every pixel is glyph pixel `(px%8, py%16)` of the character chosen for cell `(px/8, py/16)`, drawn monochrome exactly when the cell colour is black |
| Ascii.GrayscaleIsMonochrome | src/ascii/mod.rs:89 | with the grayscale sampler (colour fixed to black) every canvas pixel is black or white |
| Ascii.BlackCellIsMonochrome | src/ascii/mod.rs:39 | derived from `PaintRule`: a black cell colour draws the same glyph pixels whether or not `colored` is set |
| Ascii.CellChar | src/ascii/mod.rs:24-27 | the character of cell `(x, y)`: the pixel at `(x, y)` goes through `process_pixel` and the ramp lookup with its fallback, so it is `' '` or a ramp character |
| Ascii.Level | src/ascii/mod.rs:26 | for `n >= 1`, `k` is the floor of `b*n/256` (`k*256 <= b*n < (k+1)*256`); for `n <= 0` the saturating cast gives 0; `LevelBounds` bounds it by `n-1` |
| Ascii.RampIndex | src/ascii/mod.rs:27 | for `n >= 1` the index `n-1-k` lies in `[0, n-1]`; `RampIndexAntitone` and `RampEndpoints` give its order and endpoints |
| Ascii.FallsBack | src/ascii/mod.rs:27 | the `nth` lookup misses (the `unwrap_or(' ')` case); `FallbackOnlyWhenEmpty` shows this happens on an `n`-character ramp exactly when it is empty |
| Ascii.Ink | src/ascii/mod.rs:63 | the glyph bit that column `col` shows; `InkIsMsbFirst` ties it to binary digit `7-col` of the row byte |
| Ascii.Paint | src/ascii/mod.rs:64-68 | the colour of one glyph pixel; `PaintRule` states the white background, the ink colour in each mode, and that a black colour makes the mode irrelevant |
| Ascii.GlyphPixel | src/ascii/mod.rs:60-68 | pixel `(col, row)` of glyph `code`, read from font byte `code*fh + row`; `DrawCharacter` is proved to write exactly these values |
| Ascii.GraySample | src/ascii/mod.rs:89 | the grayscale sampler: luma as brightness, black as the colour; `GrayscaleIsMonochrome` shows its canvas is only black and white |
| Ascii.ColorSample | src/ascii/mod.rs:109-113 | the colour sampler with its brightness weighting abstracted: the pixel itself is the cell colour |
| Ascii.CanvasPixel | src/ascii/mod.rs:22-41 | the closed form of the finished canvas that `AsciiImage` is proved against; `CellOfPixel` and `CanvasPixelDependsOnCell` state its cell structure |
| Cli.AsI32 | src/main.rs:33 | the `u32 as i32` cast yields the unique `i32` congruent to the argument modulo 2^32 |
| Cli.AsUsize | src/main.rs:50 | the `i32 as usize` cast yields the unique value below 2^64 congruent to the argument modulo 2^64 |
| Cli.CheckArgs | src/main.rs:39-43 | processing goes on if and only if the file exists, the `u32` width is in 10..1000 and the `u32` contrast reads as an `i32` in -10..10; the checks fail in source order: missing file first, then width, then contrast |
| Cli.Reverse | src/main.rs:47 | reversal keeps the length |
| Cli.ReverseAt | src/main.rs:47 | after reversal, `density[i] == palette[len-1-i]` |
| Cli.Truncate | src/main.rs:50 | on an ASCII string, where bytes are characters, `String::truncate` keeps the first `min(new_len, len)` characters: a prefix of the input |
| Cli.RampLength | src/main.rs:49-51 | the ramp is never longer than the palette |
| Cli.BuildDensity | src/main.rs:46-51 | on an ASCII palette (where bytes are characters), reversing and then truncating produces exactly the direct definition `RampOf`: position `i` holds `palette[len-1-i]`, and the length is `len - 11 + contrast` when that truncates and `len` otherwise; `n` is that length |
| Cli.RampIsPrefix | src/main.rs:47-50 | the ramp is a prefix of the reversed palette; the dropped tail is the reversal of the literal's start |
| Cli.RampEmptyIff | src/main.rs:49-51 | the ramp is empty if and only if the palette is empty or `len - 11 + contrast == 0` |
| Cli.PaletteRampLength | src/main.rs:46-51 | for the 80-character literal and a valid contrast, `n == 69 + contrast`, so `1 <= n < 80` |
| Cli.PaletteIsAscii | src/main.rs:46 | every palette character is ASCII, so `len()` in bytes equals the character count |
| Cli.RampRenderable | src/ascii/mod.rs:27 | with the palette ramp every drawn character is a palette character or `' '`, so a font holding those glyphs never panics |
| Cli.Run | src/main.rs:32-64 | the result is `CheckArgs` of the arguments; when accepted, the canvas is new and `width*8 x height*16`, and it equals the grayscale pipeline's canvas without `--color` and the colour pipeline's with it, both on the same ramp and `n` |

## Left out

- Image decoding, Lanczos resizing and saving `grayscale.png`, `colored.png` and `ascii_art.png` (src/ascii/mod.rs:45, 77-82, 97-102) are file I/O done by the `image` crate. `AsciiImage` returns the canvas instead of saving it, and `Run` receives the resized images as parameters.
- `get_height` (src/image_utils/mod.rs) computes a floating-point ratio that is not exact. Its result is the `height` parameter of `Run`.
- The colour brightness closure (src/ascii/mod.rs:109-113) uses `f32` weights and a truncating cast. It is the abstract parameter `colorLuma`; `ColorSample` keeps the rest of that closure.
- The contents of `simple-8x16.font` are not shown, so the font is an arbitrary byte sequence. For the same reason the unit test `test_draw_character_bw`, which depends on those contents, is not modelled, and neither is the `get_height` test.
- Clap parsing, `fs::metadata`, `open::that` and the `--open` flag are I/O. `fs::metadata` becomes the parameter `fileExists`; the `open` field of `Args` is carried but has no effect. Because clap parses `--contrast` as `u32`, a negative contrast can only arrive as a large `u32` (`4294967286` reads as -10).
- Printing and the process-level tests in tests/integration.rs are output and external processes.
- Allocation failure of `RgbImage::new` for huge sizes is not modelled. `CanvasFits` only excludes the integer overflows.
- DrawCharacter: its requirement `fw <= 8` matches a debug build, where a `u8` shift of 8 or more panics. A release build masks the shift amount instead; that behaviour is not modelled.
- Truncate: counts characters, while Rust's `String::truncate` counts bytes and panics when `new_len` is not on a character boundary. The two agree on ASCII strings, and `BuildDensity` only truncates an ASCII palette (`PaletteIsAscii`).
- Run: requires the font to hold the glyph of every palette character and of `' '`. The source only reads the glyphs that are actually selected, so this is slightly stronger than what the source needs. `AsciiImage` states the exact requirement (`Renderable`).
