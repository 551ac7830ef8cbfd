/** Model of src/ascii/mod.rs: choosing a ramp character for a brightness,
    rasterising one glyph of the packed 8x16 font into an RGB canvas, and the
    cell loop of `ascii_image` that fills the whole canvas. */
module Ascii {

  /** An 8-bit channel value (`u8`). */
  type Byte = x: int | 0 <= x < 256

  /** One pixel of an `RgbImage`. */
  datatype Rgb = Rgb(r: Byte, g: Byte, b: Byte)

  const Black := Rgb(0, 0, 0)
  const White := Rgb(255, 255, 255)

  /** Glyph cell size that `ascii_image` passes to `draw_character`. */
  const FontWidth := 8
  const FontHeight := 16

  const I32Min := -0x8000_0000
  const I32Max := 0x7fff_ffff
  const U32Max := 0xffff_ffff

  /** What the `process_pixel` closure returns for one source pixel. */
  datatype Sample = Sample(brightness: Byte, color: Rgb)

  // ---------------------------------------------------------------------
  // Brightness to ramp character (src/ascii/mod.rs:26-27)
  // ---------------------------------------------------------------------

  /** `(brightness as f64 / 256.0 * n as f64).floor() as usize`. The floating
      computation is exact here (a dyadic fraction times an i32), so it is the
      integer quotient; for n <= 0 the floor is not positive and the saturating
      cast to usize yields 0. */
  function Level(b: Byte, n: int): (k: nat)
    ensures n >= 1 ==> k * 256 <= b * n < (k + 1) * 256
    ensures n <= 0 ==> k == 0
  {
    if n <= 0 then 0 else b * n / 256
  }

  /** The ramp index `n - 1 - k` looked up by `chars().nth`. */
  function RampIndex(b: Byte, n: int): (i: int)
    ensures n >= 1 ==> 0 <= i < n
  {
    n - 1 - Level(b, n)
  }

  /** The lookup misses: a negative i32 index becomes a huge usize, and an index
      at or beyond the character count is also `None`. */
  predicate FallsBack(density: string, n: int, b: Byte)
  {
    !(0 <= RampIndex(b, n) < |density|)
  }

  /** `density.chars().nth((n - 1 - k as i32) as usize).unwrap_or(' ')`;
      the requires rules out the i32 overflow of `n - 1`. */
  function Select(density: string, n: int, b: Byte): (c: char)
    requires I32Min < n <= I32Max
    ensures c == ' ' || c in density
    ensures 1 <= n == |density| ==> c == density[n - 1 - b * n / 256]
    ensures n <= 0 ==> c == ' '
  {
    var i := RampIndex(b, n);
    if 0 <= i < |density| then density[i] else ' '
  }

  /** For a non-empty ramp the level lies in [0, n-1]. */
  lemma LevelBounds(b: Byte, n: int)
    requires n >= 1
    ensures 0 <= Level(b, n) <= n - 1
  {
  }

  /** The fallback fires on a ramp of n characters exactly when it is empty;
      otherwise the chosen index lies in [0, n-1]. */
  lemma FallbackOnlyWhenEmpty(density: string, b: Byte)
    requires |density| <= I32Max
    ensures FallsBack(density, |density|, b) <==> |density| == 0
    ensures |density| >= 1 ==> 0 <= RampIndex(b, |density|) <= |density| - 1
  {
  }

  /** Brighter pixels pick earlier (or the same) ramp characters. */
  lemma RampIndexAntitone(b1: Byte, b2: Byte, n: int)
    requires b1 <= b2
    ensures RampIndex(b2, n) <= RampIndex(b1, n)
  {
    if n >= 1 {
      ScaleMonotone(b1, b2, n);
      FloorMonotone(Level(b1, n), Level(b2, n), b1 * n, b2 * n);
    }
  }

  lemma ScaleMonotone(x: int, y: int, n: int)
    requires x <= y && n >= 0
    ensures x * n <= y * n
  {
    assert (y - x) * n >= 0;
  }

  lemma FloorMonotone(k1: int, k2: int, x1: int, x2: int)
    requires k1 * 256 <= x1 <= x2 < (k2 + 1) * 256
    ensures k1 <= k2
  {
  }

  /** Black selects the last ramp character; full white selects the first
      exactly when the ramp has at most 256 characters. */
  lemma RampEndpoints(n: int)
    requires n >= 1
    ensures RampIndex(0, n) == n - 1
    ensures RampIndex(255, n) == 0 <==> n <= 256
  {
  }

  // ---------------------------------------------------------------------
  // Glyph rasterisation (draw_character, src/ascii/mod.rs:49-72)
  // ---------------------------------------------------------------------

  /** `row & (1 << (font_width - 1 - x)) != 0`: the bit of the glyph row that
      column `col` shows. */
  function Ink(row: bv8, fw: nat, col: nat): bool
    requires col < fw <= 8
  {
    row & (1 << (fw - 1 - col)) != 0
  }

  function Pow2(k: nat): (p: nat)
    ensures p >= 1
  {
    if k == 0 then 1 else 2 * Pow2(k - 1)
  }

  lemma Bit7(row: bv8) ensures (row & 0x80 != 0) <==> (row as int / 128) % 2 == 1 {}
  lemma Bit6(row: bv8) ensures (row & 0x40 != 0) <==> (row as int / 64) % 2 == 1 {}
  lemma Bit5(row: bv8) ensures (row & 0x20 != 0) <==> (row as int / 32) % 2 == 1 {}
  lemma Bit4(row: bv8) ensures (row & 0x10 != 0) <==> (row as int / 16) % 2 == 1 {}
  lemma Bit3(row: bv8) ensures (row & 0x08 != 0) <==> (row as int / 8) % 2 == 1 {}
  lemma Bit2(row: bv8) ensures (row & 0x04 != 0) <==> (row as int / 4) % 2 == 1 {}
  lemma Bit1(row: bv8) ensures (row & 0x02 != 0) <==> (row as int / 2) % 2 == 1 {}
  lemma Bit0(row: bv8) ensures (row & 0x01 != 0) <==> (row as int) % 2 == 1 {}

  /** With the 8-pixel-wide font, column `col` shows binary digit `7 - col` of
      the row byte: the most significant bit is the leftmost pixel. */
  lemma {:induction false} InkIsMsbFirst(row: bv8, col: nat)
    requires col < 8
    ensures Ink(row, 8, col) <==> (row as int / Pow2(7 - col)) % 2 == 1
  {
    assert Pow2(0) == 1 && Pow2(1) == 2 && Pow2(2) == 4 && Pow2(3) == 8;
    assert Pow2(4) == 16 && Pow2(5) == 32 && Pow2(6) == 64 && Pow2(7) == 128;
    match col
    case 0 => Bit7(row);
    case 1 => Bit6(row);
    case 2 => Bit5(row);
    case 3 => Bit4(row);
    case 4 => Bit3(row);
    case 5 => Bit2(row);
    case 6 => Bit1(row);
    case 7 => Bit0(row);
  }

  /** The colour `draw_character` gives one glyph pixel. */
  function Paint(ink: bool, colored: bool, color: Rgb): Rgb
  {
    if colored then (if ink then color else White)
    else (if ink then Black else White)
  }

  /** Background is white in both modes; ink is the cell colour when colored
      and black otherwise; a black cell colour makes the mode irrelevant. */
  lemma PaintRule(ink: bool, colored: bool, color: Rgb)
    ensures !ink ==> Paint(ink, colored, color) == White
    ensures ink ==> Paint(ink, colored, color) == (if colored then color else Black)
    ensures color == Black ==> Paint(ink, colored, color) == Paint(ink, !colored, color)
  {
  }

  /** The `code`-th glyph occupies bytes [code*fh, code*fh + fh) of the font. */
  predicate GlyphFits(font: seq<bv8>, code: int, fh: nat)
  {
    0 <= code && code * fh + fh <= |font|
  }

  /** Pixel (col, row) of glyph `code`, painted as `draw_character` does. */
  function GlyphPixel(font: seq<bv8>, code: int, fw: nat, fh: nat, col: nat, row: nat,
                      colored: bool, color: Rgb): Rgb
    requires col < fw <= 8 && row < fh && GlyphFits(font, code, fh)
  {
    Paint(Ink(font[code * fh + row], fw, col), colored, color)
  }

  /** `draw_character`: paints the fw x fh block at (xo, yo) from glyph
      `character` and leaves every other pixel as it was. The requires is
      where the source would panic: a shift of 8 or more on a u8, a font
      index past the end, or `put_pixel` outside the image. */
  method DrawCharacter(image: array2<Rgb>, character: char, font: seq<bv8>,
                       fw: nat, fh: nat, xo: nat, yo: nat, colored: bool, color: Rgb)
    requires fw <= 8
    requires fw > 0 && fh > 0 ==>
      GlyphFits(font, character as int, fh) && xo + fw <= image.Length0 && yo + fh <= image.Length1
    modifies image
    ensures forall i, j :: 0 <= i < image.Length0 && 0 <= j < image.Length1 ==>
      image[i, j] == if xo <= i < xo + fw && yo <= j < yo + fh
                     then GlyphPixel(font, character as int, fw, fh, i - xo, j - yo, colored, color)
                     else old(image[i, j])
  {
    var index := (character as int) * fh;
    for y := 0 to fh
      invariant forall i, j :: 0 <= i < image.Length0 && 0 <= j < image.Length1 ==>
        image[i, j] == if xo <= i < xo + fw && yo <= j < yo + y
                       then GlyphPixel(font, character as int, fw, fh, i - xo, j - yo, colored, color)
                       else old(image[i, j])
    {
      for x := 0 to fw
        invariant forall i, j :: 0 <= i < image.Length0 && 0 <= j < image.Length1 ==>
          image[i, j] == if xo <= i < xo + fw && (yo <= j < yo + y || (j == yo + y && i < xo + x))
                         then GlyphPixel(font, character as int, fw, fh, i - xo, j - yo, colored, color)
                         else old(image[i, j])
      {
        var pixel := font[index + y] & (1 << (fw - 1 - x));
        var pixelColor := if colored then (if pixel != 0 then color else White)
                          else (if pixel != 0 then Black else White);
        image[xo + x, yo + y] := pixelColor;
      }
    }
  }

  // ---------------------------------------------------------------------
  // The cell loop of ascii_image (src/ascii/mod.rs:17-43)
  // ---------------------------------------------------------------------

  /** The grayscale `process_pixel` closure: the luma value, and black as
      the "no colour" marker (src/ascii/mod.rs:89). */
  function GraySample(luma: Byte): Sample
  {
    Sample(luma, Black)
  }

  /** The colour closure: its f32 luma weighting is a parameter. */
  function ColorSample(luma: Rgb -> Byte): Rgb -> Sample
  {
    p => Sample(luma(p), p)
  }

  /** The ramp character drawn for cell (x, y): `get_pixel(x, y)`, then
      `process_pixel`, then the ramp lookup with its `' '` fallback. */
  function CellChar<P>(img: seq<seq<P>>, process: P -> Sample, density: string, n: int,
                       x: nat, y: nat): (c: char)
    requires I32Min < n <= I32Max
    requires y < |img| && x < |img[y]|
    ensures c == ' ' || c in density
  {
    Select(density, n, process(img[y][x]).brightness)
  }

  /** The source image has every pixel `get_pixel(x, y)` of the grid reads. */
  predicate Covers<P>(img: seq<seq<P>>, width: int, height: nat)
  {
    height <= |img| && forall y :: 0 <= y < height ==> width <= |img[y]|
  }

  /** Every cell of the width x height grid exists in the source image and
      its glyph is in the font: the cell loop panics nowhere. */
  predicate Renderable<P>(img: seq<seq<P>>, process: P -> Sample, density: string, n: int,
                          font: seq<bv8>, width: nat, height: nat)
    requires I32Min < n <= I32Max
  {
    Covers(img, width, height) &&
    (forall y, x :: 0 <= y < height && 0 <= x < width ==>
       GlyphFits(font, CellChar(img, process, density, n, x, y) as int, FontHeight))
  }

  /** Pixel (px, py) lies in the 8x16 block of cell (x, y). */
  predicate InCell(px: int, py: int, x: int, y: int)
  {
    x * FontWidth <= px < x * FontWidth + FontWidth && y * FontHeight <= py < y * FontHeight + FontHeight
  }

  /** Each canvas pixel belongs to the block of exactly one cell, the one at
      (px / 8, py / 16): cell blocks are disjoint and cover the canvas. */
  lemma CellOfPixel(px: nat, py: nat, x: int, y: int)
    ensures InCell(px, py, x, y) <==> x == px / FontWidth && y == py / FontHeight
  {
  }

  /** The final colour of canvas pixel (px, py): pixel (px % 8, py % 16) of the
      glyph chosen for cell (px / 8, py / 16), drawn monochrome exactly when the
      cell's colour is black. */
  function CanvasPixel<P>(img: seq<seq<P>>, process: P -> Sample, density: string, n: int,
                          font: seq<bv8>, width: nat, height: nat, px: nat, py: nat): Rgb
    requires I32Min < n <= I32Max
    requires Renderable(img, process, density, n, font, width, height)
    requires px < width * FontWidth && py < height * FontHeight
  {
    var x, y := px / FontWidth, py / FontHeight;
    var s := process(img[y][x]);
    var code := CellChar(img, process, density, n, x, y) as int;
    GlyphPixel(font, code, FontWidth, FontHeight, px % FontWidth, py % FontHeight, s.color != Black, s.color)
  }

  /** A canvas pixel is determined by the sample of its own cell alone. */
  lemma CanvasPixelDependsOnCell<P>(img1: seq<seq<P>>, img2: seq<seq<P>>, process: P -> Sample,
                                    density: string, n: int, font: seq<bv8>,
                                    width: nat, height: nat, px: nat, py: nat)
    requires I32Min < n <= I32Max
    requires Renderable(img1, process, density, n, font, width, height)
    requires Renderable(img2, process, density, n, font, width, height)
    requires px < width * FontWidth && py < height * FontHeight
    requires process(img1[py / FontHeight][px / FontWidth]) == process(img2[py / FontHeight][px / FontWidth])
    ensures CanvasPixel(img1, process, density, n, font, width, height, px, py)
         == CanvasPixel(img2, process, density, n, font, width, height, px, py)
  {
  }

  /** The sizes for which `RgbImage::new(width as u32 * 8, height * 16)` and
      `x * 8` (in i32) do not overflow. */
  predicate CanvasFits(width: int, height: nat)
  {
    0 <= width && (width - 1) * FontWidth <= I32Max && height * FontHeight <= U32Max
  }

  /** `ascii_image`: allocates a `width*8 x height*16` canvas (initially black)
      and draws the glyph of every cell (x, y) at (x*8, y*16). Returns the
      canvas that the source saves as ascii_art.png. */
  method AsciiImage<P>(height: nat, width: int, density: string, n: int,
                       process: P -> Sample, img: seq<seq<P>>, font: seq<bv8>)
    returns (canvas: array2<Rgb>)
    requires CanvasFits(width, height)
    requires I32Min < n <= I32Max
    requires Renderable(img, process, density, n, font, width, height)
    ensures fresh(canvas)
    ensures canvas.Length0 == width * FontWidth && canvas.Length1 == height * FontHeight
    ensures forall px, py :: 0 <= px < canvas.Length0 && 0 <= py < canvas.Length1 ==>
      canvas[px, py] == CanvasPixel(img, process, density, n, font, width, height, px, py)
  {
    canvas := new Rgb[width * FontWidth, height * FontHeight]((i, j) => Black);
    for y := 0 to height
      invariant forall i, j :: 0 <= i < canvas.Length0 && 0 <= j < canvas.Length1 ==>
        canvas[i, j] == if j < y * FontHeight
                        then CanvasPixel(img, process, density, n, font, width, height, i, j)
                        else Black
    {
      for x := 0 to width
        invariant forall i, j :: 0 <= i < canvas.Length0 && 0 <= j < canvas.Length1 ==>
          canvas[i, j] == if j < y * FontHeight || (j < y * FontHeight + FontHeight && i < x * FontWidth)
                          then CanvasPixel(img, process, density, n, font, width, height, i, j)
                          else Black
      {
        var s := process(img[y][x]);
        var character := Select(density, n, s.brightness);
        assert character == CellChar(img, process, density, n, x, y);
        DrawCharacter(canvas, character, font, FontWidth, FontHeight, x * FontWidth, y * FontHeight,
                      s.color != Black, s.color);
        forall i, j | 0 <= i < canvas.Length0 && 0 <= j < canvas.Length1 && InCell(i, j, x, y)
          ensures canvas[i, j] == CanvasPixel(img, process, density, n, font, width, height, i, j)
        {
          CellOfPixel(i, j, x, y);
        }
      }
    }
  }

  /** In grayscale mode every canvas pixel is black ink or white background. */
  lemma GrayscaleIsMonochrome(img: seq<seq<Byte>>, density: string, n: int, font: seq<bv8>,
                              width: nat, height: nat, px: nat, py: nat)
    requires I32Min < n <= I32Max
    requires Renderable(img, GraySample, density, n, font, width, height)
    requires px < width * FontWidth && py < height * FontHeight
    ensures CanvasPixel(img, GraySample, density, n, font, width, height, px, py) in {Black, White}
  {
  }

  /** For a fixed glyph, painting with colour black gives the same pixel
      whether `colored` is set or not. */
  lemma BlackCellIsMonochrome(font: seq<bv8>, code: int, col: nat, row: nat)
    requires col < FontWidth && row < FontHeight && GlyphFits(font, code, FontHeight)
    ensures GlyphPixel(font, code, FontWidth, FontHeight, col, row, true, Black)
         == GlyphPixel(font, code, FontWidth, FontHeight, col, row, false, Black)
  {
    PaintRule(Ink(font[code * FontHeight + row], FontWidth, col), true, Black);
  }
}
