/** Model of src/main.rs: range checks on the command-line arguments, the
    density ramp built by reversing and truncating the palette literal, and
    the dispatch to the grayscale or the colour pipeline. */
module Cli {
  import opened Ascii

  /** The palette literal, written darkest first (src/main.rs:46), here in
      four pieces of 20 characters. */
  const Palette: string :=
    "$@B%8&WM#*oahkbdpqwm" + "ZO0QLCJUYXzcvunxrjft" + "/|()1{}[]?-_+~<>i!lI" + ";:,\"^`'.            "

  const U32Modulus := 0x1_0000_0000
  const UsizeModulus := 0x1_0000_0000_0000_0000

  /** `v as i32` for a u32 `v`: the two's-complement reading of its bits. */
  function AsI32(v: nat): (r: int)
    requires v <= U32Max
    ensures I32Min <= r <= I32Max
    ensures r % U32Modulus == v
  {
    if v <= I32Max then v else v - U32Modulus
  }

  /** `v as usize` for an i32 `v` on a 64-bit target. */
  function AsUsize(v: int): (r: nat)
    requires I32Min <= v <= I32Max
    ensures r < UsizeModulus && r % UsizeModulus == v % UsizeModulus
  {
    if v >= 0 then v else v + UsizeModulus
  }

  datatype Failure = FileNotFound | WidthOutOfRange | ContrastOutOfRange

  /** The outcome of the checks on src/main.rs:39-43: the i32 values that
      processing goes on with, or the first check that aborts. */
  datatype Checked = Accepted(width: int, contrast: int) | Rejected(reason: Failure)

  /** `fs::metadata(..).expect(..)` and the two range assertions, in that order,
      on the u32 arguments cast to i32. `fileExists` stands for the file system. */
  function CheckArgs(fileExists: bool, widthArg: nat, contrastArg: nat): (r: Checked)
    requires widthArg <= U32Max && contrastArg <= U32Max
    ensures r.Accepted? <==>
      fileExists && 10 <= widthArg <= 1000 && (contrastArg <= 10 || contrastArg >= U32Modulus - 10)
    ensures r.Accepted? ==> r.width == widthArg && -10 <= r.contrast <= 10 && r.contrast % U32Modulus == contrastArg
    ensures !fileExists ==> r == Rejected(FileNotFound)
    ensures fileExists && !(10 <= widthArg <= 1000) ==> r == Rejected(WidthOutOfRange)
    ensures fileExists && 10 <= widthArg <= 1000 && !r.Accepted? ==> r == Rejected(ContrastOutOfRange)
  {
    var width, contrast := AsI32(widthArg), AsI32(contrastArg);
    if !fileExists then Rejected(FileNotFound)
    else if !(10 <= width <= 1000) then Rejected(WidthOutOfRange)
    else if !(-10 <= contrast <= 10) then Rejected(ContrastOutOfRange)
    else Accepted(width, contrast)
  }

  /** `s.chars().rev().collect()`: takes characters from the back. */
  function Reverse(s: string): (r: string)
    ensures |r| == |s|
  {
    if |s| == 0 then [] else [s[|s| - 1]] + Reverse(s[..|s| - 1])
  }

  lemma {:induction false} ReverseAt(s: string, i: nat)
    requires i < |s|
    ensures Reverse(s)[i] == s[|s| - 1 - i]
  {
    if i > 0 {
      ReverseAt(s[..|s| - 1], i - 1);
    }
  }

  /** `String::truncate(new_len)` on an ASCII string, where bytes are
      characters: keeps the first `new_len` characters and does nothing when
      `new_len` is not below the length. */
  function Truncate(s: string, newLen: nat): (r: string)
    ensures |r| == (if newLen < |s| then newLen else |s|)
    ensures r == s[..|r|]
  {
    if newLen < |s| then s[..newLen] else s
  }

  /** The ramp length for a palette of `len` characters: `len - 11 + contrast`
      when that truncates, otherwise `len` (a negative i32 becomes a huge usize,
      and `truncate` past the end changes nothing). */
  function RampLength(len: nat, contrast: int): (k: nat)
    ensures k <= len
  {
    var t := len - 11 + contrast;
    if 0 <= t < len then t else len
  }

  /** The ramp as a direct definition: position i holds the palette's
      (i+1)-th character from the end. */
  function RampOf(palette: string, contrast: int): string
  {
    seq(RampLength(|palette|, contrast), i requires 0 <= i < RampLength(|palette|, contrast) =>
      palette[|palette| - 1 - i])
  }

  /** src/main.rs:46-51: reverse the palette, then truncate it to
      `n - 11 + contrast` and take the new length as `n`. The source counts
      bytes (`len`, `truncate`); an ASCII palette makes that the character
      count used here. */
  method BuildDensity(palette: string, contrast: int) returns (density: string, n: int)
    requires |palette| <= I32Max
    requires forall c :: c in palette ==> c as int < 128
    requires -10 <= contrast <= 10
    ensures n == |density|
    ensures density == RampOf(palette, contrast)
  {
    density := palette;
    density := Reverse(density);
    n := |density|;
    density := Truncate(density, AsUsize(n - 11 + contrast));
    n := |density|;
    forall i | 0 <= i < n
      ensures density[i] == palette[|palette| - 1 - i]
    {
      ReverseAt(palette, i);
    }
  }

  /** The ramp is a prefix of the reversed palette; what truncation drops is
      the reversed start of the literal. */
  lemma {:induction false} RampIsPrefix(palette: string, contrast: int)
    ensures RampOf(palette, contrast) == Reverse(palette)[..RampLength(|palette|, contrast)]
    ensures Reverse(palette)[RampLength(|palette|, contrast)..]
         == Reverse(palette[..|palette| - RampLength(|palette|, contrast)])
  {
    var k, p := RampLength(|palette|, contrast), |palette|;
    var head := palette[..p - k];
    forall i | 0 <= i < k
      ensures RampOf(palette, contrast)[i] == Reverse(palette)[i]
    {
      ReverseAt(palette, i);
    }
    forall i | 0 <= i < p - k
      ensures Reverse(palette)[k + i] == Reverse(head)[i]
    {
      ReverseAt(palette, k + i);
      ReverseAt(head, i);
    }
  }

  /** On an empty palette, or when `len - 11 + contrast` is exactly 0, the ramp
      is empty; otherwise it is not. */
  lemma RampEmptyIff(len: nat, contrast: int)
    ensures RampLength(len, contrast) == 0 <==> len == 0 || len - 11 + contrast == 0
  {
  }

  /** For the shipped 80-character palette and a valid contrast the ramp has
      69 + contrast characters, between 59 and 79: never empty, always
      shorter than the palette. */
  lemma PaletteRampLength(contrast: int)
    requires -10 <= contrast <= 10
    ensures |Palette| == 80
    ensures RampLength(|Palette|, contrast) == 69 + contrast
    ensures 1 <= RampLength(|Palette|, contrast) < |Palette|
  {
  }

  /** Every palette character is ASCII, so characters and bytes coincide for
      `len` and `truncate`. */
  lemma PaletteIsAscii()
    ensures forall c :: c in Palette ==> c as int < 128
  {
  }

  /** The font holds the glyph of every palette character and of the space. */
  predicate CoversPalette(font: seq<bv8>)
  {
    GlyphFits(font, ' ' as int, FontHeight) &&
    forall i :: 0 <= i < |Palette| ==> GlyphFits(font, Palette[i] as int, FontHeight)
  }

  /** Any grid drawn with the palette ramp only uses palette glyphs or ' '. */
  lemma RampRenderable<P>(img: seq<seq<P>>, process: P -> Sample, contrast: int,
                              font: seq<bv8>, width: nat, height: nat)
    requires -10 <= contrast <= 10
    requires Covers(img, width, height) && CoversPalette(font)
    ensures Renderable(img, process, RampOf(Palette, contrast), |RampOf(Palette, contrast)|, font, width, height)
  {
  }

  /** The parsed command line (clap): `width` and `contrast` are u32. */
  datatype Args = Args(width: nat, contrast: nat, color: bool, open: bool)

  /** `main`, src/main.rs:32-64: checks the arguments, builds the ramp and runs
      the grayscale pipeline or, with `--color`, the colour pipeline, returning
      the canvas saved as ascii_art.png. Decoding, resizing and the resized
      height are external: `gray` and `rgb` are the resized images, `height`
      what `get_height` computed, `colorLuma` the colour brightness closure. */
  method Run(args: Args, fileExists: bool, height: nat, gray: seq<seq<Byte>>, rgb: seq<seq<Rgb>>,
             colorLuma: Rgb -> Byte, font: seq<bv8>)
    returns (outcome: Checked, canvas: array2?<Rgb>)
    requires args.width <= U32Max && args.contrast <= U32Max
    requires height * FontHeight <= U32Max
    requires CoversPalette(font)
    requires CheckArgs(fileExists, args.width, args.contrast).Accepted? ==>
      if args.color then Covers(rgb, args.width, height) else Covers(gray, args.width, height)
    ensures outcome == CheckArgs(fileExists, args.width, args.contrast)
    ensures outcome.Accepted? <==> canvas != null
    ensures outcome.Accepted? ==> fresh(canvas)
    ensures outcome.Accepted? ==>
      canvas != null && canvas.Length0 == args.width * FontWidth && canvas.Length1 == height * FontHeight
    ensures outcome.Accepted? && !args.color ==>
      Renderable(gray, GraySample, RampOf(Palette, outcome.contrast), |RampOf(Palette, outcome.contrast)|,
                 font, args.width, height)
    ensures outcome.Accepted? && args.color ==>
      Renderable(rgb, ColorSample(colorLuma), RampOf(Palette, outcome.contrast), |RampOf(Palette, outcome.contrast)|,
                 font, args.width, height)
    ensures outcome.Accepted? && !args.color ==>
      canvas != null && (forall px, py :: 0 <= px < canvas.Length0 && 0 <= py < canvas.Length1 ==>
         canvas[px, py] == CanvasPixel(gray, GraySample, RampOf(Palette, outcome.contrast),
                                       |RampOf(Palette, outcome.contrast)|, font, args.width, height, px, py))
    ensures outcome.Accepted? && args.color ==>
      canvas != null && (forall px, py :: 0 <= px < canvas.Length0 && 0 <= py < canvas.Length1 ==>
         canvas[px, py] == CanvasPixel(rgb, ColorSample(colorLuma), RampOf(Palette, outcome.contrast),
                                       |RampOf(Palette, outcome.contrast)|, font, args.width, height, px, py))
  {
    outcome := CheckArgs(fileExists, args.width, args.contrast);
    if outcome.Rejected? {
      canvas := null;
      return;
    }
    var width, contrast := outcome.width, outcome.contrast;
    PaletteIsAscii();
    var density, n := BuildDensity(Palette, contrast);
    PaletteRampLength(contrast);
    if !args.color {
      RampRenderable(gray, GraySample, contrast, font, width, height);
      canvas := AsciiImage(height, width, density, n, GraySample, gray, font);
    } else {
      RampRenderable(rgb, ColorSample(colorLuma), contrast, font, width, height);
      canvas := AsciiImage(height, width, density, n, ColorSample(colorLuma), rgb, font);
    }
  }
}
