/** The PL110 scanline converters: one parameterised converter in place of
    the 48 functions the template expands to.  A converter reads 32-bit
    source words and emits 32-bit host pixels, a fixed number per word. */
module Pl110Convert {
  import opened Bits
  import opened Pl110Format

  /** A 32-bit host pixel as the converter stores it.  Indexed depths store
      a palette word; direct depths store rgb_to_pixel32(r, g, b), whose
      definition is not part of this model, so the pixel is kept as the
      triple of channel values passed to it. */
  datatype HostPixel = PaletteEntry(value: bv32) | RgbToPixel32(r: bv32, g: bv32, b: bv32)

  /** The device's palette: 256 host-format words. */
  predicate ValidPalette(palette: seq<bv32>) {
    |palette| == 256
  }

  /** Bits per palette index. */
  function IndexBits(d: Depth): (n: nat)
    requires Indexed(d)
    ensures n == 1 || n == 2 || n == 4 || n == 8
  {
    match d
    case Bpp1 => 1
    case Bpp2 => 2
    case Bpp4 => 4
    case Bpp8 => 8
  }

  /** The mask applied after shifting: `& 1`, `& 3`, `& 0xf`, `& 0xff`,
      the low IndexBits(d) bits. */
  function IndexMask(d: Depth): (m: bv32)
    requires Indexed(d)
    ensures m <= 0xff
  {
    match d
    case Bpp1 => 1
    case Bpp2 => 3
    case Bpp4 => 0xf
    case Bpp8 => 0xff
  }

  /** Pixels per byte of an indexed depth. */
  function FieldsPerByte(d: Depth): (k: nat)
    requires Indexed(d)
    ensures 4 * k == PixelsPerWord(d)
  {
    match d
    case Bpp1 => 8
    case Bpp2 => 4
    case Bpp4 => 2
    case Bpp8 => 1
  }

  /** Shift of each field relative to the start of its byte, in the order
      the fields are emitted.  Without SWAP_PIXELS field x sits at bit x*n;
      with it the order inside the byte is mirrored, field x sitting at bit
      8-n-x*n.  (8 bpp has one field per byte and never consults the flag.) */
  function FieldShifts(d: Depth, swapPixels: bool): (s: seq<bv32>)
    requires Indexed(d)
    ensures |s| == FieldsPerByte(d)
    ensures forall x :: 0 <= x < |s| ==> s[x] < 8
  {
    match d
    case Bpp1 => if swapPixels then [7, 6, 5, 4, 3, 2, 1, 0] else [0, 1, 2, 3, 4, 5, 6, 7]
    case Bpp2 => if swapPixels then [6, 4, 2, 0] else [0, 2, 4, 6]
    case Bpp4 => if swapPixels then [4, 0] else [0, 4]
    case Bpp8 => [0]
  }

  /** Bit offsets of the four bytes of the word, in the order they are
      consumed: low to high, or high to low under SWAP_WORDS. */
  function ByteStarts(swapWords: bool): (ys: seq<bv32>)
    ensures |ys| == 4 && forall i :: 0 <= i < 4 ==> ys[i] <= 24
  {
    if swapWords then [24, 16, 8, 0] else [0, 8, 16, 24]
  }

  /** `(data >> shift) & mask`, a palette index. */
  function FieldValue(w: bv32, shift: bv32, mask: bv32): byte
    requires shift < 32 && mask <= 0xff
  {
    ((w >> shift) & mask) as byte
  }

  /** `palette[(data >> shift) & mask]` */
  function PaletteField(palette: seq<bv32>, w: bv32, shift: bv32, mask: bv32): (p: HostPixel)
    requires ValidPalette(palette) && shift < 32 && mask <= 0xff
    ensures p.PaletteEntry?
  {
    PaletteEntry(palette[FieldValue(w, shift, mask) as int])
  }

  /** The palette entries for the fields at shifts `fs` within the byte of
      `w` starting at bit `y`, in the order of `fs`. */
  function FieldsOf(palette: seq<bv32>, w: bv32, y: bv32, fs: seq<bv32>, mask: bv32): (px: seq<HostPixel>)
    requires ValidPalette(palette) && y <= 24 && mask <= 0xff
    requires forall x :: 0 <= x < |fs| ==> fs[x] < 8
    ensures |px| == |fs|
    ensures forall i :: 0 <= i < |px| ==> px[i].PaletteEntry?
  {
    seq(|fs|, x requires 0 <= x < |fs| => PaletteField(palette, w, y + fs[x], mask))
  }

  /** The pixels taken from the byte of `w` starting at bit `y`. */
  function ByteFields(cfg: Config, palette: seq<bv32>, w: bv32, y: bv32): (px: seq<HostPixel>)
    requires Indexed(cfg.depth) && ValidPalette(palette) && y <= 24
    ensures |px| == FieldsPerByte(cfg.depth)
    ensures forall i :: 0 <= i < |px| ==> px[i].PaletteEntry?
  {
    FieldsOf(palette, w, y, FieldShifts(cfg.depth, cfg.swapPixels), IndexMask(cfg.depth))
  }

  /** The 1, 2, 4 and 8 bpp converters' handling of one source word. */
  function IndexedWord(cfg: Config, palette: seq<bv32>, w: bv32): (px: seq<HostPixel>)
    requires Indexed(cfg.depth) && ValidPalette(palette)
    ensures |px| == PixelsPerWord(cfg.depth)
    ensures forall i :: 0 <= i < |px| ==> px[i].PaletteEntry?
  {
    var ys := ByteStarts(cfg.swapWords);
    ByteFields(cfg, palette, w, ys[0]) + ByteFields(cfg, palette, w, ys[1])
      + ByteFields(cfg, palette, w, ys[2]) + ByteFields(cfg, palette, w, ys[3])
  }

  /** A directly coloured pixel whose channels fit in 8 bits. */
  predicate Direct8(p: HostPixel) {
    p.RgbToPixel32? && p.r <= 0xff && p.g <= 0xff && p.b <= 0xff
  }

  /** rgb_to_pixel32(r, g, b) with the template's LSB/MSB channel macros:
      under RGB the least significant field is red, under BGR it is blue. */
  function Pack(rgb: bool, lsb: bv32, g: bv32, msb: bv32): HostPixel
  {
    if rgb then RgbToPixel32(lsb, g, msb) else RgbToPixel32(msb, g, lsb)
  }

  /** One 5:6:5 pixel from the low 16 bits of d. */
  function Pixel565(rgb: bool, d: bv32): (p: HostPixel)
    ensures Direct8(p)
  {
    Pack(rgb, (d & 0x1f) << 3, ((d >> 5) & 0x3f) << 2, ((d >> 11) & 0x1f) << 3)
  }

  /** One 5:5:5 pixel from the low 15 bits of d. */
  function Pixel555(rgb: bool, d: bv32): (p: HostPixel)
    ensures Direct8(p)
  {
    Pack(rgb, (d & 0x1f) << 3, ((d >> 5) & 0x1f) << 3, ((d >> 10) & 0x1f) << 3)
  }

  /** One 4:4:4 pixel from the low 12 bits of d. */
  function Pixel444(rgb: bool, d: bv32): (p: HostPixel)
    ensures Direct8(p)
  {
    Pack(rgb, (d & 0xf) << 4, ((d >> 4) & 0xf) << 4, ((d >> 8) & 0xf) << 4)
  }

  /** The 32 bpp converter: three raw bytes, read from the low end of the
      word, or from the high end under SWAP_WORDS. */
  function Pixel32(rgb: bool, swapWords: bool, w: bv32): (p: HostPixel)
    ensures Direct8(p)
  {
    if !swapWords then Pack(rgb, w & 0xff, (w >> 8) & 0xff, (w >> 16) & 0xff)
    else Pack(rgb, (w >> 24) & 0xff, (w >> 16) & 0xff, (w >> 8) & 0xff)
  }

  /** The two pixels the 16, 5:5:5 and 12 bpp converters build from one
      (possibly byte-swapped) word: the 5:5:5 converter has consumed 15
      bits when it builds the second pixel, the others 16. */
  function HalfwordPixels(d: Depth, rgb: bool, h: bv32): (px: seq<HostPixel>)
    requires d == Bpp16_565 || d == Bpp16_555 || d == Bpp12
    ensures |px| == 2
  {
    match d
    case Bpp16_565 => [Pixel565(rgb, h), Pixel565(rgb, h >> 16)]
    case Bpp16_555 => [Pixel555(rgb, h), Pixel555(rgb, h >> 15)]
    case Bpp12 => [Pixel444(rgb, h), Pixel444(rgb, h >> 16)]
  }

  /** The 16, 5:5:5, 12 and 32 bpp converters' handling of one source
      word.  All but the 32 bpp converter byte-swap the word under
      SWAP_WORDS. */
  function DirectWord(cfg: Config, w: bv32): (px: seq<HostPixel>)
    requires !Indexed(cfg.depth)
    ensures |px| == PixelsPerWord(cfg.depth)
  {
    if cfg.depth == Bpp32 then [Pixel32(cfg.rgb, cfg.swapWords, w)]
    else HalfwordPixels(cfg.depth, cfg.rgb, if cfg.swapWords then Bswap32(w) else w)
  }

  /** One iteration of a converter's loop: the pixels emitted for one
      source word. */
  function ConvertWord(cfg: Config, palette: seq<bv32>, w: bv32): (px: seq<HostPixel>)
    requires ValidPalette(palette)
    ensures |px| == PixelsPerWord(cfg.depth)
  {
    if Indexed(cfg.depth) then IndexedWord(cfg, palette, w) else DirectWord(cfg, w)
  }

  /** Source words a converter reads for a line of `width` pixels: it loops
      while width > 0, so a partial last group still consumes a whole word. */
  function WordsRead(d: Depth, width: int): (n: nat)
    ensures width <= 0 ==> n == 0
    ensures width > 0 ==> (n - 1) * PixelsPerWord(d) < width <= n * PixelsPerWord(d)
  {
    if width <= 0 then 0 else (width + PixelsPerWord(d) - 1) / PixelsPerWord(d)
  }

  /** The pixels emitted for a sequence of source words, word after word. */
  function LinePixels(cfg: Config, palette: seq<bv32>, words: seq<bv32>): (px: seq<HostPixel>)
    requires ValidPalette(palette)
    ensures |px| == |words| * PixelsPerWord(cfg.depth)
    decreases |words|
  {
    if words == [] then []
    else
      var n := PixelsPerWord(cfg.depth);
      assert (|words| - 1) * n + n == |words| * n;
      LinePixels(cfg, palette, words[..|words| - 1]) + ConvertWord(cfg, palette, words[|words| - 1])
  }

  /** Word k's pixels occupy positions k*ppw .. k*ppw+ppw-1 of the line, in
      the order the word yields them. */
  lemma {:induction false} LinePixelsAt(cfg: Config, palette: seq<bv32>, words: seq<bv32>, k: nat, x: nat)
    requires ValidPalette(palette)
    requires k < |words| && x < PixelsPerWord(cfg.depth)
    ensures k * PixelsPerWord(cfg.depth) + x < |LinePixels(cfg, palette, words)|
    ensures LinePixels(cfg, palette, words)[k * PixelsPerWord(cfg.depth) + x]
         == ConvertWord(cfg, palette, words[k])[x]
    decreases |words|
  {
    var n := PixelsPerWord(cfg.depth);
    var init := words[..|words| - 1];
    MulMono(k + 1, |words|, n);
    assert LinePixels(cfg, palette, words)
        == LinePixels(cfg, palette, init) + ConvertWord(cfg, palette, words[|words| - 1]);
    if k == |words| - 1 {
      assert k * n == |LinePixels(cfg, palette, init)|;
    } else {
      MulMono(k + 1, |init|, n);
      LinePixelsAt(cfg, palette, init, k, x);
    }
  }

  /** Multiplying by a positive count keeps order. */
  lemma MulMono(a: int, b: int, n: nat)
    requires a <= b
    ensures a * n <= b * n
  {
    assert b * n - a * n == (b - a) * n;
  }

  /** Multiplying by a positive count reflects order. */
  lemma MulCancel(a: int, b: int, n: nat)
    requires n > 0
    ensures a * n < b * n ==> a < b
    ensures a * n <= b * n ==> a <= b
  {
    if a >= b {
      MulMono(b, a, n);
    }
    if a > b {
      assert a * n - b * n == (a - b) * n;
    }
  }

  /** A line converter, `pl110_draw_line<depth>_<variant>_<order>`: loop
      while width > 0, converting one source word and advancing the
      destination by 4 bytes per pixel.  `src` is the scanline as loaded
      source words. */
  method DrawLine(cfg: Config, palette: seq<bv32>, src: seq<bv32>, width: int) returns (dst: seq<HostPixel>)
    requires ValidPalette(palette)
    requires WordsRead(cfg.depth, width) <= |src|
    ensures dst == LinePixels(cfg, palette, src[..WordsRead(cfg.depth, width)])
    ensures |dst| == WordsRead(cfg.depth, width) * PixelsPerWord(cfg.depth)
    ensures width <= 0 ==> dst == []
    ensures width >= 0 && width % PixelsPerWord(cfg.depth) == 0 ==> |dst| == width
  {
    var n := PixelsPerWord(cfg.depth);
    var remaining := width;
    var k := 0;
    dst := [];
    while remaining > 0
      invariant 0 <= k <= WordsRead(cfg.depth, width)
      invariant remaining == width - k * n
      invariant remaining > 0 ==> k < WordsRead(cfg.depth, width)
      invariant dst == LinePixels(cfg, palette, src[..k])
      decreases remaining
    {
      assert src[..k + 1][..k] == src[..k];
      dst := dst + ConvertWord(cfg, palette, src[k]);
      remaining := remaining - n;
      k := k + 1;
      WordsReadStep(cfg.depth, width, k);
    }
    if k > 0 {
      WordsReadStep(cfg.depth, width, k);
    }
    if width >= 0 && width % n == 0 {
      WordsReadMultiple(cfg.depth, width);
    }
  }

  /** Loop bookkeeping for DrawLine: after k words, pixels remain exactly
      when fewer than WordsRead words have been consumed. */
  lemma WordsReadStep(d: Depth, width: int, k: nat)
    requires 0 < k <= WordsRead(d, width)
    ensures width - k * PixelsPerWord(d) > 0 <==> k < WordsRead(d, width)
  {
    var n, total := PixelsPerWord(d), WordsRead(d, width);
    if k < total {
      MulMono(k, total - 1, n);
    } else {
      assert k == total;
    }
  }

  /** A width that is a whole number of words reads exactly width/ppw words. */
  lemma WordsReadMultiple(d: Depth, width: int)
    requires width >= 0 && width % PixelsPerWord(d) == 0
    ensures WordsRead(d, width) * PixelsPerWord(d) == width
  {
    var n, total := PixelsPerWord(d), WordsRead(d, width);
    if width > 0 {
      var q := width / n;
      assert width == q * n;
      MulCancel(total - 1, q, n);
      MulCancel(q, total, n);
    }
  }
}
