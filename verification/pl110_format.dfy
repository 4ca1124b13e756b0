/** The three axes along which the PL110 line converters are generated:
    source bit depth, byte/pixel order variant, and channel order, and the
    two flags (SWAP_WORDS, SWAP_PIXELS) a variant selects on a given host. */
module Pl110Format {

  /** Source depths, in the order of the dispatch table's eight columns:
      1, 2, 4, 8 bpp (palette indexed), 16 bpp 5:5:5 (+ intensity),
      32 bpp, 16 bpp 5:6:5 and 12 bpp 4:4:4. */
  datatype Depth = Bpp1 | Bpp2 | Bpp4 | Bpp8 | Bpp16_555 | Bpp32 | Bpp16_565 | Bpp12

  /** lblp: little-endian bytes, little-endian pixels; bbbp: big-endian
      bytes and pixels; lbbp: little-endian bytes, big-endian pixels. */
  datatype Variant = Lblp | Bbbp | Lbbp

  datatype ChannelOrder = Bgr | Rgb

  /** One converter: the values of the template's axes once the
      preprocessor has resolved them. */
  datatype Config = Config(depth: Depth, swapWords: bool, swapPixels: bool, rgb: bool)

  /** Depths whose samples index the palette. */
  predicate Indexed(d: Depth) {
    d.Bpp1? || d.Bpp2? || d.Bpp4? || d.Bpp8?
  }

  /** Pixels produced from one 32-bit source word (the amount `width` is
      decremented by in each loop iteration). */
  function PixelsPerWord(d: Depth): (n: nat)
    ensures n >= 1 && 32 % n == 0
  {
    match d
    case Bpp1 => 32
    case Bpp2 => 16
    case Bpp4 => 8
    case Bpp8 => 4
    case Bpp16_555 => 2
    case Bpp32 => 1
    case Bpp16_565 => 2
    case Bpp12 => 2
  }

  /** The preprocessor logic that turns ORDER into the two swap flags:
      lblp swaps words on a big-endian host, bbbp on a little-endian host,
      and lbbp swaps pixels always and words on a big-endian host. */
  function VariantConfig(d: Depth, v: Variant, c: ChannelOrder, bigEndianHost: bool): (cfg: Config)
    ensures cfg.depth == d && cfg.rgb == c.Rgb?
    ensures cfg.swapPixels <==> v.Lbbp?
    ensures cfg.swapWords <==> (if v.Bbbp? then !bigEndianHost else bigEndianHost)
  {
    match v
    case Lblp => Config(d, bigEndianHost, false, c.Rgb?)
    case Bbbp => Config(d, !bigEndianHost, false, c.Rgb?)
    case Lbbp => Config(d, bigEndianHost, true, c.Rgb?)
  }

  /** Moving the same variant to a host of the other byte order flips
      SWAP_WORDS and nothing else. */
  lemma VariantConfigHosts(d: Depth, v: Variant, c: ChannelOrder)
    ensures VariantConfig(d, v, c, true)
         == VariantConfig(d, v, c, false).(swapWords := !VariantConfig(d, v, c, false).swapWords)
  {
  }
}
