/** What the PL110 converters promise: where each palette index comes
    from, that SWAP_WORDS is a byte swap of the source word, that the
    output does not depend on the host's byte order, and the channel
    layouts of the direct-colour depths. */
module Pl110Properties {
  import opened Bits
  import opened Pl110Format
  import opened Pl110Convert

  // ---------------------------------------------------------------------
  // Field positions in the indexed depths

  /** Field x of a byte is bits x*n .. x*n+n-1 without SWAP_PIXELS and
      bits 8-n-x*n .. 8-x*n-1 with it. */
  lemma {:induction false} FieldShiftFormula(d: Depth, swapPixels: bool, x: int)
    requires Indexed(d) && 0 <= x < |FieldShifts(d, swapPixels)|
    ensures var n := IndexBits(d);
      FieldShifts(d, swapPixels)[x] as int == if swapPixels then 8 - n - x * n else x * n
  {
    match d
    case Bpp1 =>
      if x == 0 {} else if x == 1 {} else if x == 2 {} else if x == 3 {}
      else if x == 4 {} else if x == 5 {} else if x == 6 {} else {}
    case Bpp2 =>
      if x == 0 {} else if x == 1 {} else if x == 2 {} else {}
    case Bpp4 =>
      if x == 0 {} else {}
    case Bpp8 =>
  }

  /** Every field lies inside its byte: the index mask shifted by the
      field's position does not reach bit 8. */
  lemma {:induction false} FieldFits(d: Depth, swapPixels: bool, x: int)
    requires Indexed(d) && 0 <= x < |FieldShifts(d, swapPixels)|
    ensures FieldShifts(d, swapPixels)[x] < 8
    ensures IndexMask(d) >> (8 - FieldShifts(d, swapPixels)[x]) == 0
  {
    match d
    case Bpp1 =>
      if x == 0 {} else if x == 1 {} else if x == 2 {} else if x == 3 {}
      else if x == 4 {} else if x == 5 {} else if x == 6 {} else {}
    case Bpp2 =>
      if x == 0 {} else if x == 1 {} else if x == 2 {} else {}
    case Bpp4 =>
      if x == 0 {} else {}
    case Bpp8 =>
  }

  /** A sequence in reverse order. */
  function Reverse<T>(s: seq<T>): (r: seq<T>)
    ensures |r| == |s| && forall i :: 0 <= i < |s| ==> r[i] == s[|s| - 1 - i]
  {
    seq(|s|, i requires 0 <= i < |s| => s[|s| - 1 - i])
  }

  /** SWAP_PIXELS reverses the order of the fields inside a byte. */
  lemma FieldShiftsReverse(d: Depth)
    requires Indexed(d)
    ensures FieldShifts(d, true) == Reverse(FieldShifts(d, false))
  {
    var r := Reverse(FieldShifts(d, false));
    match d
    case Bpp1 => assert r == [7, 6, 5, 4, 3, 2, 1, 0];
    case Bpp2 => assert r == [6, 4, 2, 0];
    case Bpp4 => assert r == [4, 0];
    case Bpp8 => assert r == [0];
  }

  /** Position b*k+x of four concatenated blocks of length k is position
      x of block b. */
  lemma ConcatBlocks<T>(f0: seq<T>, f1: seq<T>, f2: seq<T>, f3: seq<T>, k: nat, b: nat, x: nat)
    requires |f0| == k && |f1| == k && |f2| == k && |f3| == k && b < 4 && x < k
    ensures b * k + x < |f0 + f1 + f2 + f3|
    ensures (f0 + f1 + f2 + f3)[b * k + x] == [f0, f1, f2, f3][b][x]
  {
    if b == 0 {
    } else if b == 1 {
      assert b * k + x == k + x;
    } else if b == 2 {
      assert b * k + x == 2 * k + x;
    } else {
      assert b * k + x == 3 * k + x;
    }
  }

  /** The pixels of an indexed word come in four blocks, one per byte, in
      ByteStarts order. */
  lemma IndexedWordBlock(cfg: Config, palette: seq<bv32>, w: bv32, k: nat, b: nat, x: nat)
    requires Indexed(cfg.depth) && ValidPalette(palette) && k == FieldsPerByte(cfg.depth)
    requires b < 4 && x < k
    ensures b * k + x < |IndexedWord(cfg, palette, w)|
    ensures IndexedWord(cfg, palette, w)[b * k + x]
         == ByteFields(cfg, palette, w, ByteStarts(cfg.swapWords)[b])[x]
  {
    var ys := ByteStarts(cfg.swapWords);
    var fs := seq(4, i requires 0 <= i < 4 => ByteFields(cfg, palette, w, ys[i]));
    ConcatBlocks(fs[0], fs[1], fs[2], fs[3], k, b, x);
    assert [fs[0], fs[1], fs[2], fs[3]] == fs;
  }

  lemma ConvertIndexed(cfg: Config, palette: seq<bv32>, w: bv32)
    requires Indexed(cfg.depth) && ValidPalette(palette)
    ensures ConvertWord(cfg, palette, w) == IndexedWord(cfg, palette, w)
  {
  }

  lemma ByteFieldsAt(cfg: Config, palette: seq<bv32>, w: bv32, y: bv32, x: nat)
    requires Indexed(cfg.depth) && ValidPalette(palette) && y <= 24 && x < FieldsPerByte(cfg.depth)
    ensures ByteFields(cfg, palette, w, y)[x]
         == PaletteField(palette, w, y + FieldShifts(cfg.depth, cfg.swapPixels)[x], IndexMask(cfg.depth))
  {
  }

  lemma ByteFieldsFromPalette(cfg: Config, palette: seq<bv32>, w: bv32, y: bv32)
    requires Indexed(cfg.depth) && ValidPalette(palette) && y <= 24
    ensures forall x :: 0 <= x < FieldsPerByte(cfg.depth) ==> ByteFields(cfg, palette, w, y)[x].value in palette
  {
    forall x | 0 <= x < FieldsPerByte(cfg.depth)
      ensures ByteFields(cfg, palette, w, y)[x].value in palette
    {
      ByteFieldsAt(cfg, palette, w, y, x);
    }
  }

  /** Every pixel a converter emits is a palette entry (indexed depths) or
      a colour whose channels fit in 8 bits (direct depths). */
  lemma ConvertWordRange(cfg: Config, palette: seq<bv32>, w: bv32)
    requires ValidPalette(palette)
    ensures var px := ConvertWord(cfg, palette, w);
      && (Indexed(cfg.depth) ==> forall i :: 0 <= i < |px| ==> px[i].PaletteEntry? && px[i].value in palette)
      && (!Indexed(cfg.depth) ==> forall i :: 0 <= i < |px| ==> Direct8(px[i]))
  {
    if Indexed(cfg.depth) {
      var ys := ByteStarts(cfg.swapWords);
      ByteFieldsFromPalette(cfg, palette, w, ys[0]);
      ByteFieldsFromPalette(cfg, palette, w, ys[1]);
      ByteFieldsFromPalette(cfg, palette, w, ys[2]);
      ByteFieldsFromPalette(cfg, palette, w, ys[3]);
      ConvertIndexed(cfg, palette, w);
    }
  }

  /** The fields read at reversed shifts are the fields read at the
      original shifts, reversed. */
  lemma FieldsOfReverse(palette: seq<bv32>, w: bv32, y: bv32, fs: seq<bv32>, mask: bv32)
    requires ValidPalette(palette) && y <= 24 && mask <= 0xff
    requires forall x :: 0 <= x < |fs| ==> fs[x] < 8
    ensures FieldsOf(palette, w, y, Reverse(fs), mask) == Reverse(FieldsOf(palette, w, y, fs, mask))
  {
  }

  lemma ByteFieldsMirror(cfg: Config, palette: seq<bv32>, w: bv32, y: bv32)
    requires Indexed(cfg.depth) && ValidPalette(palette) && y <= 24
    ensures ByteFields(cfg.(swapPixels := true), palette, w, y)
         == Reverse(ByteFields(cfg.(swapPixels := false), palette, w, y))
  {
    FieldShiftsReverse(cfg.depth);
    FieldsOfReverse(palette, w, y, FieldShifts(cfg.depth, false), IndexMask(cfg.depth));
  }

  /** Reversing each of four blocks of length k, read back by slicing. */
  lemma ReverseBlocks<T>(f0: seq<T>, f1: seq<T>, f2: seq<T>, f3: seq<T>, k: nat)
    requires |f0| == k && |f1| == k && |f2| == k && |f3| == k
    ensures var c := f0 + f1 + f2 + f3;
      Reverse(f0) + Reverse(f1) + Reverse(f2) + Reverse(f3)
      == Reverse(c[..k]) + Reverse(c[k .. 2 * k]) + Reverse(c[2 * k .. 3 * k]) + Reverse(c[3 * k ..])
  {
    var c := f0 + f1 + f2 + f3;
    assert c[..k] == f0;
    assert c[k .. 2 * k] == f1;
    assert c[2 * k .. 3 * k] == f2;
    assert c[3 * k ..] == f3;
  }

  /** SWAP_PIXELS mirrors the pixels of each byte and nothing else: the
      converter with the flag emits each byte's block of pixels (k per
      byte) in the reverse of the order the converter without it does. */
  lemma PixelOrderMirror(cfg: Config, palette: seq<bv32>, w: bv32)
    requires Indexed(cfg.depth) && ValidPalette(palette)
    ensures var k := FieldsPerByte(cfg.depth);
      var plain := ConvertWord(cfg.(swapPixels := false), palette, w);
      ConvertWord(cfg.(swapPixels := true), palette, w)
      == Reverse(plain[..k]) + Reverse(plain[k .. 2 * k]) + Reverse(plain[2 * k .. 3 * k]) + Reverse(plain[3 * k ..])
  {
    var on, off := cfg.(swapPixels := true), cfg.(swapPixels := false);
    var ys := ByteStarts(cfg.swapWords);
    ConvertIndexed(off, palette, w);
    ConvertIndexed(on, palette, w);
    ByteFieldsMirror(cfg, palette, w, ys[0]);
    ByteFieldsMirror(cfg, palette, w, ys[1]);
    ByteFieldsMirror(cfg, palette, w, ys[2]);
    ByteFieldsMirror(cfg, palette, w, ys[3]);
    ReverseBlocks(ByteFields(off, palette, w, ys[0]), ByteFields(off, palette, w, ys[1]),
                  ByteFields(off, palette, w, ys[2]), ByteFields(off, palette, w, ys[3]), FieldsPerByte(cfg.depth));
  }

  /** The indexed converters look only at the depth and the two swap
      flags, not at the channel order. */
  lemma IndexedWordFlags(c1: Config, c2: Config, palette: seq<bv32>, w: bv32)
    requires Indexed(c1.depth) && ValidPalette(palette)
    requires c1.depth == c2.depth && c1.swapWords == c2.swapWords && c1.swapPixels == c2.swapPixels
    ensures IndexedWord(c1, palette, w) == IndexedWord(c2, palette, w)
  {
    assert ByteFields(c1, palette, w, 0) == ByteFields(c2, palette, w, 0);
    assert ByteFields(c1, palette, w, 8) == ByteFields(c2, palette, w, 8);
    assert ByteFields(c1, palette, w, 16) == ByteFields(c2, palette, w, 16);
    assert ByteFields(c1, palette, w, 24) == ByteFields(c2, palette, w, 24);
  }

  /** At 8 bpp and above the converters never consult SWAP_PIXELS, so the
      lbbp and lblp converters of these depths are the same function. */
  lemma SwapPixelsIgnoredFrom8(cfg: Config, palette: seq<bv32>, w: bv32)
    requires ValidPalette(palette) && (cfg.depth == Bpp8 || !Indexed(cfg.depth))
    ensures ConvertWord(cfg.(swapPixels := true), palette, w) == ConvertWord(cfg.(swapPixels := false), palette, w)
  {
    var on, off := cfg.(swapPixels := true), cfg.(swapPixels := false);
    match cfg.depth
    case Bpp8 =>
      assert FieldShifts(Bpp8, true) == FieldShifts(Bpp8, false);
      assert ByteFields(on, palette, w, 0) == ByteFields(off, palette, w, 0);
      assert ByteFields(on, palette, w, 8) == ByteFields(off, palette, w, 8);
      assert ByteFields(on, palette, w, 16) == ByteFields(off, palette, w, 16);
      assert ByteFields(on, palette, w, 24) == ByteFields(off, palette, w, 24);
    case Bpp16_565 =>
    case Bpp16_555 =>
    case Bpp12 =>
    case Bpp32 =>
  }

  // ---------------------------------------------------------------------
  // SWAP_WORDS is bswap32 of the source word

  /** A field that does not cross a byte boundary, read at byte offset y of
      the byte-swapped word, is the same field of byte offset 24-y. */
  lemma SwapField(w: bv32, y: bv32, s: bv32, m: bv32)
    requires y == 0 || y == 8 || y == 16 || y == 24
    requires s < 8 && m <= 0xff && m >> (8 - s) == 0
    ensures (Bswap32(w) >> (y + s)) & m == (w >> (24 - y + s)) & m
  {
    if y == 0 {
      if s == 0 {} else if s == 1 {} else if s == 2 {} else if s == 3 {}
      else if s == 4 {} else if s == 5 {} else if s == 6 {} else {}
    } else if y == 8 {
      if s == 0 {} else if s == 1 {} else if s == 2 {} else if s == 3 {}
      else if s == 4 {} else if s == 5 {} else if s == 6 {} else {}
    } else if y == 16 {
      if s == 0 {} else if s == 1 {} else if s == 2 {} else if s == 3 {}
      else if s == 4 {} else if s == 5 {} else if s == 6 {} else {}
    } else {
      if s == 0 {} else if s == 1 {} else if s == 2 {} else if s == 3 {}
      else if s == 4 {} else if s == 5 {} else if s == 6 {} else {}
    }
  }

  lemma PaletteFieldSwap(palette: seq<bv32>, w: bv32, y: bv32, s: bv32, m: bv32)
    requires ValidPalette(palette)
    requires y == 0 || y == 8 || y == 16 || y == 24
    requires s < 8 && m <= 0xff && m >> (8 - s) == 0
    ensures PaletteField(palette, Bswap32(w), y + s, m) == PaletteField(palette, w, 24 - y + s, m)
  {
    SwapField(w, y, s, m);
  }

  lemma ByteFieldsSwap(cfg: Config, palette: seq<bv32>, w: bv32, y: bv32)
    requires Indexed(cfg.depth) && ValidPalette(palette)
    requires y == 0 || y == 8 || y == 16 || y == 24
    ensures ByteFields(cfg, palette, Bswap32(w), y) == ByteFields(cfg, palette, w, 24 - y)
  {
    var fs := FieldShifts(cfg.depth, cfg.swapPixels);
    forall x | 0 <= x < |fs|
      ensures ByteFields(cfg, palette, Bswap32(w), y)[x] == ByteFields(cfg, palette, w, 24 - y)[x]
    {
      FieldFits(cfg.depth, cfg.swapPixels, x);
      PaletteFieldSwap(palette, w, y, fs[x], IndexMask(cfg.depth));
    }
  }

  lemma Pixel32Swap(rgb: bool, w: bv32)
    ensures Pixel32(rgb, true, w) == Pixel32(rgb, false, Bswap32(w))
  {
  }

  /** Word-swap equivalence: the SWAP_WORDS converter applied to w emits
      exactly what the converter without it emits for bswap32(w), at every
      depth and channel order. */
  lemma IndexedWordSwap(cfg: Config, palette: seq<bv32>, w: bv32)
    requires Indexed(cfg.depth) && ValidPalette(palette)
    ensures IndexedWord(cfg.(swapWords := true), palette, w)
         == IndexedWord(cfg.(swapWords := false), palette, Bswap32(w))
  {
    var on, off := cfg.(swapWords := true), cfg.(swapWords := false);
    ByteFieldsSwap(off, palette, w, 0);
    ByteFieldsSwap(off, palette, w, 8);
    ByteFieldsSwap(off, palette, w, 16);
    ByteFieldsSwap(off, palette, w, 24);
    IndexedWordFlags(on, off.(swapWords := true), palette, w);
  }

  lemma DirectWordSwap(cfg: Config, w: bv32)
    requires !Indexed(cfg.depth)
    ensures DirectWord(cfg.(swapWords := true), w) == DirectWord(cfg.(swapWords := false), Bswap32(w))
  {
    if cfg.depth == Bpp32 {
      Pixel32Swap(cfg.rgb, w);
    }
  }

  lemma WordSwapEquivalence(cfg: Config, palette: seq<bv32>, w: bv32)
    requires ValidPalette(palette)
    ensures ConvertWord(cfg.(swapWords := true), palette, w)
         == ConvertWord(cfg.(swapWords := false), palette, Bswap32(w))
  {
    if Indexed(cfg.depth) {
      IndexedWordSwap(cfg, palette, w);
    } else {
      DirectWordSwap(cfg, w);
    }
  }

  /** bswap32 applied to every word of a line. */
  function SwapEach(words: seq<bv32>): (r: seq<bv32>)
    ensures |r| == |words|
    ensures forall i :: 0 <= i < |words| ==> r[i] == Bswap32(words[i])
  {
    seq(|words|, i requires 0 <= i < |words| => Bswap32(words[i]))
  }

  lemma SwapEachInvolutive(words: seq<bv32>)
    ensures SwapEach(SwapEach(words)) == words
  {
    forall i | 0 <= i < |words|
      ensures SwapEach(SwapEach(words))[i] == words[i]
    {
      Bswap32Involutive(words[i]);
    }
  }

  /** Word-swap equivalence for a whole line. */
  lemma {:induction false} LineSwapEquivalence(cfg: Config, palette: seq<bv32>, words: seq<bv32>)
    requires ValidPalette(palette)
    ensures LinePixels(cfg.(swapWords := true), palette, words)
         == LinePixels(cfg.(swapWords := false), palette, SwapEach(words))
    decreases |words|
  {
    if words != [] {
      var init := words[..|words| - 1];
      assert SwapEach(words)[..|words| - 1] == SwapEach(init);
      LineSwapEquivalence(cfg, palette, init);
      WordSwapEquivalence(cfg, palette, words[|words| - 1]);
    }
  }

  // ---------------------------------------------------------------------
  // Independence from the host's byte order

  /** A scanline of guest memory as the host loads it, one word per four
      bytes. */
  function GuestWords(bigEndianHost: bool, m: seq<byte>): (words: seq<bv32>)
    requires |m| % 4 == 0
    ensures |words| == |m| / 4
    ensures forall i :: 0 <= i < |words| ==> words[i] == LoadWord(bigEndianHost, m[4 * i .. 4 * i + 4])
  {
    seq(|m| / 4, i requires 0 <= i < |m| / 4 => LoadWord(bigEndianHost, m[4 * i .. 4 * i + 4]))
  }

  lemma GuestWordsHosts(m: seq<byte>)
    requires |m| % 4 == 0
    ensures GuestWords(true, m) == SwapEach(GuestWords(false, m))
  {
    var be, le := GuestWords(true, m), GuestWords(false, m);
    forall i | 0 <= i < |be|
      ensures be[i] == SwapEach(le)[i]
    {
      var chunk := m[4 * i .. 4 * i + 4];
      assert be[i] == LoadWord(true, chunk);
      assert le[i] == LoadWord(false, chunk);
      LoadWordHosts(chunk);
    }
  }

  /** The variant-to-flag mapping makes every converter independent of the
      host: the same guest bytes give the same pixels on a little-endian
      and on a big-endian host. */
  lemma {:induction false} HostIndependence(d: Depth, v: Variant, c: ChannelOrder, palette: seq<bv32>, m: seq<byte>)
    requires ValidPalette(palette) && |m| % 4 == 0
    ensures LinePixels(VariantConfig(d, v, c, true), palette, GuestWords(true, m))
         == LinePixels(VariantConfig(d, v, c, false), palette, GuestWords(false, m))
  {
    var le := VariantConfig(d, v, c, false);
    var words := GuestWords(false, m);
    GuestWordsHosts(m);
    VariantConfigHosts(d, v, c);
    if le.swapWords {
      LineSwapEquivalence(le, palette, words);
      assert le.(swapWords := true) == le;
    } else {
      LineSwapEquivalence(le, palette, SwapEach(words));
      SwapEachInvolutive(words);
      assert le.(swapWords := false) == le;
    }
  }

  /** The same, for one word. */
  lemma WordHostIndependence(d: Depth, v: Variant, c: ChannelOrder, palette: seq<bv32>, m: seq<byte>)
    requires ValidPalette(palette) && |m| == 4
    ensures ConvertWord(VariantConfig(d, v, c, true), palette, LoadWord(true, m))
         == ConvertWord(VariantConfig(d, v, c, false), palette, LoadWord(false, m))
  {
    var le := VariantConfig(d, v, c, false);
    LoadWordHosts(m);
    VariantConfigHosts(d, v, c);
    if le.swapWords {
      WordSwapEquivalence(le, palette, LoadWord(false, m));
    } else {
      WordSwapEquivalence(le, palette, LoadWord(true, m));
      Bswap32Involutive(LoadWord(false, m));
    }
  }

  // ---------------------------------------------------------------------
  // Indexed depths in terms of guest memory bytes

  /** The palette entries for the fields of one guest byte, in emission
      order (lowest field first, or mirrored for big-endian pixels). */
  function GuestByteFields(d: Depth, swapPixels: bool, palette: seq<bv32>, b: byte): (px: seq<HostPixel>)
    requires Indexed(d) && ValidPalette(palette)
    ensures |px| == FieldsPerByte(d)
  {
    FieldsOf(palette, b as bv32, 0, FieldShifts(d, swapPixels), IndexMask(d))
  }

  /** Which guest byte of a word is consumed first, second, ...: memory
      order for lblp and lbbp, reversed within the word for bbbp. */
  function GuestByteOrder(v: Variant): (o: seq<int>)
    ensures |o| == 4 && forall i :: 0 <= i < 4 ==> 0 <= o[i] < 4
  {
    if v.Bbbp? then [3, 2, 1, 0] else [0, 1, 2, 3]
  }

  lemma ByteField(w: bv32, k: bv32, s: bv32, m: bv32)
    requires k < 4 && s < 8 && m <= 0xff && m >> (8 - s) == 0
    ensures (w >> (8 * k + s)) & m == ((ByteOf(w, k) as bv32) >> s) & m
  {
    if k == 0 {
      if s == 0 {} else if s == 1 {} else if s == 2 {} else if s == 3 {}
      else if s == 4 {} else if s == 5 {} else if s == 6 {} else {}
    } else if k == 1 {
      if s == 0 {} else if s == 1 {} else if s == 2 {} else if s == 3 {}
      else if s == 4 {} else if s == 5 {} else if s == 6 {} else {}
    } else if k == 2 {
      if s == 0 {} else if s == 1 {} else if s == 2 {} else if s == 3 {}
      else if s == 4 {} else if s == 5 {} else if s == 6 {} else {}
    } else {
      if s == 0 {} else if s == 1 {} else if s == 2 {} else if s == 3 {}
      else if s == 4 {} else if s == 5 {} else if s == 6 {} else {}
    }
  }

  lemma PaletteFieldOfByte(palette: seq<bv32>, w: bv32, k: bv32, s: bv32, m: bv32)
    requires ValidPalette(palette)
    requires k < 4 && s < 8 && m <= 0xff && m >> (8 - s) == 0
    ensures PaletteField(palette, w, 8 * k + s, m) == PaletteField(palette, ByteOf(w, k) as bv32, s, m)
  {
    ByteField(w, k, s, m);
  }

  lemma ByteFieldsOfByte(cfg: Config, palette: seq<bv32>, w: bv32, k: bv32)
    requires Indexed(cfg.depth) && ValidPalette(palette) && k < 4
    ensures ByteFields(cfg, palette, w, 8 * k)
         == GuestByteFields(cfg.depth, cfg.swapPixels, palette, ByteOf(w, k))
  {
    var fs := FieldShifts(cfg.depth, cfg.swapPixels);
    forall x | 0 <= x < |fs|
      ensures ByteFields(cfg, palette, w, 8 * k)[x]
           == GuestByteFields(cfg.depth, cfg.swapPixels, palette, ByteOf(w, k))[x]
    {
      FieldFits(cfg.depth, cfg.swapPixels, x);
      PaletteFieldOfByte(palette, w, k, fs[x], IndexMask(cfg.depth));
    }
  }

  /** Reference reading of the indexed formats: a word of guest memory
      yields the fields of its bytes in GuestByteOrder, each byte's fields
      low bits first (lblp, bbbp) or high bits first (lbbp), on either
      host. */
  lemma IndexedFromGuestBytes(d: Depth, v: Variant, c: ChannelOrder, bigEndianHost: bool,
                              palette: seq<bv32>, m: seq<byte>)
    requires Indexed(d) && ValidPalette(palette) && |m| == 4
    ensures var o := GuestByteOrder(v);
      ConvertWord(VariantConfig(d, v, c, bigEndianHost), palette, LoadWord(bigEndianHost, m))
      == GuestByteFields(d, v.Lbbp?, palette, m[o[0]]) + GuestByteFields(d, v.Lbbp?, palette, m[o[1]])
       + GuestByteFields(d, v.Lbbp?, palette, m[o[2]]) + GuestByteFields(d, v.Lbbp?, palette, m[o[3]])
  {
    var cfg := VariantConfig(d, v, c, false);
    var w := LoadWord(false, m);
    ByteFieldsOfByte(cfg, palette, w, 0);
    ByteFieldsOfByte(cfg, palette, w, 1);
    ByteFieldsOfByte(cfg, palette, w, 2);
    ByteFieldsOfByte(cfg, palette, w, 3);
    if bigEndianHost {
      WordHostIndependence(d, v, c, palette, m);
    }
  }

  /** At 8 bpp a guest byte is one palette index. */
  lemma GuestByteFields8(swapPixels: bool, palette: seq<bv32>, b: byte)
    requires ValidPalette(palette)
    ensures GuestByteFields(Bpp8, swapPixels, palette, b) == [PaletteEntry(palette[b as int])]
  {
    assert FieldShifts(Bpp8, swapPixels) == [0];
    assert FieldValue(b as bv32, 0 + 0, 0xff) == b;
  }

  /** A line of 8 bpp guest memory holding indices 5, 9, 5, 9, with
      palette[5] = 0xFF0000 and palette[9] = 0x00FF00, converts to those
      two colours alternately, whatever the host. */
  lemma Indexed8Example(palette: seq<bv32>, c: ChannelOrder, bigEndianHost: bool)
    requires ValidPalette(palette) && palette[5] == 0xFF0000 && palette[9] == 0x00FF00
    ensures LinePixels(VariantConfig(Bpp8, Lblp, c, bigEndianHost), palette, GuestWords(bigEndianHost, [5, 9, 5, 9]))
         == [PaletteEntry(0xFF0000), PaletteEntry(0x00FF00), PaletteEntry(0xFF0000), PaletteEntry(0x00FF00)]
  {
    var m: seq<byte> := [5, 9, 5, 9];
    var cfg := VariantConfig(Bpp8, Lblp, c, bigEndianHost);
    assert GuestWords(bigEndianHost, m) == [LoadWord(bigEndianHost, m)];
    IndexedFromGuestBytes(Bpp8, Lblp, c, bigEndianHost, palette, m);
    GuestByteFields8(false, palette, 5);
    GuestByteFields8(false, palette, 9);
    assert LinePixels(cfg, palette, [LoadWord(bigEndianHost, m)]) == ConvertWord(cfg, palette, LoadWord(bigEndianHost, m));
  }

  // ---------------------------------------------------------------------
  // Channel order and the direct-colour layouts

  /** Exchange red and blue; palette entries are left alone. */
  function SwapRedBlue(p: HostPixel): HostPixel {
    match p
    case PaletteEntry(v) => p
    case RgbToPixel32(r, g, b) => RgbToPixel32(b, g, r)
  }

  lemma PackSwap(lsb: bv32, g: bv32, msb: bv32)
    ensures Pack(true, lsb, g, msb) == SwapRedBlue(Pack(false, lsb, g, msb))
  {
  }

  lemma HalfwordChannelSwap(d: Depth, h: bv32)
    requires d == Bpp16_565 || d == Bpp16_555 || d == Bpp12
    ensures var rgb, bgr := HalfwordPixels(d, true, h), HalfwordPixels(d, false, h);
      rgb[0] == SwapRedBlue(bgr[0]) && rgb[1] == SwapRedBlue(bgr[1])
  {
    match d
    case Bpp16_565 =>
      PackSwap((h & 0x1f) << 3, ((h >> 5) & 0x3f) << 2, ((h >> 11) & 0x1f) << 3);
      var e := h >> 16;
      PackSwap((e & 0x1f) << 3, ((e >> 5) & 0x3f) << 2, ((e >> 11) & 0x1f) << 3);
    case Bpp16_555 =>
      PackSwap((h & 0x1f) << 3, ((h >> 5) & 0x1f) << 3, ((h >> 10) & 0x1f) << 3);
      var e := h >> 15;
      PackSwap((e & 0x1f) << 3, ((e >> 5) & 0x1f) << 3, ((e >> 10) & 0x1f) << 3);
    case Bpp12 =>
      PackSwap((h & 0xf) << 4, ((h >> 4) & 0xf) << 4, ((h >> 8) & 0xf) << 4);
      var e := h >> 16;
      PackSwap((e & 0xf) << 4, ((e >> 4) & 0xf) << 4, ((e >> 8) & 0xf) << 4);
  }

  lemma DirectChannelSwap(cfg: Config, w: bv32)
    requires !Indexed(cfg.depth)
    ensures var rgb, bgr := DirectWord(cfg.(rgb := true), w), DirectWord(cfg.(rgb := false), w);
      |rgb| == |bgr| && forall i :: 0 <= i < |rgb| ==> rgb[i] == SwapRedBlue(bgr[i])
  {
    if cfg.depth == Bpp32 {
      if cfg.swapWords {
        PackSwap((w >> 24) & 0xff, (w >> 16) & 0xff, (w >> 8) & 0xff);
      } else {
        PackSwap(w & 0xff, (w >> 8) & 0xff, (w >> 16) & 0xff);
      }
    } else {
      HalfwordChannelSwap(cfg.depth, if cfg.swapWords then Bswap32(w) else w);
    }
  }

  /** RGB and BGR converters differ only in which of the outer channels is
      red: the indexed depths do not look at the channel order at all. */
  lemma ChannelOrderSwap(cfg: Config, palette: seq<bv32>, w: bv32)
    requires ValidPalette(palette)
    ensures var rgb, bgr := ConvertWord(cfg.(rgb := true), palette, w), ConvertWord(cfg.(rgb := false), palette, w);
      |rgb| == |bgr| && forall i :: 0 <= i < |rgb| ==> rgb[i] == SwapRedBlue(bgr[i])
  {
    if Indexed(cfg.depth) {
      IndexedWordFlags(cfg.(rgb := true), cfg.(rgb := false), palette, w);
    } else {
      DirectChannelSwap(cfg, w);
    }
  }

  /** A 5:6:5 halfword: LSB field in bits 0-4, green in 5-10, MSB field in
      11-15. */
  function Halfword565(lsb: bv32, g: bv32, msb: bv32): bv32
    requires lsb < 32 && g < 64 && msb < 32
  {
    lsb | (g << 5) | (msb << 11)
  }

  /** 5:6:5 layout: pixel 0 from bits 0-15, pixel 1 from bits 16-31; the
      5-bit fields are scaled by 8 and green by 4; under RGB the low field
      is red, under BGR blue. */
  lemma Layout565(cfg: Config, palette: seq<bv32>, l0: bv32, g0: bv32, m0: bv32, l1: bv32, g1: bv32, m1: bv32)
    requires ValidPalette(palette) && cfg.depth == Bpp16_565 && !cfg.swapWords
    requires l0 < 32 && g0 < 64 && m0 < 32 && l1 < 32 && g1 < 64 && m1 < 32
    ensures var px := ConvertWord(cfg, palette, Halfword565(l0, g0, m0) | (Halfword565(l1, g1, m1) << 16));
      && (cfg.rgb ==> px == [RgbToPixel32(l0 << 3, g0 << 2, m0 << 3), RgbToPixel32(l1 << 3, g1 << 2, m1 << 3)])
      && (!cfg.rgb ==> px == [RgbToPixel32(m0 << 3, g0 << 2, l0 << 3), RgbToPixel32(m1 << 3, g1 << 2, l1 << 3)])
  {
  }

  /** The halfword 0xF800 (top field all ones) is red 0xF8 under BGR and
      blue 0xF8 under RGB. */
  lemma Example565(palette: seq<bv32>, swapPixels: bool)
    requires ValidPalette(palette)
    ensures ConvertWord(Config(Bpp16_565, false, swapPixels, false), palette, 0xF800)[0] == RgbToPixel32(0xF8, 0, 0)
    ensures ConvertWord(Config(Bpp16_565, false, swapPixels, true), palette, 0xF800)[0] == RgbToPixel32(0, 0, 0xF8)
  {
  }

  /** 5:6:5 channel ranges: red and blue are multiples of 8 up to 0xF8,
      green a multiple of 4 up to 0xFC. */
  lemma Range565(cfg: Config, palette: seq<bv32>, w: bv32)
    requires ValidPalette(palette) && cfg.depth == Bpp16_565
    ensures forall i :: 0 <= i < 2 ==>
      var p := ConvertWord(cfg, palette, w)[i];
      && p.r & 7 == 0 && p.r <= 0xF8 && p.b & 7 == 0 && p.b <= 0xF8
      && p.g & 3 == 0 && p.g <= 0xFC
  {
  }

  /** A 5:5:5 pixel: LSB field in bits 0-4, green in 5-9, MSB field in
      10-14. */
  function Pixel555Bits(lsb: bv32, g: bv32, msb: bv32): bv32
    requires lsb < 32 && g < 32 && msb < 32
  {
    lsb | (g << 5) | (msb << 10)
  }

  /** 5:5:5 layout as the code reads it: pixel 0 from bits 0-14 and pixel 1
      from bits 15-29 (three 5-bit shifts precede the second pixel), so bits
      30 and 31 are never read. */
  lemma Layout555(cfg: Config, palette: seq<bv32>, l0: bv32, g0: bv32, m0: bv32, l1: bv32, g1: bv32, m1: bv32, top: bv32)
    requires ValidPalette(palette) && cfg.depth == Bpp16_555 && !cfg.swapWords
    requires l0 < 32 && g0 < 32 && m0 < 32 && l1 < 32 && g1 < 32 && m1 < 32 && top < 4
    ensures var px := ConvertWord(cfg, palette, Pixel555Bits(l0, g0, m0) | (Pixel555Bits(l1, g1, m1) << 15) | (top << 30));
      && (cfg.rgb ==> px == [RgbToPixel32(l0 << 3, g0 << 3, m0 << 3), RgbToPixel32(l1 << 3, g1 << 3, m1 << 3)])
      && (!cfg.rgb ==> px == [RgbToPixel32(m0 << 3, g0 << 3, l0 << 3), RgbToPixel32(m1 << 3, g1 << 3, l1 << 3)])
  {
  }

  /** A 4:4:4 pixel: LSB field in bits 0-3, green in 4-7, MSB field in 8-11. */
  function Pixel444Bits(lsb: bv32, g: bv32, msb: bv32): bv32
    requires lsb < 16 && g < 16 && msb < 16
  {
    lsb | (g << 4) | (msb << 8)
  }

  /** 4:4:4 layout: pixel 0 from bits 0-11, pixel 1 from bits 16-27, each
      field scaled by 16; the top nibble of each halfword is ignored. */
  lemma Layout444(cfg: Config, palette: seq<bv32>, l0: bv32, g0: bv32, m0: bv32, l1: bv32, g1: bv32, m1: bv32,
                  pad0: bv32, pad1: bv32)
    requires ValidPalette(palette) && cfg.depth == Bpp12 && !cfg.swapWords
    requires l0 < 16 && g0 < 16 && m0 < 16 && l1 < 16 && g1 < 16 && m1 < 16 && pad0 < 16 && pad1 < 16
    ensures var w := Pixel444Bits(l0, g0, m0) | (pad0 << 12) | (Pixel444Bits(l1, g1, m1) << 16) | (pad1 << 28);
      var px := ConvertWord(cfg, palette, w);
      && (cfg.rgb ==> px == [RgbToPixel32(l0 << 4, g0 << 4, m0 << 4), RgbToPixel32(l1 << 4, g1 << 4, m1 << 4)])
      && (!cfg.rgb ==> px == [RgbToPixel32(m0 << 4, g0 << 4, l0 << 4), RgbToPixel32(m1 << 4, g1 << 4, l1 << 4)])
  {
  }

  /** 32 bpp layout: the channels are bytes 0, 1 and 2, unscaled; byte 3 is
      ignored. */
  lemma Layout32(cfg: Config, palette: seq<bv32>, lsb: byte, g: byte, msb: byte, top: byte)
    requires ValidPalette(palette) && cfg.depth == Bpp32 && !cfg.swapWords
    ensures var px := ConvertWord(cfg, palette, Assemble(lsb, g, msb, top));
      && (cfg.rgb ==> px == [RgbToPixel32(lsb as bv32, g as bv32, msb as bv32)])
      && (!cfg.rgb ==> px == [RgbToPixel32(msb as bv32, g as bv32, lsb as bv32)])
  {
  }
}
