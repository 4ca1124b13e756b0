/** The `pl110_draw` dispatch table: 48 line converters, one per channel
    order, variant and depth, each with the pixman format the converted
    memory already has on this host, when there is one. */
module Pl110Table {
  import opened Wrappers
  import opened Pl110Format
  import opened Pl110Convert
  import opened Pl110Properties

  /** The pixman format codes the table names. */
  datatype PixmanFormat = X1r5g5b5 | X8r8g8b8 | B8g8r8a8 | R5g6b5 | X4r4g4b4

  /** A converter is named by its three template axes. */
  datatype Converter = Converter(depth: Depth, variant: Variant, order: ChannelOrder)

  /** One table slot; an absent `.fmt` (zero in C) is None. */
  datatype Entry = Entry(fn: Converter, fmt: Option<PixmanFormat>)

  /** LEBE(le, be): the first argument on a little-endian host, the second
      on a big-endian one; a zero format is None. */
  function LeBe(bigEndianHost: bool, le: Option<PixmanFormat>, be: Option<PixmanFormat>): Option<PixmanFormat> {
    if bigEndianHost then be else le
  }

  /** The table's six groups of eight, entry for entry: one group per
      channel order and variant, the depths in column order. */
  function Group(bigEndianHost: bool, c: ChannelOrder, v: Variant): (g: seq<Entry>)
    ensures |g| == 8
  {
    var h := bigEndianHost;
    match (c, v)
    case (Bgr, Lblp) =>
      [ Entry(Converter(Bpp1, Lblp, Bgr), None),
        Entry(Converter(Bpp2, Lblp, Bgr), None),
        Entry(Converter(Bpp4, Lblp, Bgr), None),
        Entry(Converter(Bpp8, Lblp, Bgr), None),
        Entry(Converter(Bpp16_555, Lblp, Bgr), LeBe(h, Some(X1r5g5b5), None)),
        Entry(Converter(Bpp32, Lblp, Bgr), LeBe(h, Some(X8r8g8b8), Some(B8g8r8a8))),
        Entry(Converter(Bpp16_565, Lblp, Bgr), LeBe(h, Some(R5g6b5), None)),
        Entry(Converter(Bpp12, Lblp, Bgr), LeBe(h, Some(X4r4g4b4), None)) ]
    case (Bgr, Bbbp) =>
      [ Entry(Converter(Bpp1, Bbbp, Bgr), None),
        Entry(Converter(Bpp2, Bbbp, Bgr), None),
        Entry(Converter(Bpp4, Bbbp, Bgr), None),
        Entry(Converter(Bpp8, Bbbp, Bgr), None),
        Entry(Converter(Bpp16_555, Bbbp, Bgr), None),
        Entry(Converter(Bpp32, Bbbp, Bgr), LeBe(h, Some(B8g8r8a8), Some(X8r8g8b8))),
        Entry(Converter(Bpp16_565, Bbbp, Bgr), None),
        Entry(Converter(Bpp12, Bbbp, Bgr), None) ]
    case (Bgr, Lbbp) =>
      [ Entry(Converter(Bpp1, Lbbp, Bgr), None),
        Entry(Converter(Bpp2, Lbbp, Bgr), None),
        Entry(Converter(Bpp4, Lbbp, Bgr), None),
        Entry(Converter(Bpp8, Lbbp, Bgr), None),
        Entry(Converter(Bpp16_555, Lbbp, Bgr), LeBe(h, Some(X1r5g5b5), None)),
        Entry(Converter(Bpp32, Lbbp, Bgr), LeBe(h, Some(X8r8g8b8), Some(B8g8r8a8))),
        Entry(Converter(Bpp16_565, Lbbp, Bgr), LeBe(h, Some(R5g6b5), None)),
        Entry(Converter(Bpp12, Lbbp, Bgr), LeBe(h, Some(X4r4g4b4), None)) ]
    case (Rgb, Lblp) =>
      [ Entry(Converter(Bpp1, Lblp, Rgb), None),
        Entry(Converter(Bpp2, Lblp, Rgb), None),
        Entry(Converter(Bpp4, Lblp, Rgb), None),
        Entry(Converter(Bpp8, Lblp, Rgb), None),
        Entry(Converter(Bpp16_555, Lblp, Rgb), None),
        Entry(Converter(Bpp32, Lblp, Rgb), None),
        Entry(Converter(Bpp16_565, Lblp, Rgb), None),
        Entry(Converter(Bpp12, Lblp, Rgb), None) ]
    case (Rgb, Bbbp) =>
      [ Entry(Converter(Bpp1, Bbbp, Rgb), None),
        Entry(Converter(Bpp2, Bbbp, Rgb), None),
        Entry(Converter(Bpp4, Bbbp, Rgb), None),
        Entry(Converter(Bpp8, Bbbp, Rgb), None),
        Entry(Converter(Bpp16_555, Bbbp, Rgb), None),
        Entry(Converter(Bpp32, Bbbp, Rgb), None),
        Entry(Converter(Bpp16_565, Bbbp, Rgb), None),
        Entry(Converter(Bpp12, Bbbp, Rgb), None) ]
    case (Rgb, Lbbp) =>
      [ Entry(Converter(Bpp1, Lbbp, Rgb), None),
        Entry(Converter(Bpp2, Lbbp, Rgb), None),
        Entry(Converter(Bpp4, Lbbp, Rgb), None),
        Entry(Converter(Bpp8, Lbbp, Rgb), None),
        Entry(Converter(Bpp16_555, Lbbp, Rgb), None),
        Entry(Converter(Bpp32, Lbbp, Rgb), None),
        Entry(Converter(Bpp16_565, Lbbp, Rgb), None),
        Entry(Converter(Bpp12, Lbbp, Rgb), None) ]
  }

  /** `pl110_draw`: bgr before rgb, within each lblp, bbbp, lbbp. */
  function Table(bigEndianHost: bool): (t: seq<Entry>)
    ensures |t| == 48
  {
    var h := bigEndianHost;
    Group(h, Bgr, Lblp) + Group(h, Bgr, Bbbp) + Group(h, Bgr, Lbbp)
    + Group(h, Rgb, Lblp) + Group(h, Rgb, Bbbp) + Group(h, Rgb, Lbbp)
  }

  /** Column of a depth within a group of eight. */
  function DepthColumn(d: Depth): (i: nat)
    ensures i < 8
  {
    match d
    case Bpp1 => 0
    case Bpp2 => 1
    case Bpp4 => 2
    case Bpp8 => 3
    case Bpp16_555 => 4
    case Bpp32 => 5
    case Bpp16_565 => 6
    case Bpp12 => 7
  }

  function VariantRow(v: Variant): (i: nat)
    ensures i < 3
  {
    match v
    case Lblp => 0
    case Bbbp => 1
    case Lbbp => 2
  }

  function OrderBlock(c: ChannelOrder): (i: nat)
    ensures i < 2
  {
    if c.Rgb? then 1 else 0
  }

  /** Reference layout: bgr before rgb, within each lblp, bbbp, lbbp,
      within each the eight depths in column order. */
  function Position(fn: Converter): (i: nat)
    ensures i < 48
  {
    24 * OrderBlock(fn.order) + 8 * VariantRow(fn.variant) + DepthColumn(fn.depth)
  }

  /** The format tags as rules: rgb converters have none; of the bgr
      converters, bbbp has one only at 32 bpp, and lblp and lbbp have one
      at 5:5:5, 32, 5:6:5 and 4:4:4 on a little-endian host but only at
      32 bpp on a big-endian one; the 32 bpp tags name the byte layout the
      converter writes (x8r8g8b8 when it swaps no words, b8g8r8a8 when it
      does). */
  function ReferenceTag(bigEndianHost: bool, fn: Converter): Option<PixmanFormat> {
    if fn.order == Rgb then None
    else if fn.depth == Bpp32 then
      if VariantConfig(Bpp32, fn.variant, Bgr, bigEndianHost).swapWords then Some(B8g8r8a8) else Some(X8r8g8b8)
    else if bigEndianHost || fn.variant == Bbbp then None
    else match fn.depth
      case Bpp16_555 => Some(X1r5g5b5)
      case Bpp16_565 => Some(R5g6b5)
      case Bpp12 => Some(X4r4g4b4)
      case _ => None
  }

  /** The table has 48 entries, every converter sits at its reference
      position, and its tag is the one the rules give. */
  lemma TableLayout(bigEndianHost: bool, fn: Converter)
    ensures |Table(bigEndianHost)| == 48
    ensures Table(bigEndianHost)[Position(fn)] == Entry(fn, ReferenceTag(bigEndianHost, fn))
  {
    var h, c, v := bigEndianHost, fn.order, fn.variant;
    var t := Table(h);
    var x := DepthColumn(fn.depth);
    var g := 3 * OrderBlock(c) + VariantRow(v);
    var gs := [Group(h, Bgr, Lblp), Group(h, Bgr, Bbbp), Group(h, Bgr, Lbbp),
               Group(h, Rgb, Lblp), Group(h, Rgb, Bbbp), Group(h, Rgb, Lbbp)];
    assert gs[g] == Group(h, c, v);
    assert t == gs[0] + gs[1] + gs[2] + gs[3] + gs[4] + gs[5];
    assert t[8 * g + x] == gs[g][x];
    GroupLayout(h, fn);
  }

  /** Within its group, a converter sits in its depth's column. */
  lemma GroupLayout(bigEndianHost: bool, fn: Converter)
    ensures Group(bigEndianHost, fn.order, fn.variant)[DepthColumn(fn.depth)] == Entry(fn, ReferenceTag(bigEndianHost, fn))
  {
    match fn.depth
    case Bpp1 =>
    case Bpp2 =>
    case Bpp4 =>
    case Bpp8 =>
    case Bpp16_555 =>
    case Bpp32 =>
    case Bpp16_565 =>
    case Bpp12 =>
  }

  /** Every slot holds a different converter: the positions are a
      one-to-one numbering of the 48 converters. */
  lemma PositionInjective(f1: Converter, f2: Converter)
    ensures Position(f1) == Position(f2) ==> f1 == f2
  {
    var p1, p2 := Position(f1), Position(f2);
    if p1 == p2 {
      assert DepthColumn(f1.depth) == DepthColumn(f2.depth);
      assert VariantRow(f1.variant) == VariantRow(f2.variant);
      assert OrderBlock(f1.order) == OrderBlock(f2.order);
    }
  }

  /** The converter a table entry names, as a configuration on this host. */
  function EntryConfig(e: Entry, bigEndianHost: bool): (cfg: Config)
    ensures cfg.depth == e.fn.depth
  {
    VariantConfig(e.fn.depth, e.fn.variant, e.fn.order, bigEndianHost)
  }

  /** lbbp carries the same tag as lblp at every depth, and at 8 bpp and
      above, tagged or not, its converter emits the lblp converter's
      pixels for every word (pixel order is never consulted there). */
  lemma LbbpAsLblp(bigEndianHost: bool, d: Depth, palette: seq<bv32>, w: bv32)
    requires ValidPalette(palette)
    ensures var t := Table(bigEndianHost);
      var lbbp, lblp := t[Position(Converter(d, Lbbp, Bgr))], t[Position(Converter(d, Lblp, Bgr))];
      && lbbp.fmt == lblp.fmt
      && ((d == Bpp8 || !Indexed(d)) ==>
            ConvertWord(EntryConfig(lbbp, bigEndianHost), palette, w) == ConvertWord(EntryConfig(lblp, bigEndianHost), palette, w))
  {
    TableLayout(bigEndianHost, Converter(d, Lbbp, Bgr));
    TableLayout(bigEndianHost, Converter(d, Lblp, Bgr));
    var cfg := VariantConfig(d, Lblp, Bgr, bigEndianHost);
    if d == Bpp8 || !Indexed(d) {
      SwapPixelsIgnoredFrom8(cfg, palette, w);
    }
  }
}
